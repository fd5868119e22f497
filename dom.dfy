/**
 * Lazily materialised DOM nodes. A node handle is a shared cell that holds
 * either a virtual description (a thunk) or a live node (a value); handles
 * are object references, so cloning a handle shares the node and identity
 * is reference equality. Every operation looks at the state of all its
 * operands: when they are all still thunks it edits the virtual
 * descriptions only, otherwise it materialises them and edits the live
 * nodes.
 */
module Dom {
  import opened Wrappers
  import opened ChildList

  /** The two states of a lazy cell. The `Option` only lets promotion move the thunk out. */
  datatype Lazy<V, T> = Value(value: V) | Thunk(thunk: Option<T>)

  /** The value a cell promotes to under `f`: its own value, or `f` of its thunk. */
  function Forced<V, T>(l: Lazy<V, T>, f: T -> V): V
    requires l.Value? || l.thunk.Some?
  {
    match l
    case Value(v) => v
    case Thunk(t) => f(t.value)
  }

  /** A shared, mutable lazy cell; `promotions` counts the times a promotion function ran. */
  class LazyCell<V, T> {
    var state: Lazy<V, T>
    ghost var promotions: nat

    /** A thunk is never observed moved out, and promotion happens at most once. */
    ghost predicate Valid()
      reads this
    {
      && (state.Thunk? ==> state.thunk.Some? && promotions == 0)
      && promotions <= 1
    }

    /** A cell still holding a thunk has its description and was never promoted. */
    predicate IsThunk(): (r: bool)
      reads this
      ensures Valid() && r ==> state != Thunk(None) && promotions == 0
    {
      state.Thunk?
    }

    constructor NewThunk(x: T)
      ensures Valid() && IsThunk()
      ensures state == Thunk(Some(x)) && promotions == 0
    {
      state := Thunk(Some(x));
      promotions := 0;
    }

    constructor NewValue(x: V)
      ensures Valid() && !IsThunk()
      ensures state == Value(x) && promotions == 0
    {
      state := Value(x);
      promotions := 0;
    }

    /** Promote with `f` unless already promoted; either way the cell ends as a value, which is returned. */
    method ValueWith(f: T -> V) returns (v: V)
      requires Valid()
      modifies this
      ensures Valid() && state == Value(v)
      ensures v == Forced(old(state), f)
      ensures old(state).Value? ==> v == old(state).value && promotions == old(promotions)
      ensures old(state).Thunk? ==> v == f(old(state).thunk.value) && promotions == old(promotions) + 1
    {
      match state
      case Value(x) =>
        return x;
      case Thunk(t) =>
        v := f(t.value);
        state := Value(v);
        promotions := promotions + 1;
    }

    /** The virtual description; only a thunk has one. */
    function GetThunk(): (t: T)
      reads this
      requires Valid() && IsThunk()
      ensures state == Thunk(Some(t))
    {
      state.thunk.value
    }

    /** Write back an edited virtual description. */
    method SetThunk(t: T)
      requires Valid() && IsThunk()
      modifies this
      ensures Valid() && state == Thunk(Some(t)) && promotions == old(promotions)
    {
      state := Thunk(Some(t));
    }

    /** Write back an edited live value. */
    method SetValue(v: V)
      requires Valid() && !IsThunk()
      modifies this
      ensures Valid() && state == Value(v) && promotions == old(promotions)
    {
      state := Value(v);
    }
  }

  /** A cell is never demoted: promoting twice runs the promotion function once and yields the first value. */
  method PromoteTwice<V, T>(cell: LazyCell<V, T>, f: T -> V, g: T -> V) returns (first: V, second: V)
    requires cell.Valid()
    modifies cell
    ensures cell.Valid() && !cell.IsThunk()
    ensures first == second && cell.state == Value(first)
    ensures cell.promotions == (if old(cell.IsThunk()) then 1 else old(cell.promotions))
  {
    first := cell.ValueWith(f);
    second := cell.ValueWith(g);
  }

  /** Identity of an effect callback registered on an element. */
  type EffectId = nat

  /** What an element shows, the same for its virtual and its live form. */
  datatype ElementData = ElementData(
    namespace: Option<string>,
    tag: string,
    attributes: map<string, string>,
    listeners: seq<string>,
    children: seq<Node>,
    stored: seq<Node>)

  /** A virtual element; its effects wait for materialisation. */
  datatype VElement = VElement(data: ElementData, pendingEffects: seq<EffectId>)

  /** A live element; its effects have run. */
  datatype RealElement = RealElement(data: ElementData, ranEffects: seq<EffectId>)

  datatype VText = VText(text: string)

  datatype RealText = RealText(text: string)

  type DomElement = LazyCell<RealElement, VElement>

  type DomText = LazyCell<RealText, VText>

  /** Either kind of node, held uniformly; equality is identity of the handle. */
  datatype Node = Element(elem: DomElement) | Text(text: DomText)
  {
    function Obj(): object {
      match this
      case Element(e) => e
      case Text(t) => t
    }

    ghost predicate Valid()
      reads Obj()
    {
      match this
      case Element(e) => e.Valid()
      case Text(t) => t.Valid()
    }

    predicate IsThunk()
      reads Obj()
    {
      match this
      case Element(e) => e.IsThunk()
      case Text(t) => t.IsThunk()
    }

    /** What the node displays, taken from whichever representation it has. */
    function Display(): (m: Markup)
      reads Obj()
      requires Valid()
      ensures Element? <==> m.ElementMarkup?
      ensures Element? ==> m == ElementMarkup(ElementDisplay(elem))
      ensures Text? ==> m == TextMarkup(TextDisplay(text))
    {
      match this
      case Element(e) => ElementMarkup(ElementDisplay(e))
      case Text(t) => TextMarkup(TextDisplay(t))
    }
  }

  datatype Markup = ElementMarkup(data: ElementData) | TextMarkup(text: string)

  /** Materialising an element keeps its content and runs its deferred effects, once. */
  function MaterializeElement(v: VElement): RealElement {
    RealElement(v.data, v.pendingEffects)
  }

  function MaterializeText(v: VText): RealText {
    RealText(v.text)
  }

  /** What an element shows is what its materialisation would show. */
  function ElementDisplay(e: DomElement): (d: ElementData)
    reads e
    requires e.Valid()
    ensures d == Forced(e.state, MaterializeElement).data
  {
    match e.state
    case Thunk(t) => t.value.data
    case Value(r) => r.data
  }

  /** What a text node shows is what its materialisation would show. */
  function TextDisplay(t: DomText): (s: string)
    reads t
    requires t.Valid()
    ensures s == Forced(t.state, MaterializeText).text
  {
    match t.state
    case Thunk(v) => v.value.text
    case Value(r) => r.text
  }

  /** An operand that may be absent; an absent one counts as a thunk. */
  predicate OperandIsThunk(o: Option<Node>)
    reads if o.Some? then {o.value.Obj()} else {}
  {
    o.None? || o.value.IsThunk()
  }

  function Footprint(ops: seq<Option<Node>>): set<object> {
    set i | 0 <= i < |ops| && ops[i].Some? :: ops[i].value.Obj()
  }

  /** True iff every operand is a thunk; an absent operand is one. */
  function AllThunks(ops: seq<Option<Node>>): (r: bool)
    reads Footprint(ops)
    ensures r <==> forall i :: 0 <= i < |ops| ==> OperandIsThunk(ops[i])
  {
    if ops == [] then true
    else
      assert Footprint(ops[1..]) <= Footprint(ops) by {
        forall o | o in Footprint(ops[1..]) ensures o in Footprint(ops) {
          var i :| 0 <= i < |ops[1..]| && ops[1..][i].Some? && ops[1..][i].value.Obj() == o;
          assert ops[i + 1] == ops[1..][i];
        }
      }
      OperandIsThunk(ops[0]) && AllThunks(ops[1..])
  }

  /** Pointer identity: the same kind of node and the same shared cell. */
  function IsSame(a: Node, b: Node): (r: bool)
    ensures r <==> a == b
    ensures a.Element? && b.Text? ==> !r
  {
    match (a, b)
    case (Element(x), Element(y)) => x == y
    case (Text(x), Text(y)) => x == y
    case _ => false
  }

  /** The edits an element supports, with their node operands. */
  datatype ElementOp =
    | AppendChild(child: Node)
    | InsertChildBefore(child: Node, next: Option<Node>)
    | ReplaceChild(newChild: Node, oldChild: Node)
    | RemoveChild(child: Node)
    | ClearChildren
    | SetAttribute(name: string, attr: Option<string>)
    | AddListener(event: string)
    | StoreChild(child: Node)
    | AddEffect(effect: EffectId)

  /** The node operands of an edit besides the element itself. */
  function OpNodes(op: ElementOp): (ops: seq<Option<Node>>)
    ensures |ops| <= 2
  {
    match op
    case AppendChild(c) => [Some(c)]
    case InsertChildBefore(c, next) => [Some(c), next]
    case ReplaceChild(n, o) => [Some(n), Some(o)]
    case RemoveChild(c) => [Some(c)]
    case StoreChild(c) => [Some(c)]
    case _ => []
  }

  /** What an edit does to an element's content; an attribute value of `None` removes the attribute. */
  function ApplyData(d: ElementData, op: ElementOp): ElementData {
    match op
    case AppendChild(c) => d.(children := Append(d.children, c))
    case InsertChildBefore(c, next) => d.(children := InsertBefore(d.children, c, next))
    case ReplaceChild(n, o) => d.(children := Replace(d.children, n, o))
    case RemoveChild(c) => d.(children := Remove(d.children, c))
    case ClearChildren => d.(children := [])
    case SetAttribute(name, attr) =>
      d.(attributes := if attr.Some? then d.attributes[name := attr.value] else d.attributes - {name})
    case AddListener(event) => d.(listeners := d.listeners + [event])
    case StoreChild(c) => d.(stored := d.stored + [c])
    case AddEffect(_) => d
  }

  /** An edit on a virtual element; an effect is kept until materialisation. Editing then materialising equals materialising then editing live. */
  function ApplyVirt(v: VElement, op: ElementOp): (r: VElement)
    ensures MaterializeElement(r) == ApplyReal(MaterializeElement(v), op)
  {
    VElement(ApplyData(v.data, op), if op.AddEffect? then v.pendingEffects + [op.effect] else v.pendingEffects)
  }

  /** An edit on a live element; an effect runs at once. */
  function ApplyReal(r: RealElement, op: ElementOp): RealElement {
    RealElement(ApplyData(r.data, op), if op.AddEffect? then r.ranEffects + [op.effect] else r.ranEffects)
  }

  ghost predicate OperandsValid(ops: seq<Option<Node>>)
    reads Footprint(ops)
  {
    forall i :: 0 <= i < |ops| && ops[i].Some? ==> ops[i].value.Valid()
  }

  /**
   * `n` now holds exactly the materialisation of its old state: a live node
   * is left as it was, and a thunk becomes its live form, with its pending
   * effects run.
   */
  twostate predicate Materialized(n: Node)
    reads n.Obj()
  {
    && old(n.Valid())
    && match n
       case Element(e) => e.state == Value(Forced(old(e.state), MaterializeElement))
       case Text(t) => t.state == Value(Forced(old(t.state), MaterializeText))
  }

  /** Materialise a node operand, as taking its live DOM node does; what it displays is kept. */
  method PromoteNode(n: Node)
    requires n.Valid()
    modifies n.Obj()
    ensures n.Valid() && !n.IsThunk() && Materialized(n)
    ensures n.Display() == old(n.Display())
  {
    match n
    case Element(e) =>
      var _ := e.ValueWith(MaterializeElement);
    case Text(t) =>
      var _ := t.ValueWith(MaterializeText);
  }

  /**
   * The dispatch rule for an edit `op` on `self`: when every operand was a
   * thunk only the virtual description changed and no operand was touched;
   * otherwise `self` and every operand are live now and the edit was made
   * on the live element. Either way the element displays the edited content.
   */
  twostate predicate Dispatched(self: DomElement, op: ElementOp)
    reads self, Footprint(OpNodes(op))
  {
    var ops := OpNodes(op);
    var operands := [Some(Element(self))] + ops;
    && old(self.Valid()) && old(OperandsValid(ops))
    && self.Valid() && OperandsValid(ops)
    && ElementDisplay(self) == ApplyData(old(ElementDisplay(self)), op)
    && (old(AllThunks(operands)) ==>
          && old(self.IsThunk())
          && self.state == Thunk(Some(ApplyVirt(old(self.GetThunk()), op)))
          && unchanged(Footprint(ops)))
    && (!old(AllThunks(operands)) ==>
          && self.state == Value(ApplyReal(old(Forced(self.state, MaterializeElement)), op))
          && forall i :: 0 <= i < |ops| && ops[i].Some? ==>
               !ops[i].value.IsThunk() && ops[i].value.Display() == old(ops[i].value.Display()) &&
               Materialized(ops[i].value))
  }

  /** Materialise every operand; what each displays is kept. */
  method PromoteOperands(ops: seq<Option<Node>>)
    requires |ops| <= 2 && OperandsValid(ops)
    modifies Footprint(ops)
    ensures OperandsValid(ops)
    ensures forall i :: 0 <= i < |ops| && ops[i].Some? ==>
              !ops[i].value.IsThunk() && ops[i].value.Display() == old(ops[i].value.Display()) &&
              Materialized(ops[i].value)
  {
    if |ops| > 0 && ops[0].Some? {
      assert ops[0].value.Obj() in Footprint(ops);
      PromoteNode(ops[0].value);
    }
    if |ops| > 1 && ops[1].Some? {
      assert ops[1].value.Obj() in Footprint(ops);
      PromoteNode(ops[1].value);
    }
  }

  /** Every operand's cell is among the objects of the operand list with `self` in front. */
  lemma FootprintCons(self: DomElement, ops: seq<Option<Node>>)
    ensures Footprint([Some(Element(self))] + ops) == {self} + Footprint(ops)
  {
    var operands := [Some(Element(self))] + ops;
    assert operands[0] == Some(Element(self));
    forall o | o in Footprint(ops) ensures o in Footprint(operands) {
      var i :| 0 <= i < |ops| && ops[i].Some? && ops[i].value.Obj() == o;
      assert operands[i + 1] == ops[i];
    }
    forall o | o in Footprint(operands) ensures o in {self} + Footprint(ops) {
      var i :| 0 <= i < |operands| && operands[i].Some? && operands[i].value.Obj() == o;
      if i > 0 { assert operands[i] == ops[i - 1]; }
    }
  }

  /** Replace the virtual element of `self`, touching no operand. */
  method SetVirtual(self: DomElement, v: VElement, ops: seq<Option<Node>>)
    requires self.Valid() && self.IsThunk() && self !in Footprint(ops)
    modifies self
    ensures self.Valid() && self.state == Thunk(Some(v))
    ensures unchanged(Footprint(ops))
  {
    self.SetThunk(v);
  }

  /**
   * Materialise `self` and every operand, then store `edit` of the live
   * element; what each operand displays is kept.
   */
  method EditLive(self: DomElement, edit: RealElement -> RealElement, ops: seq<Option<Node>>)
    requires |ops| <= 2 && self.Valid() && OperandsValid(ops) && self !in Footprint(ops)
    modifies {self} + Footprint(ops)
    ensures self.Valid() && OperandsValid(ops)
    ensures self.state == Value(edit(old(Forced(self.state, MaterializeElement))))
    ensures forall i :: 0 <= i < |ops| && ops[i].Some? ==>
              !ops[i].value.IsThunk() && ops[i].value.Display() == old(ops[i].value.Display()) &&
              Materialized(ops[i].value)
  {
    var r := self.ValueWith(MaterializeElement);
    PromoteOperands(ops);
    self.SetValue(edit(r));
  }

  /** The virtual path: every operand is a thunk, so only the virtual element of `self` is edited. */
  method PerformVirtual(self: DomElement, op: ElementOp)
    requires self.Valid() && OperandsValid(OpNodes(op)) && self !in Footprint(OpNodes(op))
    requires AllThunks([Some(Element(self))] + OpNodes(op))
    modifies self
    ensures Dispatched(self, op)
  {
    var ops := OpNodes(op);
    var operands := [Some(Element(self))] + ops;
    assert OperandIsThunk(operands[0]);
    var v := self.GetThunk();
    SetVirtual(self, ApplyVirt(v, op), ops);
  }

  /** The live path: `self` and every operand are materialised and the live element is edited. */
  method PerformLive(self: DomElement, op: ElementOp)
    requires self.Valid() && OperandsValid(OpNodes(op)) && self !in Footprint(OpNodes(op))
    requires !AllThunks([Some(Element(self))] + OpNodes(op))
    modifies {self} + Footprint(OpNodes(op))
    ensures Dispatched(self, op)
  {
    EditLive(self, r => ApplyReal(r, op), OpNodes(op));
  }

  /** Run the edit `op` on `self` on the virtual or the live path, by the dispatch rule. */
  method Perform(self: DomElement, op: ElementOp)
    requires self.Valid() && OperandsValid(OpNodes(op)) && self !in Footprint(OpNodes(op))
    modifies {self} + Footprint(OpNodes(op))
    ensures Dispatched(self, op)
  {
    FootprintCons(self, OpNodes(op));
    if AllThunks([Some(Element(self))] + OpNodes(op)) {
      PerformVirtual(self, op);
    } else {
      PerformLive(self, op);
    }
  }

  /** The objects of at most two operands, listed. */
  lemma FootprintPair(ops: seq<Option<Node>>)
    requires |ops| <= 2
    ensures Footprint(ops) ==
      (if |ops| > 0 && ops[0].Some? then {ops[0].value.Obj()} else {}) +
      (if |ops| > 1 && ops[1].Some? then {ops[1].value.Obj()} else {})
  {
    if |ops| > 0 && ops[0].Some? {
      assert ops[0].value.Obj() in Footprint(ops);
    }
    if |ops| > 1 && ops[1].Some? {
      assert ops[1].value.Obj() in Footprint(ops);
    }
  }

  /** A fresh element: a thunk holding an empty virtual element with no namespace. */
  method NewElement(tag: string) returns (e: DomElement)
    ensures fresh(e) && e.Valid() && e.IsThunk()
    ensures ElementDisplay(e) == ElementData(None, tag, map[], [], [], [])
    ensures e.state == Thunk(Some(VElement(ElementDisplay(e), [])))
  {
    e := new LazyCell<RealElement, VElement>.NewThunk(VElement(ElementData(None, tag, map[], [], [], []), []));
  }

  /** A fresh element in `namespace`. */
  method NewElementInNamespace(namespace: string, tag: string) returns (e: DomElement)
    ensures fresh(e) && e.Valid() && e.IsThunk()
    ensures ElementDisplay(e) == ElementData(Some(namespace), tag, map[], [], [], [])
    ensures e.state == Thunk(Some(VElement(ElementDisplay(e), [])))
  {
    e := new LazyCell<RealElement, VElement>.NewThunk(VElement(ElementData(Some(namespace), tag, map[], [], [], []), []));
  }

  /** A fresh text node: a thunk holding `text`. */
  method NewText(text: string) returns (t: DomText)
    ensures fresh(t) && t.Valid() && t.IsThunk()
    ensures TextDisplay(t) == text && t.state == Thunk(Some(VText(text)))
  {
    t := new LazyCell<RealText, VText>.NewThunk(VText(text));
  }

  /** Creating two elements yields two different handles, which `IsSame` tells apart. */
  method NewElementsAreDistinct(tag: string) returns (a: DomElement, b: DomElement)
    ensures !IsSame(Element(a), Element(b))
    ensures IsSame(Element(a), Element(a))
    ensures a.Valid() && b.Valid() && ElementDisplay(a) == ElementDisplay(b)
  {
    a := NewElement(tag);
    b := NewElement(tag);
  }

  /** Register a listener for `event`. */
  method On(self: DomElement, event: string)
    requires self.Valid()
    modifies self
    ensures Dispatched(self, ElementOp.AddListener(event))
  {
    Perform(self, ElementOp.AddListener(event));
  }

  /** Keep `child` alive with the element without making it a child. */
  method StoreChild(self: DomElement, child: DomElement)
    requires self.Valid() && child.Valid() && child != self
    modifies self, child
    ensures Dispatched(self, ElementOp.StoreChild(Element(child)))
  {
    FootprintPair(OpNodes(ElementOp.StoreChild(Element(child))));
    Perform(self, ElementOp.StoreChild(Element(child)));
  }

  /** The live element, materialising it if needed; what it displays is kept. */
  method EvalDomElement(self: DomElement) returns (r: RealElement)
    requires self.Valid()
    modifies self
    ensures self.Valid() && self.state == Value(r)
    ensures r == Forced(old(self.state), MaterializeElement)
    ensures ElementDisplay(self) == old(ElementDisplay(self))
  {
    r := self.ValueWith(MaterializeElement);
  }

  /** Adopt an existing live element: a thunk is promoted with `hydrate`; a live element is kept. */
  method HydrateElement(self: DomElement, hydrate: VElement -> RealElement) returns (r: RealElement)
    requires self.Valid()
    modifies self
    ensures self.Valid() && self.state == Value(r)
    ensures old(self.IsThunk()) ==> r == hydrate(old(self.GetThunk()))
    ensures !old(self.IsThunk()) ==> r == old(self.state.value)
  {
    r := self.ValueWith(hydrate);
  }

  /** Append `child`, detaching it from where it was. */
  method AppendChildNow(self: DomElement, child: Node)
    requires self.Valid() && child.Valid() && child.Obj() != self
    modifies self, child.Obj()
    ensures Dispatched(self, ElementOp.AppendChild(child))
  {
    FootprintPair(OpNodes(ElementOp.AppendChild(child)));
    Perform(self, ElementOp.AppendChild(child));
  }

  /** Insert `child` before `next`, or at the end when `next` is absent. */
  method InsertChildBefore(self: DomElement, child: Node, next: Option<Node>)
    requires self.Valid() && child.Valid() && child.Obj() != self
    requires next.Some? ==> next.value.Valid() && next.value.Obj() != self
    modifies self, child.Obj(), if next.Some? then {next.value.Obj()} else {}
    ensures Dispatched(self, ElementOp.InsertChildBefore(child, next))
  {
    FootprintPair(OpNodes(ElementOp.InsertChildBefore(child, next)));
    Perform(self, ElementOp.InsertChildBefore(child, next));
  }

  /** As `InsertChildBefore`, with the live insertion made at once. */
  method InsertChildBeforeNow(self: DomElement, child: Node, next: Option<Node>)
    requires self.Valid() && child.Valid() && child.Obj() != self
    requires next.Some? ==> next.value.Valid() && next.value.Obj() != self
    modifies self, child.Obj(), if next.Some? then {next.value.Obj()} else {}
    ensures Dispatched(self, ElementOp.InsertChildBefore(child, next))
  {
    FootprintPair(OpNodes(ElementOp.InsertChildBefore(child, next)));
    Perform(self, ElementOp.InsertChildBefore(child, next));
  }

  /** Put `newChild` in the place of `oldChild`. */
  method ReplaceChild(self: DomElement, newChild: Node, oldChild: Node)
    requires self.Valid() && newChild.Valid() && oldChild.Valid()
    requires newChild.Obj() != self && oldChild.Obj() != self
    modifies self, newChild.Obj(), oldChild.Obj()
    ensures Dispatched(self, ElementOp.ReplaceChild(newChild, oldChild))
  {
    FootprintPair(OpNodes(ElementOp.ReplaceChild(newChild, oldChild)));
    Perform(self, ElementOp.ReplaceChild(newChild, oldChild));
  }

  /** Detach `child`; nothing happens when it is not a child. */
  method RemoveChild(self: DomElement, child: Node)
    requires self.Valid() && child.Valid() && child.Obj() != self
    modifies self, child.Obj()
    ensures Dispatched(self, ElementOp.RemoveChild(child))
  {
    FootprintPair(OpNodes(ElementOp.RemoveChild(child)));
    Perform(self, ElementOp.RemoveChild(child));
  }

  /** As `RemoveChild`, with the live removal made at once. */
  method RemoveChildNow(self: DomElement, child: Node)
    requires self.Valid() && child.Valid() && child.Obj() != self
    modifies self, child.Obj()
    ensures Dispatched(self, ElementOp.RemoveChild(child))
  {
    FootprintPair(OpNodes(ElementOp.RemoveChild(child)));
    Perform(self, ElementOp.RemoveChild(child));
  }

  /** Detach every child. */
  method ClearChildren(self: DomElement)
    requires self.Valid()
    modifies self
    ensures Dispatched(self, ElementOp.ClearChildren)
  {
    Perform(self, ElementOp.ClearChildren);
  }

  /** Set the attribute `name`, or remove it when `value` is `None`. */
  method Attribute(self: DomElement, name: string, value: Option<string>)
    requires self.Valid()
    modifies self
    ensures Dispatched(self, ElementOp.SetAttribute(name, value))
  {
    Perform(self, ElementOp.SetAttribute(name, value));
  }

  /** Register an effect: it runs now on a live element, or on materialisation of a virtual one. */
  method Effect(self: DomElement, effect: EffectId)
    requires self.Valid()
    modifies self
    ensures Dispatched(self, ElementOp.AddEffect(effect))
  {
    Perform(self, ElementOp.AddEffect(effect));
  }

  /** A deferred text change: set the live text of `node` to `text`. */
  datatype TextUpdate = TextUpdate(node: DomText, text: string)

  /** The render queue of deferred updates, in the order they were queued. */
  class UpdateQueue {
    var pending: seq<TextUpdate>

    constructor ()
      ensures pending == []
    {
      pending := [];
    }

    method Queue(u: TextUpdate)
      modifies this
      ensures pending == old(pending) + [u]
    {
      pending := pending + [u];
    }
  }

  /**
   * Change the text: a virtual text node is edited at once; a live one is
   * left alone and the change is queued for the next render.
   */
  method SetText(self: DomText, text: string, queue: UpdateQueue)
    requires self.Valid()
    modifies self, queue
    ensures self.Valid()
    ensures old(self.IsThunk()) ==> self.state == Thunk(Some(VText(text))) && queue.pending == old(queue.pending)
    ensures !old(self.IsThunk()) ==>
              self.state == old(self.state) && queue.pending == old(queue.pending) + [TextUpdate(self, text)]
  {
    if AllThunks([Some(Text(self))]) {
      self.SetThunk(VText(text));
    } else {
      queue.Queue(TextUpdate(self, text));
    }
  }

  /** Run a queued text change: the node is materialised if need be and shows the new text. */
  method RunTextUpdate(u: TextUpdate)
    requires u.node.Valid()
    modifies u.node
    ensures u.node.Valid() && u.node.state == Value(RealText(u.text))
    ensures TextDisplay(u.node) == u.text
  {
    var _ := u.node.ValueWith(MaterializeText);
    u.node.SetValue(RealText(u.text));
  }

  /** Setting a text and then running the update it queued, if any, shows that text on either path. */
  method SetTextAndRender(self: DomText, text: string, queue: UpdateQueue)
    requires self.Valid()
    modifies self, queue
    ensures self.Valid() && TextDisplay(self) == text
    ensures old(self.IsThunk()) <==> self.IsThunk()
  {
    var wasThunk := self.IsThunk();
    SetText(self, text, queue);
    if !wasThunk {
      RunTextUpdate(queue.pending[|queue.pending| - 1]);
    }
  }

  /** Adopt an existing live text node: a thunk is promoted with `hydrate`; a live node is kept. */
  method HydrateText(self: DomText, hydrate: VText -> RealText) returns (r: RealText)
    requires self.Valid()
    modifies self
    ensures self.Valid() && self.state == Value(r)
    ensures old(self.IsThunk()) ==> r == hydrate(old(self.GetThunk()))
    ensures !old(self.IsThunk()) ==> r == old(self.state.value)
  {
    r := self.ValueWith(hydrate);
  }

  /** A live node of either kind. */
  datatype LiveNode = LiveElement(element: RealElement) | LiveText(text: RealText)

  /** Hydrate a node of either kind with the function for its kind. */
  method HydrateNode(n: Node, hydrateElement: VElement -> RealElement, hydrateText: VText -> RealText)
    returns (r: LiveNode)
    requires n.Valid()
    modifies n.Obj()
    ensures n.Valid() && !n.IsThunk()
    ensures n.Element? ==> r.LiveElement? && n.elem.state == Value(r.element)
    ensures n.Text? ==> r.LiveText? && n.text.state == Value(r.text)
    ensures n.Element? && old(n.elem.IsThunk()) ==> r.element == hydrateElement(old(n.elem.GetThunk()))
    ensures n.Element? && !old(n.elem.IsThunk()) ==> r.element == old(n.elem.state.value)
    ensures n.Text? && old(n.text.IsThunk()) ==> r.text == hydrateText(old(n.text.GetThunk()))
    ensures n.Text? && !old(n.text.IsThunk()) ==> r.text == old(n.text.state.value)
  {
    match n
    case Element(e) =>
      var x := HydrateElement(e, hydrateElement);
      r := LiveElement(x);
    case Text(t) =>
      var x := HydrateText(t, hydrateText);
      r := LiveText(x);
  }
}
