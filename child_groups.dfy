/**
 * Per-parent bookkeeping of logical child slots ("groups"). Each slot holds
 * at most one anchor node, the node that later insertions into following
 * slots are placed in front of. The parent's live child list is the
 * `StrictElement` below; the slot operations keep the two consistent.
 */
module Groups {
  import opened Wrappers
  import opened ChildList

  /** Identity of a strict (already materialised) node. */
  type NodeId = nat

  /** The parent element, reduced to its live child list. */
  class StrictElement {
    var children: seq<NodeId>

    predicate Valid()
      reads this
    {
      Distinct(children)
    }

    constructor (initial: seq<NodeId>)
      requires Distinct(initial)
      ensures Valid() && children == initial
    {
      children := initial;
    }

    method AppendChildNow(child: NodeId)
      requires Valid()
      modifies this
      ensures Valid()
      ensures children == Append(old(children), child)
    {
      children := Append(children, child);
    }

    method InsertChildBefore(child: NodeId, next: Option<NodeId>)
      requires Valid()
      modifies this
      ensures Valid()
      ensures children == InsertBefore(old(children), child, next)
    {
      children := InsertBefore(children, child, next);
    }

    method RemoveChild(child: NodeId)
      requires Valid()
      modifies this
      ensures Valid()
      ensures children == Remove(old(children), child)
    {
      children := Remove(children, child);
    }
  }

  /** Index of the first occupied slot at or after `from`. */
  function NextOccupied(slots: seq<Option<NodeId>>, from: nat): (r: Option<nat>)
    decreases |slots| - from
    ensures r.Some? ==> from <= r.value < |slots| && slots[r.value].Some?
    ensures r.Some? ==> forall k :: from <= k < r.value ==> slots[k].None?
    ensures r.None? ==> forall k :: from <= k < |slots| ==> slots[k].None?
  {
    if from >= |slots| then None
    else if slots[from].Some? then Some(from)
    else NextOccupied(slots, from + 1)
  }

  /** The insertion point for slot `index`: the anchor of the first occupied slot after it, if any. */
  function GetNextGroupElem(slots: seq<Option<NodeId>>, index: nat): (r: Option<NodeId>)
    requires index < |slots|
    ensures r.None? <==> forall k :: index < k < |slots| ==> slots[k].None?
    ensures r.Some? ==> exists j :: index < j < |slots| && slots[j] == r &&
                                    forall k :: index < k < j ==> slots[k].None?
  {
    match NextOccupied(slots, index + 1)
    case None => None
    case Some(j) => slots[j]
  }

  /** `c` is the anchor of no slot other than `index`. */
  predicate NotAnchorElsewhere(slots: seq<Option<NodeId>>, index: nat, c: NodeId) {
    forall j :: 0 <= j < |slots| && j != index ==> slots[j] != Some(c)
  }

  /** Every anchor is a live child, and anchors appear among the live children in slot order. */
  predicate SlotsOrdered(slots: seq<Option<NodeId>>, kids: seq<NodeId>) {
    && (forall i :: 0 <= i < |slots| && slots[i].Some? ==> slots[i].value in kids)
    && (forall i, j :: 0 <= i < j < |slots| && slots[i].Some? && slots[j].Some? ==>
          Before(kids, slots[i].value, slots[j].value))
  }

  /** Clearing slot `index` and detaching its anchor keeps the other anchors in order. */
  lemma {:induction false} ClearSlotKeepsOrder(slots: seq<Option<NodeId>>, kids: seq<NodeId>, index: nat)
    requires Distinct(kids) && SlotsOrdered(slots, kids) && index < |slots|
    ensures SlotsOrdered(slots[index := None], if slots[index].Some? then Remove(kids, slots[index].value) else kids)
  {
    if slots[index].Some? {
      var a := slots[index].value;
      var s' := slots[index := None];
      var kids' := Remove(kids, a);
      forall i | 0 <= i < |s'| && s'[i].Some? ensures s'[i].value in kids' {
        assert i < index ==> Before(kids, s'[i].value, a);
        assert i > index ==> Before(kids, a, s'[i].value);
      }
      forall i, j | 0 <= i < j < |s'| && s'[i].Some? && s'[j].Some?
        ensures Before(kids', s'[i].value, s'[j].value)
      {
        assert i < index ==> Before(kids, s'[i].value, a);
        assert i > index ==> Before(kids, a, s'[i].value);
        assert j < index ==> Before(kids, s'[j].value, a);
        assert j > index ==> Before(kids, a, s'[j].value);
        RemoveKeepsOrder(kids, a, s'[i].value, s'[j].value);
      }
    }
  }

  /** After filling slot `index`, an anchor of an earlier slot still comes before the new node. */
  lemma FillSlotEarlier(slots: seq<Option<NodeId>>, kids: seq<NodeId>, index: nat, c: NodeId, i: nat)
    requires Distinct(kids) && SlotsOrdered(slots, kids) && index < |slots|
    requires slots[index].None? && NotAnchorElsewhere(slots, index, c)
    requires i < index && slots[i].Some?
    ensures Before(InsertBefore(kids, c, GetNextGroupElem(slots, index)), slots[i].value, c)
  {
    var y := slots[i].value;
    var n := NextOccupied(slots, index + 1);
    if n.Some? {
      var m := slots[n.value].value;
      assert Before(kids, y, m);
      InsertBeforePlaces(kids, c, m, y);
    } else {
      InsertAtEndPlaces(kids, c, GetNextGroupElem(slots, index), y);
    }
  }

  /** Inserting `c` in front of `m` puts it before `m` and before everything `m` was before. */
  lemma InsertInFrontPlaces(kids: seq<NodeId>, c: NodeId, m: NodeId, z: NodeId)
    requires Distinct(kids) && m in kids && m != c && z in kids && z != c
    requires m == z || Before(kids, m, z)
    ensures Before(InsertBefore(kids, c, Some(m)), c, z)
  {
    InsertBeforePlaces(kids, c, m, m);
    if m != z {
      InsertBeforeKeepsOrder(kids, c, Some(m), m, z);
    }
  }

  /** After filling slot `index`, the new node comes before the anchor of every later slot. */
  lemma FillSlotLater(slots: seq<Option<NodeId>>, kids: seq<NodeId>, index: nat, c: NodeId, j: nat)
    requires Distinct(kids) && SlotsOrdered(slots, kids) && index < |slots|
    requires slots[index].None? && NotAnchorElsewhere(slots, index, c)
    requires index < j < |slots| && slots[j].Some?
    ensures Before(InsertBefore(kids, c, GetNextGroupElem(slots, index)), c, slots[j].value)
  {
    var z := slots[j].value;
    var n := NextOccupied(slots, index + 1);
    assert n.Some? && n.value <= j;
    var m := slots[n.value].value;
    assert GetNextGroupElem(slots, index) == Some(m);
    assert m in kids && z in kids;
    assert m != c by { assert slots[n.value] != Some(c); }
    assert z != c by { assert slots[j] != Some(c); }
    assert m == z || Before(kids, m, z);
    InsertInFrontPlaces(kids, c, m, z);
  }

  /** Filling the empty slot `index` with a node that anchors no other slot, inserted in front of the next anchor, keeps all anchors in order. */
  lemma {:induction false} FillSlotKeepsOrder(slots: seq<Option<NodeId>>, kids: seq<NodeId>, index: nat, c: NodeId)
    requires Distinct(kids) && SlotsOrdered(slots, kids) && index < |slots|
    requires slots[index].None? && NotAnchorElsewhere(slots, index, c)
    ensures SlotsOrdered(slots[index := Some(c)], InsertBefore(kids, c, GetNextGroupElem(slots, index)))
  {
    var s' := slots[index := Some(c)];
    var kids' := InsertBefore(kids, c, GetNextGroupElem(slots, index));
    forall i | 0 <= i < |s'| && s'[i].Some? ensures s'[i].value in kids' {
      if i != index {
        assert s'[i] == slots[i];
      }
    }
    forall i, j | 0 <= i < j < |s'| && s'[i].Some? && s'[j].Some?
      ensures Before(kids', s'[i].value, s'[j].value)
    {
      FillSlotPair(slots, kids, index, c, i, j);
    }
  }

  /** One pair of occupied slots after slot `index` is filled with `c`. */
  lemma FillSlotPair(slots: seq<Option<NodeId>>, kids: seq<NodeId>, index: nat, c: NodeId, i: nat, j: nat)
    requires Distinct(kids) && SlotsOrdered(slots, kids) && index < |slots|
    requires slots[index].None? && NotAnchorElsewhere(slots, index, c)
    requires i < j < |slots|
    requires slots[index := Some(c)][i].Some? && slots[index := Some(c)][j].Some?
    ensures Before(InsertBefore(kids, c, GetNextGroupElem(slots, index)),
                   slots[index := Some(c)][i].value, slots[index := Some(c)][j].value)
  {
    if i != index && j != index {
      InsertBeforeKeepsOrder(kids, c, GetNextGroupElem(slots, index), slots[i].value, slots[j].value);
    } else if j == index {
      FillSlotEarlier(slots, kids, index, c, i);
    } else {
      FillSlotLater(slots, kids, index, c, j);
    }
  }

  /** Detaching the old anchor of slot `index` and filling the slot with `c` in front of the next anchor keeps all anchors in order. */
  lemma UpsertKeepsOrder(slots: seq<Option<NodeId>>, kids: seq<NodeId>, index: nat, c: NodeId)
    requires Distinct(kids) && SlotsOrdered(slots, kids) && index < |slots|
    requires NotAnchorElsewhere(slots, index, c)
    ensures SlotsOrdered(slots[index := Some(c)],
              InsertBefore(if slots[index].Some? then Remove(kids, slots[index].value) else kids,
                           c, GetNextGroupElem(slots, index)))
  {
    var cleared := slots[index := None];
    var kids' := if slots[index].Some? then Remove(kids, slots[index].value) else kids;
    ClearSlotKeepsOrder(slots, kids, index);
    NextGroupElemIgnoresSlot(slots, index, None);
    forall j | 0 <= j < |cleared| && j != index ensures cleared[j] != Some(c) {
      assert cleared[j] == slots[j];
    }
    FillSlotKeepsOrder(cleared, kids', index, c);
    RefillSlot(slots, index, c);
  }

  /**
   * Emptying a slot and then filling it is filling it. Kept as a lemma: stated
   * inline among the ordering facts, this equality is slow to prove.
   */
  lemma RefillSlot(slots: seq<Option<NodeId>>, index: nat, c: NodeId)
    requires index < |slots|
    ensures slots[index := None][index := Some(c)] == slots[index := Some(c)]
  {
  }

  /** Inserting a node that anchors no slot keeps all anchors live and in slot order. */
  lemma InsertKeepsOrder(slots: seq<Option<NodeId>>, kids: seq<NodeId>, c: NodeId, next: Option<NodeId>)
    requires Distinct(kids) && SlotsOrdered(slots, kids) && Some(c) !in slots
    ensures SlotsOrdered(slots, InsertBefore(kids, c, next))
  {
    var kids' := InsertBefore(kids, c, next);
    forall i, j | 0 <= i < j < |slots| && slots[i].Some? && slots[j].Some?
      ensures Before(kids', slots[i].value, slots[j].value)
    {
      InsertBeforeKeepsOrder(kids, c, next, slots[i].value, slots[j].value);
    }
  }

  /** Appending a node that anchors no slot, and recording it in a new trailing slot or not at all, keeps all anchors in order. */
  lemma {:induction false} AppendKeepsOrder(slots: seq<Option<NodeId>>, kids: seq<NodeId>, c: NodeId, push: bool)
    requires Distinct(kids) && SlotsOrdered(slots, kids) && Some(c) !in slots
    ensures SlotsOrdered(if push then slots + [Some(c)] else slots, Append(kids, c))
  {
    var s' := if push then slots + [Some(c)] else slots;
    var kids' := Append(kids, c);
    forall i | 0 <= i < |s'| && s'[i].Some? ensures s'[i].value in kids' {
      if i < |slots| {
        assert s'[i] == slots[i];
      }
    }
    forall i, j | 0 <= i < j < |s'| && s'[i].Some? && s'[j].Some?
      ensures Before(kids', s'[i].value, s'[j].value)
    {
      assert s'[i] == slots[i];
      if j < |slots| {
        assert s'[j] == slots[j];
        InsertBeforeKeepsOrder(kids, c, None, s'[i].value, s'[j].value);
      } else {
        InsertAtEndPlaces(kids, c, None, s'[i].value);
      }
    }
  }

  /** Groups of children of one parent: a slot per logical group, each optionally holding its anchor. */
  class ChildGroups {
    const parent: StrictElement
    var children: seq<Option<NodeId>>
    /** The most recent group was handed out by `NewGroup` and can still change. */
    var lastIsDynamic: bool
    var groupCount: nat

    ghost predicate Valid()
      reads this, parent
    {
      parent.Valid()
    }

    /** The anchors are live children of the parent, in slot order. */
    ghost predicate Ordered()
      reads this, parent
    {
      SlotsOrdered(children, parent.children)
    }

    constructor (parent: StrictElement)
      requires parent.Valid()
      ensures Valid() && Ordered()
      ensures this.parent == parent
      ensures children == [] && !lastIsDynamic && groupCount == 0
    {
      this.parent := parent;
      children := [];
      lastIsDynamic := false;
      groupCount := 0;
    }

    function IsSingleGroup(): (r: bool)
      reads this
      ensures r <==> groupCount == 1
    {
      groupCount == 1
    }

    /** Reserve an empty slot at the end and hand out its index. */
    method NewGroup() returns (index: nat)
      modifies this
      ensures index == |old(children)|
      ensures children == old(children) + [None]
      ensures groupCount == old(groupCount) + 1 && lastIsDynamic
      ensures old(Ordered()) ==> Ordered()
    {
      groupCount := groupCount + 1;
      lastIsDynamic := true;
      index := |children|;
      children := children + [None];
    }

    /** Append `child` to the parent now; it gets a slot only when the previous group is dynamic, so that group can insert in front of it. */
    method AppendNewGroupSync(child: NodeId)
      requires Valid()
      modifies this, parent
      ensures Valid()
      ensures children == if old(lastIsDynamic) then old(children) + [Some(child)] else old(children)
      ensures groupCount == old(groupCount) + 1 && !lastIsDynamic
      ensures parent.children == Append(old(parent.children), child)
      ensures old(Ordered()) && Some(child) !in old(children) ==> Ordered()
    {
      ghost var wasOrdered := Ordered();
      ghost var push := lastIsDynamic;
      if lastIsDynamic {
        children := children + [Some(child)];
      }
      groupCount := groupCount + 1;
      parent.AppendChildNow(child);
      lastIsDynamic := false;
      if wasOrdered && Some(child) !in old(children) {
        AppendKeepsOrder(old(children), old(parent.children), child, push);
      }
    }

    /** Insert `child` into the empty slot `index`; a filled slot is a caller error. */
    method InsertOnlyChild(index: nat, child: NodeId)
      requires Valid() && index < |children| && children[index].None?
      modifies this, parent
      ensures Valid()
      ensures children == old(children)[index := Some(child)]
      ensures parent.children == InsertBefore(old(parent.children), child, GetNextGroupElem(old(children), index))
      ensures lastIsDynamic == old(lastIsDynamic) && groupCount == old(groupCount)
      ensures old(Ordered()) && NotAnchorElsewhere(old(children), index, child) ==> Ordered()
    {
      var existed := UpsertOnlyChild(index, child);
      assert !existed;
    }

    /** Make `child` the anchor of slot `index`, detaching the previous anchor; returns whether there was one. */
    method UpsertOnlyChild(index: nat, child: NodeId) returns (existed: bool)
      requires Valid() && index < |children|
      modifies this, parent
      ensures Valid()
      ensures existed == old(children[index]).Some?
      ensures children == old(children)[index := Some(child)]
      ensures parent.children == InsertBefore(
                if existed then Remove(old(parent.children), old(children[index]).value) else old(parent.children),
                child, GetNextGroupElem(old(children), index))
      ensures existed && old(children[index]).value != child ==> old(children[index]).value !in parent.children
      ensures child in parent.children
      ensures lastIsDynamic == old(lastIsDynamic) && groupCount == old(groupCount)
      ensures old(Ordered()) && NotAnchorElsewhere(old(children), index, child) ==> Ordered()
    {
      ghost var wasOrdered := Ordered();
      var previous := children[index];
      children := children[index := Some(child)];
      existed := previous.Some?;
      if existed {
        parent.RemoveChild(previous.value);
      }
      NextGroupElemIgnoresSlot(old(children), index, Some(child));
      InsertLastChild(index, child);
      if wasOrdered && NotAnchorElsewhere(old(children), index, child) {
        UpsertKeepsOrder(old(children), old(parent.children), index, child);
      }
    }

    /** Insert `child` into the parent in front of the anchor of the next occupied slot after `index`, or at the end. */
    method InsertLastChild(index: nat, child: NodeId)
      requires Valid() && index < |children|
      modifies parent
      ensures Valid()
      ensures parent.children == InsertBefore(old(parent.children), child, GetNextGroupElem(children, index))
      ensures old(Ordered()) && Some(child) !in children ==> Ordered()
      ensures old(Ordered()) && children[index].None? && NotAnchorElsewhere(children, index, child) ==>
                SlotsOrdered(children[index := Some(child)], parent.children)
    {
      ghost var wasOrdered := Ordered();
      parent.InsertChildBefore(child, GetNextGroupElem(children, index));
      if wasOrdered && Some(child) !in children {
        InsertKeepsOrder(children, old(parent.children), child, GetNextGroupElem(children, index));
      }
      if wasOrdered && children[index].None? && NotAnchorElsewhere(children, index, child) {
        FillSlotKeepsOrder(children, old(parent.children), index, child);
      }
    }

    /** Empty slot `index`, detaching its anchor if it had one; the slot itself stays. */
    method RemoveChild(index: nat)
      requires Valid() && index < |children|
      modifies this, parent
      ensures Valid()
      ensures children == old(children)[index := None]
      ensures parent.children == if old(children[index]).Some? then Remove(old(parent.children), old(children[index]).value)
                                 else old(parent.children)
      ensures lastIsDynamic == old(lastIsDynamic) && groupCount == old(groupCount)
      ensures old(Ordered()) ==> Ordered()
    {
      ghost var wasOrdered := Ordered();
      var previous := children[index];
      children := children[index := None];
      if previous.Some? {
        parent.RemoveChild(previous.value);
      }
      if wasOrdered {
        ClearSlotKeepsOrder(old(children), old(parent.children), index);
      }
    }

    /** Record `child` as the anchor of slot `index` without touching the parent. */
    method SetFirstChild(index: nat, child: NodeId)
      requires index < |children|
      modifies this
      ensures children == old(children)[index := Some(child)]
      ensures lastIsDynamic == old(lastIsDynamic) && groupCount == old(groupCount)
      ensures Ordered() <==> old(SlotsOrdered(children[index := Some(child)], parent.children))
    {
      children := children[index := Some(child)];
    }

    /** Forget the anchor of slot `index` without touching the parent. */
    method ClearFirstChild(index: nat)
      requires index < |children|
      modifies this
      ensures children == old(children)[index := None]
      ensures lastIsDynamic == old(lastIsDynamic) && groupCount == old(groupCount)
      ensures old(Ordered()) ==> Ordered()
    {
      children := children[index := None];
    }
  }

  /** Two synchronous appends in a row push at most one slot: the first leaves the last group static. */
  method AppendTwoGroupsSync(groups: ChildGroups, a: NodeId, b: NodeId)
    requires groups.Valid()
    modifies groups, groups.parent
    ensures groups.Valid()
    ensures |groups.children| <= |old(groups.children)| + 1
    ensures groups.groupCount == old(groups.groupCount) + 2 && !groups.lastIsDynamic
  {
    groups.AppendNewGroupSync(a);
    groups.AppendNewGroupSync(b);
  }

  /** Slots `[A, none, B]`: the insertion point for slot 0 is `B`, skipping the empty slot; slot 2 has none. */
  lemma GetNextGroupElemExample(a: NodeId, b: NodeId)
    ensures GetNextGroupElem([Some(a), None, Some(b)], 0) == Some(b)
    ensures GetNextGroupElem([Some(a), None, Some(b)], 1) == Some(b)
    ensures GetNextGroupElem([Some(a), None, Some(b)], 2) == None
  {
    var slots := [Some(a), None, Some(b)];
    assert NextOccupied(slots, 2) == Some(2);
    assert NextOccupied(slots, 1) == Some(2);
  }

  /** The insertion point for slot `index` does not depend on what slot `index` holds. */
  lemma NextGroupElemIgnoresSlot(slots: seq<Option<NodeId>>, index: nat, v: Option<NodeId>)
    requires index < |slots|
    ensures GetNextGroupElem(slots[index := v], index) == GetNextGroupElem(slots, index)
  {
    assert slots[index := v][index + 1..] == slots[index + 1..];
    NextOccupiedSuffix(slots[index := v], slots, index + 1);
  }

  /** The next occupied slot depends only on the slots from `from` on. */
  lemma {:induction false} NextOccupiedSuffix(a: seq<Option<NodeId>>, b: seq<Option<NodeId>>, from: nat)
    requires from <= |a| == |b| && a[from..] == b[from..]
    ensures NextOccupied(a, from) == NextOccupied(b, from)
    decreases |a| - from
  {
    if from < |a| {
      assert a[from] == a[from..][0] == b[from..][0] == b[from];
      assert a[from + 1..] == a[from..][1..];
      assert b[from + 1..] == b[from..][1..];
      NextOccupiedSuffix(a, b, from + 1);
    }
  }
}
