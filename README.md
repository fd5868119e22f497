# silkenweb: lazy DOM nodes, child groups and the `css_classes!` macro

This project models three parts of silkenweb, a Rust library for building
reactive web user interfaces, and proves properties of each.

**Lazy DOM nodes** (`dom.dfy`). A `DomElement` or `DomText` handle is a
shared, mutable cell (`Rc<RefCell<Lazy<..>>>`). The cell holds one of two
things:

- a *thunk*: a virtual element or text that has not been materialised yet;
- a *value*: a live node.

Every element operation first asks `all_thunks` whether the element and
all of its node operands are still thunks. An absent optional operand
counts as a thunk.

- If they all are, the operation edits only the virtual description.
- If not, it materialises the element and every operand, then edits the
  live element.

Materialising (`value_with`) runs the promotion function at most once and
never demotes a cell. The model proves this. It also proves that either
path leaves the element displaying the same edited content. `set_text` on
a live text node queues the change for the next render. Identity
(`is_same`) is pointer equality of the handles.

**Child groups** (`child_groups.dfy`). `ChildGroups` keeps one slot per
logical group of children of a parent element. A slot holds at most one
anchor node. To insert into a slot, the node is placed in front of the
anchor of the next occupied slot after it, or appended when there is none.
The parent's live child list is a sequence (`child_list.dfy`):

- inserting or appending a node first detaches it, as in the DOM;
- inserting before a reference that is not a child appends, where the DOM
  throws `NotFoundError`;
- removing a node that is not a child changes nothing, where the DOM throws
  `NotFoundError`;
- replacing a node that is not a child changes nothing, where the DOM throws
  `NotFoundError`.

The last three are total rules the model chooses for cases the DOM rejects.

The proved invariant is `Ordered`: every anchor is a live child, and the
anchors appear among the children in slot order. These operations preserve
it under the conditions their callers meet: `new_group`,
`append_new_group_sync`, `insert_only_child`, `upsert_only_child`,
`remove_child` and `clear_first_child`. `insert_last_child` preserves it
when the child anchors no slot. `insert_last_child` into an empty slot
followed by `set_first_child` of the same child also preserves it: the
first establishes the order with the child recorded, and the second keeps
`Ordered` exactly when that holds.

**`css_classes!`** (`css_input.dfy`, `css_classes.dfy`). The macro's
argument parser accepts two forms:

- a single string literal, which is the path;
- a comma-separated list of `keyword: value` parameters.

For the list form:

- each keyword may appear once, except that an empty `exclude_prefixes`
  list does not count as given;
- parameters must be separated by commas;
- `path` is mandatory.

The parser is modelled twice: as a function over an abstract token list,
and as the source's loop. The two are proved equal. A renderer turns
parameters into tokens, and the parser is proved to read any rendered
parameter list back as what the list means.

The classes of the style sheet are then filtered:

- a class is kept when it matches an include prefix (if an include list
  was given) and no exclude prefix;
- when a `prefix` parameter is given, it is stripped from each kept class,
  and classes without it are dropped.

Each remaining identifier becomes an upper-case constant name, with every
non-alphanumeric character turned into `_`. An identifier that does not
start with a letter aborts the macro.

## Model

| member | source | states |
|---|---|---|
| Dom.LazyCell.NewThunk | crates/dom/src/element/dom.rs:357-359 | a new cell is a thunk holding the given description, not yet promoted |
| Dom.LazyCell.NewValue | crates/dom/src/element/dom.rs:353-355 | a new cell holds the given live value |
| Dom.LazyCell.ValueWith | crates/dom/src/element/dom.rs:367-380 | afterwards the cell is a value and that value is returned; a value cell returns its value and runs nothing; a thunk cell returns `f` of its thunk, and the promotion count goes up by exactly one |
| Dom.LazyCell.IsThunk | crates/dom/src/element/dom.rs:390-396 | a cell that still reports a thunk holds its description and has never been promoted |
| Dom.LazyCell.GetThunk | crates/dom/src/element/dom.rs:382-387 | returns the cell's virtual description; only a thunk has one (the source panics otherwise) |
| Dom.LazyCell.SetThunk | crates/dom/src/element/dom.rs:156-158 | writing through the virtual view leaves the cell a thunk holding the new description, with the promotion count unchanged |
| Dom.LazyCell.SetValue | crates/dom/src/element/dom.rs:152-154 | writing through the live view leaves the cell a value holding the new node |
| Dom.PromoteTwice | crates/dom/src/element/dom.rs:367-380 | promoting twice yields the same value both times and runs a promotion function at most once in the cell's life: a cell is never demoted |
| Dom.OperandIsThunk | crates/dom/src/element/dom.rs:437-445 | an absent operand counts as a thunk; a present one is a thunk iff its node is |
| Dom.Node.IsThunk | crates/dom/src/element/dom.rs:296-303 | a node is a thunk iff the element or text cell it holds is |
| Dom.MaterializeElement | crates/dom/src/element/dom.rs:363-365 | materialising a virtual element keeps its content and runs its pending effects in order |
| Dom.MaterializeText | crates/dom/src/element/dom.rs:363-365 | materialising a virtual text keeps its text |
| Dom.ElementDisplay | crates/dom/src/element/dom.rs:161-169 | an element shows its virtual form while a thunk and its live form otherwise, which is what its materialisation would show |
| Dom.TextDisplay | crates/dom/src/element/dom.rs:211-219 | a text shows its virtual form while a thunk and its live form otherwise, which is what its materialisation would show |
| Dom.Node.Display | crates/dom/src/element/dom.rs:248-255 | an element node displays as its element's markup (`ElementDisplay`), a text node as its text (`TextDisplay`), so the markup has the node's kind |
| Dom.AllThunks | crates/dom/src/element/dom.rs:409-411 | true iff every operand is a thunk, where an absent operand counts as a thunk (lines 437-445) |
| Dom.IsSame | crates/dom/src/element/dom.rs:226-233 | true iff both nodes are the same handle; an element is never the same as a text |
| Dom.ApplyVirt | crates/dom/src/element/dom.rs:152-158 | editing the virtual element and then materialising it equals materialising it and then editing the live element |
| Dom.PromoteNode | crates/dom/src/element/dom.rs:152-154 | `real()` forces the cell, as `dom_node` does for an element and a text node (lines 316-320 and 328-332); afterwards the node holds exactly its materialised old state: a live node is left as it was, and a thunk becomes its live form with its pending effects run; what it displays (`Display`, lines 211-221 and 248-255) is unchanged |
| Dom.PromoteOperands | crates/dom/src/element/dom.rs:152-158 | every operand given holds exactly its materialised old state afterwards (a live one untouched) and displays what it did before |
| Dom.SetVirtual | crates/dom/src/element/dom.rs:156-158 | the virtual path replaces the element's description and touches no operand |
| Dom.EditLive | crates/dom/src/element/dom.rs:152-158 | the live path stores the edited live element (materialised first if needed), and each operand holds exactly its materialised old state, with its display unchanged |
| Dom.PerformVirtual | crates/dom/src/element/dom.rs:67-73 | when all operands are thunks, only the virtual description changes, and it changes by the edit |
| Dom.PerformLive | crates/dom/src/element/dom.rs:67-73 | when some operand is live, the element and all operands end up live and the live element carries the edit |
| Dom.Perform | crates/dom/src/element/dom.rs:39-150 | the dispatch rule (`Dispatched`): all thunks means a virtual edit with operands untouched; otherwise everything is materialised (each operand holds exactly its materialised old state) and the live element is edited; either way the element displays the edited content |
| Dom.NewElement | crates/dom/src/element/dom.rs:23-25 | a fresh handle holding an empty virtual element with the given tag and no namespace |
| Dom.NewElementInNamespace | crates/dom/src/element/dom.rs:27-31 | a fresh handle holding an empty virtual element with the given namespace and tag |
| Dom.NewText | crates/dom/src/element/dom.rs:175-177 | a fresh handle holding a virtual text with the given text |
| Dom.NewElementsAreDistinct | crates/dom/src/element/dom.rs:226-233 | two elements created alike display the same content but are not `is_same`; a handle is `is_same` as itself |
| Dom.On | crates/dom/src/element/dom.rs:39-45 | adds the listener by the dispatch rule |
| Dom.StoreChild | crates/dom/src/element/dom.rs:47-53 | stores the child by the dispatch rule, with the child as an operand |
| Dom.EvalDomElement | crates/dom/src/element/dom.rs:55-57 | materialises the element if needed and returns the live element; what it displays is unchanged |
| Dom.HydrateElement | crates/dom/src/element/dom.rs:59-65 | a thunk is promoted with the hydration function; a live element is returned as it is |
| Dom.AppendChildNow | crates/dom/src/element/dom.rs:67-73 | appends the child (detaching it first) by the dispatch rule |
| Dom.InsertChildBefore | crates/dom/src/element/dom.rs:75-86 | inserts the child before `next`, or at the end, by the dispatch rule; an absent `next` counts as a thunk |
| Dom.InsertChildBeforeNow | crates/dom/src/element/dom.rs:88-98 | the same edit as `InsertChildBefore` |
| Dom.ReplaceChild | crates/dom/src/element/dom.rs:100-110 | replaces the old child with the new one by the dispatch rule |
| Dom.RemoveChild | crates/dom/src/element/dom.rs:112-118 | detaches the child by the dispatch rule |
| Dom.RemoveChildNow | crates/dom/src/element/dom.rs:120-126 | the same edit as `RemoveChild` |
| Dom.ClearChildren | crates/dom/src/element/dom.rs:128-134 | empties the child list by the dispatch rule |
| Dom.Attribute | crates/dom/src/element/dom.rs:136-142 | sets the attribute, or removes it when the value is absent, by the dispatch rule |
| Dom.Effect | crates/dom/src/element/dom.rs:144-150 | a live element runs the effect now; a virtual one keeps it until it is materialised |
| Dom.UpdateQueue.constructor | crates/dom/src/element/dom.rs:185 | the render queue starts empty |
| Dom.UpdateQueue.Queue | crates/dom/src/element/dom.rs:185 | queueing appends the update at the end |
| Dom.SetText | crates/dom/src/element/dom.rs:179-187 | a virtual text is changed at once and nothing is queued; a live text is left as it is and exactly one update is queued for it |
| Dom.RunTextUpdate | crates/dom/src/element/dom.rs:185 | running a queued update leaves the node live and showing the new text |
| Dom.SetTextAndRender | crates/dom/src/element/dom.rs:179-187 | on either path, after the queued update (if any) has run, the node shows the new text and is still virtual iff it was |
| Dom.HydrateText | crates/dom/src/element/dom.rs:189-200 | a thunk is promoted with the hydration function; a live text is returned as it is |
| Dom.HydrateNode | crates/dom/src/element/dom.rs:236-245 | returns a live node of the node's kind; a thunk element is promoted with the element hydration function and a thunk text with the text one; a node that was already live is returned unchanged |
| ChildList.Remove | crates/dom/src/element/child_groups.rs:76-80 | removing a non-child changes nothing; otherwise the list is one shorter, has exactly the other nodes, and has no repeats if it had none |
| ChildList.InsertBefore | crates/dom/src/element/child_groups.rs:71-74 | afterwards the node is a child, exactly the old children plus it are present, and repeats are not introduced |
| ChildList.Replace | crates/dom/src/element/dom.rs:100-110 | the old node is gone, the new one is present and every other child is kept; nothing changes when the old one is not a child or is the new one (position: ReplacePlaces, order: ReplaceKeepsOrder) |
| ChildList.Append | crates/dom/src/element/child_groups.rs:45-54 | the node becomes the last child, every old child is kept, and repeats are not introduced |
| ChildList.RemoveIndex | crates/dom/src/element/child_groups.rs:76-80 | removing a node moves each later child one place to the front and leaves earlier ones in place |
| ChildList.RemoveKeepsOrder | crates/dom/src/element/child_groups.rs:76-80 | removing a node keeps the relative order of every other pair (both directions) |
| ChildList.InsertBeforeKeepsOrder | crates/dom/src/element/child_groups.rs:71-74 | inserting a node keeps the relative order of every other pair (both directions) |
| ChildList.InsertBeforePlaces | crates/dom/src/element/child_groups.rs:71-74 | a node inserted before child `m` lands right in front of `m`: after exactly the children that were before `m` |
| ChildList.ReplaceKeepsOrder | crates/dom/src/element/dom.rs:100-110 | replacing a child keeps the relative order of every pair of other nodes (both directions) |
| ChildList.ReplacePlaces | crates/dom/src/element/dom.rs:100-110 | the new node takes the old one's place: a node comes before it afterwards iff that node came before the old one |
| ChildList.InsertAtEndPlaces | crates/dom/src/element/child_groups.rs:71-74 | a node inserted with no reference, or before a non-child, ends up after every other child |
| Groups.StrictElement.constructor | crates/dom/src/element/child_groups.rs:9 | the parent's children are the given list, without repeats |
| Groups.StrictElement.AppendChildNow | crates/dom/src/element/child_groups.rs:51 | the parent's children are appended to and stay without repeats |
| Groups.StrictElement.InsertChildBefore | crates/dom/src/element/child_groups.rs:72-73 | the parent's children get the insertion and stay without repeats |
| Groups.StrictElement.RemoveChild | crates/dom/src/element/child_groups.rs:78 | the parent's children lose the node and stay without repeats |
| Groups.NextOccupied | crates/dom/src/element/child_groups.rs:40-42 | the first occupied slot at or after `from`, with every slot between empty; none iff all later slots are empty |
| Groups.GetNextGroupElem | crates/dom/src/element/child_groups.rs:40-42 | none iff every slot after `index` is empty; otherwise the anchor of the first occupied slot after `index` |
| Groups.NextGroupElemIgnoresSlot | crates/dom/src/element/child_groups.rs:40-42 | the insertion point for slot `index` does not depend on what slot `index` holds |
| Groups.NextOccupiedSuffix | crates/dom/src/element/child_groups.rs:40-42 | the next occupied slot depends only on the slots from `from` on |
| Groups.GetNextGroupElemExample | crates/dom/src/element/child_groups.rs:40-42 | with slots `[A, none, B]` the insertion point for slots 0 and 1 is `B` and slot 2 has none |
| Groups.ClearSlotKeepsOrder | crates/dom/src/element/child_groups.rs:76-80 | emptying a slot and detaching its anchor keeps the other anchors live and in slot order |
| Groups.FillSlotEarlier | crates/dom/src/element/child_groups.rs:61-74 | after filling a slot, every earlier anchor comes before the new node |
| Groups.InsertInFrontPlaces | crates/dom/src/element/child_groups.rs:71-74 | a node inserted in front of `m` comes before `m` and before every child after `m` |
| Groups.FillSlotLater | crates/dom/src/element/child_groups.rs:61-74 | after filling a slot, the new node comes before every later anchor |
| Groups.FillSlotPair | crates/dom/src/element/child_groups.rs:61-74 | after filling a slot, any two anchors are in slot order |
| Groups.FillSlotKeepsOrder | crates/dom/src/element/child_groups.rs:61-74 | filling an empty slot with a node that anchors no other slot keeps all anchors live and in slot order |
| Groups.UpsertKeepsOrder | crates/dom/src/element/child_groups.rs:61-69 | detaching a slot's old anchor and putting a node that anchors no other slot in front of the next anchor keeps the anchors in order |
| Groups.InsertKeepsOrder | crates/dom/src/element/child_groups.rs:71-74 | inserting a node that anchors no slot, anywhere, keeps the anchors live and in order |
| Groups.AppendKeepsOrder | crates/dom/src/element/child_groups.rs:45-54 | appending a node that anchors no slot, and recording it in a new last slot or not at all, keeps the anchors in order |
| Groups.ChildGroups.constructor | crates/dom/src/element/child_groups.rs:19-26 | no slots, last group static, no groups counted; the groups are valid and `Ordered` from the start |
| Groups.ChildGroups.IsSingleGroup | crates/dom/src/element/child_groups.rs:28-30 | true iff exactly one group was created |
| Groups.ChildGroups.NewGroup | crates/dom/src/element/child_groups.rs:32-38 | returns the index of a new empty last slot, counts the group, marks the last group dynamic, and keeps `Ordered` |
| Groups.ChildGroups.AppendNewGroupSync | crates/dom/src/element/child_groups.rs:45-54 | appends the child to the parent; it gets a slot only when the last group was dynamic; counts the group; the last group is static afterwards; `Ordered` is kept |
| Groups.ChildGroups.InsertOnlyChild | crates/dom/src/element/child_groups.rs:56-58 | the empty slot gets the child, which is inserted in front of the next group's anchor; `Ordered` is kept |
| Groups.ChildGroups.UpsertOnlyChild | crates/dom/src/element/child_groups.rs:61-69 | returns whether the slot had an anchor; that old anchor is detached; the child is inserted in front of the next group's anchor and recorded; `Ordered` is kept |
| Groups.ChildGroups.InsertLastChild | crates/dom/src/element/child_groups.rs:71-74 | inserts the child in front of the anchor of the next occupied slot, or at the end; slots unchanged; `Ordered` is kept when the child anchors no slot, and for an empty slot the anchors are in order with the child recorded in it |
| Groups.ChildGroups.RemoveChild | crates/dom/src/element/child_groups.rs:76-80 | empties the slot and detaches its old anchor if there was one; `Ordered` is kept |
| Groups.ChildGroups.SetFirstChild | crates/dom/src/element/child_groups.rs:82-84 | records the anchor without touching the parent; `Ordered` holds afterwards iff the anchors were in order with the child recorded |
| Groups.ChildGroups.ClearFirstChild | crates/dom/src/element/child_groups.rs:86-88 | forgets the anchor without touching the parent; `Ordered` is kept |
| Groups.AppendTwoGroupsSync | crates/dom/src/element/child_groups.rs:45-54 | two synchronous appends in a row add at most one slot and count two groups |
| CssInput.KeywordOf | packages/macros/src/lib.rs:214-233 | the keyword an identifier spells; none iff it spells no keyword |
| CssInput.Assign | packages/macros/src/lib.rs:214-233 | recording a parameter stores its value in its own field and leaves every other field as it was; its keyword becomes given, except for an empty exclude list |
| CssInput.ParseValue | packages/macros/src/lib.rs:214-233 | reads the value for keyword `k`: a string literal for `path` and `prefix`, a bracketed prefix list for the two lists, or a visibility that takes no tokens when none is there; the value carries that keyword and the remaining tokens are returned; the contract only fixes the keyword and bounds what is consumed, and what the value means is carried by ValueRoundTrip, which reads back every value written out |
| CssInput.CrateVisibilityRejected | packages/macros/src/lib.rs:214-243 | a visibility that is not `pub` reads as inherited, and the token after it is rejected with the expected-comma error |
| CssInput.ParseParameter | packages/macros/src/lib.rs:150-176 | a keyword already given is rejected as a duplicate before its colon is looked at; a parameter read consumes tokens and was not given |
| CssInput.ParsePrefixList | packages/macros/src/lib.rs:178-185 | a bracketed list of string literals separated by commas, with an optional trailing comma; the contract only bounds what is consumed, and what the list means is carried by PrefixListRoundTrip, which reads back every list written out |
| CssInput.ParseParams | packages/macros/src/lib.rs:207-243 | the parameter loop as a recursive definition: a parameter, then a comma or the end (properties: ParamsRoundTrip, MissingCommaAfter, RepeatRejected) |
| CssInput.ParseSpec | packages/macros/src/lib.rs:188-256 | the parameter-list form: the parameters, then the missing-path check (properties: ParseRendered, MissingPathRejected, DistinctAccepted) |
| CssInput.Finish | packages/macros/src/lib.rs:245-255 | succeeds iff a path was given, with an input holding exactly the collected path, visibility, prefix and both prefix lists; otherwise the missing-path error |
| CssInput.DistinctInterpreted | packages/macros/src/lib.rs:207-255 | parameters with different keywords, one of them `path`, are accepted as an input that holds every parameter's value and the default for each keyword none of them names |
| CssInput.ParseMacroInput | packages/macros/src/lib.rs:190-197 | a leading string literal alone is the path with every option defaulted; tokens after it are rejected |
| CssInput.Parse | packages/macros/src/lib.rs:188-256 | the parser loop returns exactly what the parameter grammar defines |
| CssInput.PrefixListRoundTrip | packages/macros/src/lib.rs:178-185 | a rendered prefix list reads back, with or without a trailing comma |
| CssInput.ValueRoundTrip | packages/macros/src/lib.rs:214-233 | a rendered value reads back and leaves the following tokens |
| CssInput.ParameterRoundTrip | packages/macros/src/lib.rs:150-176 | a rendered parameter reads back, or is a duplicate when its keyword was given |
| CssInput.ParamThenComma | packages/macros/src/lib.rs:238-242 | a parameter followed by a comma continues the loop with the parameter recorded |
| CssInput.LastParam | packages/macros/src/lib.rs:238-242 | a last parameter, with or without a trailing comma, ends the loop with it recorded |
| CssInput.ParamsRoundTrip | packages/macros/src/lib.rs:207-243 | parsing rendered parameters takes them in order, exactly as the declarative reading does |
| CssInput.ParseRendered | packages/macros/src/lib.rs:188-256 | the parser reads any rendered parameter list as what that list means |
| CssInput.GivenStaysRejected | packages/macros/src/lib.rs:160-167 | once a keyword counts as given, meeting it again is an error |
| CssInput.RepeatRejected | packages/macros/src/lib.rs:227-233 | a parameter given twice is rejected, unless the first is an empty exclude list |
| CssInput.MissingPathRejected | packages/macros/src/lib.rs:245-255 | without a path parameter the input is rejected, with the missing-path error when nothing else is wrong |
| CssInput.DistinctAccepted | packages/macros/src/lib.rs:207-243 | parameters with different keywords are all accepted; each one's value is recorded in its field, the path is the one given, and a field no parameter names keeps its value |
| CssInput.MissingCommaRejected | packages/macros/src/lib.rs:208-210 | two parameters with no comma between them are rejected with the expected-comma error |
| CssInput.MissingCommaAfter | packages/macros/src/lib.rs:207-210 | wherever the loop is, a parameter directly followed by another is the expected-comma error |
| CssInput.ExcludeAfterEmptyAccepted | packages/macros/src/lib.rs:227-233 | `exclude_prefixes: []` may be followed by another `exclude_prefixes`, whose list is kept |
| CssClasses.AnyPrefixMatches | packages/macros/src/lib.rs:259-261 | true iff some prefix in the list starts the class name |
| CssClasses.Keep | packages/macros/src/lib.rs:108-118 | kept iff included (or no include list) and not excluded, so exclusion wins |
| CssClasses.Filter | packages/macros/src/lib.rs:106-118 | a class is in the result iff it is a sheet class the filter keeps; none is added, and the kept ones stay in the sheet's order (`Subsequence`) |
| CssClasses.StripPrefix | packages/macros/src/lib.rs:125 | present iff the prefix starts the name, and prefix plus the rest is the name |
| CssClasses.NamePairs | packages/macros/src/lib.rs:120-138 | without a prefix, each class is paired with itself; with one, each pair is (rest, class) with prefix plus rest equal to the class, and every class with the prefix gets a pair |
| CssClasses.ToUpper | packages/macros/src/lib.rs:279 | a lower-case letter becomes the upper-case letter at the same place in the alphabet; every other character is unchanged |
| CssClasses.Mangle | packages/macros/src/lib.rs:276-281 | same length; a character becomes `_` iff it is not alphanumeric; alphanumerics are upper-cased |
| CssClasses.ConstantName | packages/macros/src/lib.rs:269-281 | an error carrying the identifier iff it is empty or does not start with a letter; otherwise the mangled identifier (`Mangle`): a name of the same length, of constant characters, starting with an upper-case letter |
| CssClasses.CodeGen | packages/macros/src/lib.rs:263-290 | succeeds iff every identifier starts with a letter, then one constant per pair in order; otherwise the error of the first bad identifier |
| CssClasses.CssClassConstants | packages/macros/src/lib.rs:106-138 | filter the sheet's classes, pair them with their stripped names, and generate the constants (properties: ConstantsAreKeptClasses, ExcludedGetsNoConstant) |
| CssClasses.ConstantsAreKeptClasses | packages/macros/src/lib.rs:89-138 | every constant defined names a class of the sheet that the filter keeps |
| CssClasses.ExcludedGetsNoConstant | packages/macros/src/lib.rs:75-86 | an excluded class gets no constant, whatever the include list says |
| CssClasses.MangleExamples | packages/macros/src/lib.rs:72 | `small` becomes `SMALL` and `border-small` becomes `BORDER_SMALL` |
| CssClasses.BorderInputExample | packages/macros/src/lib.rs:64-69 | the documented `border` arguments parse to public visibility, the path, the prefix `border-` and the exclude list |
| CssClasses.BorderFilterExample | packages/macros/src/lib.rs:60-73 | the exclude list drops only `border-excluded-huge` |
| CssClasses.BorderPairsExample | packages/macros/src/lib.rs:120-131 | with the prefix `border-`, `border-small` is named `small` and `my-class` is dropped |
| CssClasses.CodeGenSingle | packages/macros/src/lib.rs:263-290 | one pair with a letter first gives one constant |
| CssClasses.BorderExample | packages/macros/src/lib.rs:60-73 | the documented `border` example defines only `SMALL = "border-small"`, public |
| CssClasses.ExcludeWinsFilterExample | packages/macros/src/lib.rs:75-86 | with both lists, `border-excluded-huge` is dropped although it matches `border-` |
| CssClasses.ExcludeWinsExample | packages/macros/src/lib.rs:75-86 | with both lists, `BORDER_SMALL` is defined and no constant for `border-excluded-huge` |
| CssClasses.CompileFailExampleAsWritten | packages/macros/src/lib.rs:77-86 | the `compile_fail` example as written is rejected for its missing comma |
| CssClasses.CompileFailExampleWithComma | packages/macros/src/lib.rs:77-86 | with the comma added, the example's arguments parse, so only exclusion can keep its constant undefined |

## Findings

| source | as written | input that shows it | evidently intended | confidence | as-written member | corrected member |
|---|---|---|---|---|---|---|
| packages/macros/src/lib.rs:77-86 | the `compile_fail` example that is meant to show that `exclude_prefixes` wins over `include_prefixes` has no comma after `include_prefixes: ["border-"]`, so the parser rejects it with "Expected ','" and it fails to compile whatever the filter does | `path: "my-sass-file.scss", include_prefixes: ["border-"] exclude_prefixes: ["border-excluded-"]` | a comma between the two parameters, so that the example fails only because `BORDER_EXCLUDED_HUGE` is not defined | high; not executed | CssClasses.CompileFailExampleAsWritten | CssClasses.CompileFailExampleWithComma, with CssClasses.ExcludeWinsExample |

## Left out

- `real.rs` and `virt.rs` (the live and virtual element implementations) are not part of this model. One `ElementData` record stands for what both forms display, and the edits on it follow the child-list rules of `child_list.dfy`.
- Dom.MaterializeElement, Dom.PromoteNode, Dom.EvalDomElement and Dom.EditLive: an element is materialised on its own. Its virtual children are not materialised with it, and the frames of these members do not let them touch a child's cell. The conversion of a virtual element into a live one, which attaches its children's live nodes, is in `virt.rs`, which is not part of this model.
- ChildList.InsertBefore: a reference that is not a child appends the node, where the DOM's `insertBefore` throws `NotFoundError`.
- ChildList.Remove: removing a node that is not a child changes nothing, where the DOM's `removeChild` throws `NotFoundError`.
- ChildList.Replace: replacing a node that is not a child changes nothing, where the DOM's `replaceChild` throws `NotFoundError`.
- Groups.ChildGroups.UpsertOnlyChild, Groups.ChildGroups.InsertLastChild, Groups.ChildGroups.RemoveChild, Groups.ChildGroups.SetFirstChild and Groups.ChildGroups.ClearFirstChild: require `index < |children|`, where the source indexes the slot vector and panics on an index out of bounds.
- web_sys objects are not modelled. Materialisation does not create DOM nodes; hydration takes the promotion function as a parameter; `eval_dom_element` returns the live element rather than its `web_sys::Element`.
- Event handlers and effect closures are reduced to names and identifiers. The model does not run an effect's code; it records when the effect runs.
- `RefCell` borrow failures are not modelled. The `child.Obj() != self` preconditions exclude the aliasing that would make the source panic on a double borrow.
- Dom.LazyCell.GetThunk: requires a thunk, where the source panics ("Expected a thunk"); callers only reach it after `all_thunks`.
- The render queue (`queue_update`) is a list that only grows. The scheduler that drains it on the next animation frame is not part of this model; `RunTextUpdate` runs one update.
- Dom.InsertChildBefore, Dom.RemoveChild, Groups.StrictElement.InsertChildBefore and Groups.StrictElement.RemoveChild: the deferred live variants are modelled like their `_now` twins, and the group operations that do not wait for the next animation frame (child_groups.rs:44) are modelled like the others. Deferral of the live edit to the render queue is not modelled.
- `DomElement::shrink_to_fit` and `ChildGroups::shrink_to_fit` only change capacity, and have no observable effect to model.
- Groups.ChildGroups.NewGroup: `group_count` is an unbounded `nat`; `usize` overflow is not modelled.
- Groups.ChildGroups.InsertOnlyChild: requires an empty slot, where the source asserts it and panics otherwise.
- CssClasses.Mangle: `is_alphabetic`, `is_alphanumeric` and `to_uppercase` are modelled on ASCII only. Unicode letters, and upper-casing that changes a string's length, are not covered.
- Reading the style sheet (`parser::class_names`), `CARGO_MANIFEST_DIR`, the path join, the `include_bytes!` dependency line and the `println!` debug output are I/O and are not modelled. The classes are a parameter.
- The token stream is abstract. A `syn` visibility is either inherited or `pub` with an optional restriction. Any other form, such as `crate`, is read as an inherited visibility followed by a stray token, so the input is rejected with the expected-comma error (CssInput.CrateVisibilityRejected).
- A constant is a record of visibility, name and class name rather than emitted Rust tokens. Two classes that mangle to the same name would make the generated code fail to compile, which is not modelled.
- ChildList.InsertBefore: inserting a node before itself appends it, because the node is detached before its reference is looked up. The DOM leaves the node in place. This reading is a modelling choice for a case the source does not reach.
