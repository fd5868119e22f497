/**
 * The live child list of a parent node, as an ordered sequence. Appending
 * or inserting a node that is already a child first detaches it, as in the
 * DOM (a node has one place). Where the DOM would throw, the model takes a
 * total rule instead: inserting before a reference that is not a child
 * appends, removing a node that is not a child changes nothing, and
 * replacing a node that is not a child changes nothing.
 */
module ChildList {
  import opened Wrappers

  /** No node occurs twice. */
  predicate Distinct<T(==)>(s: seq<T>) {
    forall i, j :: 0 <= i < j < |s| ==> s[i] != s[j]
  }

  /** Position of the first occurrence of `x`. */
  function IndexOf<T(==)>(s: seq<T>, x: T): (k: nat)
    requires x in s
    ensures k < |s| && s[k] == x
    ensures forall j :: 0 <= j < k ==> s[j] != x
  {
    if s[0] == x then 0 else 1 + IndexOf(s[1..], x)
  }

  /** `y` and `z` are both children and `y` comes first. */
  predicate Before<T(==)>(s: seq<T>, y: T, z: T) {
    y in s && z in s && IndexOf(s, y) < IndexOf(s, z)
  }

  /** Detach `x`; a node that is not a child is left alone. */
  function Remove<T(==)>(s: seq<T>, x: T): (r: seq<T>)
    ensures x !in s ==> r == s
    ensures x in s ==> |r| == |s| - 1
    ensures forall y :: y in r ==> y in s
    ensures forall y :: y in s && y != x ==> y in r
    ensures Distinct(s) ==> Distinct(r) && x !in r
  {
    if x in s then
      var k := IndexOf(s, x);
      var r := s[..k] + s[k + 1..];
      assert forall i :: 0 <= i < |r| ==> r[i] == if i < k then s[i] else s[i + 1];
      assert forall i :: 0 <= i < |s| && i != k ==> s[i] == if i < k then r[i] else r[i - 1];
      r
    else
      s
  }

  /** Where a node inserted before `next` lands in `t`: at `next`'s place, or at the end. */
  function InsertionPoint<T(==)>(t: seq<T>, next: Option<T>): (k: nat)
    ensures k <= |t|
    ensures next.Some? && next.value in t ==> k < |t| && t[k] == next.value
    ensures !(next.Some? && next.value in t) ==> k == |t|
  {
    if next.Some? && next.value in t then IndexOf(t, next.value) else |t|
  }

  /** Detach `x` wherever it is, then put it immediately before `next` (at the end when `next` is absent or not a child). */
  function InsertBefore<T(==)>(s: seq<T>, x: T, next: Option<T>): (r: seq<T>)
    ensures x in r
    ensures forall y :: y in r ==> y in s || y == x
    ensures forall y :: y in s ==> y in r
    ensures Distinct(s) ==> Distinct(r)
  {
    var t := Remove(s, x);
    var k := InsertionPoint(t, next);
    InsertAtFacts(t, x, k);
    t[..k] + [x] + t[k..]
  }

  /** Putting a node that is not a child at position `k` adds exactly that node, and adds no repeat. */
  lemma InsertAtFacts<T>(t: seq<T>, x: T, k: nat)
    requires k <= |t|
    ensures var r := t[..k] + [x] + t[k..];
      && x in r
      && (forall y :: y in r ==> y in t || y == x)
      && (forall y :: y in t ==> y in r)
      && (Distinct(t) && x !in t ==> Distinct(r))
  {
    var r := t[..k] + [x] + t[k..];
    assert r[k] == x;
    assert forall i :: 0 <= i < |r| ==> r[i] == if i < k then t[i] else if i == k then x else t[i - 1];
    assert forall i :: 0 <= i < |t| ==> t[i] == if i < k then r[i] else r[i + 1];
  }

  /** `replaceChild`: `x` takes the place of the child `prev`; nothing happens when `prev` is not a child or is `x` itself. */
  function Replace<T(==)>(s: seq<T>, x: T, prev: T): (r: seq<T>)
    ensures prev !in s || x == prev ==> r == s
    ensures prev in s && x != prev ==> x in r && forall y :: y in r ==> y in s || y == x
    ensures Distinct(s) ==> Distinct(r)
    ensures Distinct(s) && prev in s && x != prev ==> prev !in r && forall y :: y in s && y != prev ==> y in r
  {
    if prev in s && x != prev then Remove(InsertBefore(s, x, Some(prev)), prev) else s
  }

  /** `appendChild`: detach `x`, then make it the last child. */
  function Append<T(==)>(s: seq<T>, x: T): (r: seq<T>)
    ensures Distinct(s) ==> Distinct(r)
    ensures |r| > 0 && r[|r| - 1] == x
    ensures forall y :: y in r ==> y in s || y == x
    ensures forall y :: y in s ==> y in r
  {
    InsertBefore(s, x, None)
  }

  /** Removing `x` shifts the nodes after it one place to the front and leaves the others where they were. */
  lemma RemoveIndex<T>(s: seq<T>, x: T, y: T)
    requires y in s && y != x
    ensures y in Remove(s, x)
    ensures IndexOf(Remove(s, x), y) ==
      if x in s && IndexOf(s, x) < IndexOf(s, y) then IndexOf(s, y) - 1 else IndexOf(s, y)
  {
    if x in s {
      var k := IndexOf(s, x);
      CutIndex(s, k, y);
      assert Remove(s, x) == s[..k] + s[k + 1..];
    }
  }

  /** Cutting out position `k` shifts the nodes after it one place to the front. */
  lemma CutIndex<T>(s: seq<T>, k: nat, y: T)
    requires k < |s| && y in s && s[k] != y
    ensures y in s[..k] + s[k + 1..]
    ensures IndexOf(s[..k] + s[k + 1..], y) == if k < IndexOf(s, y) then IndexOf(s, y) - 1 else IndexOf(s, y)
  {
    var j := IndexOf(s, y);
    if k < j {
      CutIndexAfter(s, k, j);
    } else {
      CutIndexBefore(s, k, j);
    }
  }

  /** A node after the cut moves one place to the front. */
  lemma CutIndexAfter<T>(s: seq<T>, k: nat, j: nat)
    requires k < j < |s| && forall i :: 0 <= i < j ==> s[i] != s[j]
    ensures IndexOf(s[..k] + s[k + 1..], s[j]) == j - 1
  {
    var r := s[..k] + s[k + 1..];
    CutAt(s, k, j - 1);
    forall i | 0 <= i < j - 1 ensures r[i] != s[j] {
      CutAt(s, k, i);
    }
    IndexOfFirst(r, s[j], j - 1);
  }

  /** A node before the cut stays where it is. */
  lemma CutIndexBefore<T>(s: seq<T>, k: nat, j: nat)
    requires j < k < |s| && forall i :: 0 <= i < j ==> s[i] != s[j]
    ensures IndexOf(s[..k] + s[k + 1..], s[j]) == j
  {
    var r := s[..k] + s[k + 1..];
    assert r[j] == s[j];
    assert forall i :: 0 <= i < j ==> r[i] == s[i];
    IndexOfFirst(r, s[j], j);
  }

  /** After cutting out position `k`, position `i` holds the node that was at `i`, or at `i + 1` from `k` on. */
  lemma CutAt<T>(s: seq<T>, k: nat, i: nat)
    requires k < |s| && i < |s| - 1
    ensures |s[..k] + s[k + 1..]| == |s| - 1
    ensures (s[..k] + s[k + 1..])[i] == if i < k then s[i] else s[i + 1]
  {
  }

  /** The position of `x` is the first place it occurs. */
  lemma IndexOfFirst<T>(s: seq<T>, x: T, j: nat)
    requires j < |s| && s[j] == x
    requires forall i :: 0 <= i < j ==> s[i] != x
    ensures IndexOf(s, x) == j
  {
  }

  /** Putting `x` at position `k` puts it at position `k`. */
  lemma InsertAtIndexSelf<T>(t: seq<T>, x: T, k: nat)
    requires x !in t && k <= |t|
    ensures IndexOf(t[..k] + [x] + t[k..], x) == k
  {
    var r := t[..k] + [x] + t[k..];
    assert r[k] == x;
    assert forall i :: 0 <= i < k ==> r[i] != x;
    IndexOfFirst(r, x, k);
  }

  /** Putting `x` at position `k` shifts the nodes from `k` on one place to the back. */
  lemma InsertAtIndex<T>(t: seq<T>, x: T, k: nat, y: T)
    requires x !in t && k <= |t| && y in t
    ensures IndexOf(t[..k] + [x] + t[k..], y) ==
      if IndexOf(t, y) < k then IndexOf(t, y) else IndexOf(t, y) + 1
  {
    var j := IndexOf(t, y);
    if j < k {
      InsertIndexBefore(t, x, k, j);
    } else {
      InsertIndexAfter(t, x, k, j);
    }
  }

  /** A node before the insertion point stays where it is. */
  lemma InsertIndexBefore<T>(t: seq<T>, x: T, k: nat, j: nat)
    requires j < k <= |t| && forall i :: 0 <= i < j ==> t[i] != t[j]
    ensures IndexOf(t[..k] + [x] + t[k..], t[j]) == j
  {
    var r := t[..k] + [x] + t[k..];
    assert r[j] == t[j];
    assert forall i :: 0 <= i < j ==> r[i] == t[i];
    IndexOfFirst(r, t[j], j);
  }

  /** A node at or after the insertion point moves one place to the back. */
  lemma InsertIndexAfter<T>(t: seq<T>, x: T, k: nat, j: nat)
    requires k <= j < |t| && x != t[j] && forall i :: 0 <= i < j ==> t[i] != t[j]
    ensures IndexOf(t[..k] + [x] + t[k..], t[j]) == j + 1
  {
    var r := t[..k] + [x] + t[k..];
    InsertAt(t, x, k, j + 1);
    forall i | 0 <= i < j + 1 ensures r[i] != t[j] {
      InsertAt(t, x, k, i);
    }
    IndexOfFirst(r, t[j], j + 1);
  }

  /** After putting `x` at position `k`, position `i` holds `x` or the node that was at `i`, or at `i - 1` after `k`. */
  lemma InsertAt<T>(t: seq<T>, x: T, k: nat, i: nat)
    requires k <= |t| && i <= |t|
    ensures |t[..k] + [x] + t[k..]| == |t| + 1
    ensures (t[..k] + [x] + t[k..])[i] == if i < k then t[i] else if i == k then x else t[i - 1]
  {
  }

  /** Detaching a node keeps the relative order of every other pair. */
  lemma RemoveKeepsOrder<T>(s: seq<T>, x: T, y: T, z: T)
    requires Distinct(s) && y != x && z != x
    ensures Before(Remove(s, x), y, z) <==> Before(s, y, z)
  {
    if y in s && z in s {
      RemoveIndex(s, x, y);
      RemoveIndex(s, x, z);
    }
  }

  /** Inserting a node keeps the relative order of every other pair. */
  lemma {:induction false} InsertBeforeKeepsOrder<T>(s: seq<T>, x: T, next: Option<T>, y: T, z: T)
    requires Distinct(s) && y != x && z != x
    ensures Before(InsertBefore(s, x, next), y, z) <==> Before(s, y, z)
  {
    var t := Remove(s, x);
    var k := InsertionPoint(t, next);
    RemoveKeepsOrder(s, x, y, z);
    if y in t && z in t {
      InsertAtIndex(t, x, k, y);
      InsertAtIndex(t, x, k, z);
    }
  }

  /** A node inserted before a child `m` lands after exactly the nodes that were before `m`, and right in front of `m`. */
  lemma {:induction false} InsertBeforePlaces<T>(s: seq<T>, x: T, m: T, y: T)
    requires Distinct(s) && m in s && m != x && y in s && y != x
    ensures Before(InsertBefore(s, x, Some(m)), x, m)
    ensures y != m ==> (Before(InsertBefore(s, x, Some(m)), y, x) <==> Before(s, y, m))
  {
    var t := Remove(s, x);
    var k := InsertionPoint(t, Some(m));
    assert y in t && m in t;
    assert k == IndexOf(t, m);
    InsertAtIndex(t, x, k, y);
    InsertAtIndex(t, x, k, m);
    InsertAtIndexSelf(t, x, k);
    RemoveKeepsOrder(s, x, y, m);
  }

  /** Replacing `prev` by `x` keeps the relative order of every other pair. */
  lemma ReplaceKeepsOrder<T>(s: seq<T>, x: T, prev: T, y: T, z: T)
    requires Distinct(s) && prev in s && x != prev
    requires y != x && y != prev && z != x && z != prev
    ensures Before(Replace(s, x, prev), y, z) <==> Before(s, y, z)
  {
    var u := InsertBefore(s, x, Some(prev));
    InsertBeforeKeepsOrder(s, x, Some(prev), y, z);
    RemoveKeepsOrder(u, prev, y, z);
  }

  /** The replacement takes the old child's place: it comes after exactly the nodes that came before `prev`. */
  lemma ReplacePlaces<T>(s: seq<T>, x: T, prev: T, y: T)
    requires Distinct(s) && prev in s && x != prev && y != x && y != prev
    ensures Before(Replace(s, x, prev), y, x) <==> Before(s, y, prev)
  {
    if y in s {
      var u := InsertBefore(s, x, Some(prev));
      InsertBeforePlaces(s, x, prev, y);
      RemoveKeepsOrder(u, prev, y, x);
    }
  }

  /** A node inserted with no reference, or before one that is not a child, comes after every other child. */
  lemma {:induction false} InsertAtEndPlaces<T>(s: seq<T>, x: T, next: Option<T>, y: T)
    requires Distinct(s) && y in s && y != x
    requires next.None? || next.value !in s || next.value == x
    ensures Before(InsertBefore(s, x, next), y, x)
  {
    var t := Remove(s, x);
    var k := InsertionPoint(t, next);
    assert k == |t|;
    InsertAtIndex(t, x, k, y);
    InsertAtIndexSelf(t, x, k);
  }
}
