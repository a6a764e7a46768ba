/** The v2 structural operation layer: the `planStructure` map from a parent
    id to the ordered ids of its children, and the three operations that are
    the only intended way to change it (register, unregister, move). Each
    `ydoc.transact` block is one function from structure to structure. */
module PlanTree {
  import opened Common

  /** parent id -> ordered child ids */
  type Structure = map<string, seq<string>>

  /** The children stored under `p`; a missing key reads as no children. */
  function ChildrenOf(st: Structure, p: string): seq<string>
  {
    if p in st then st[p] else []
  }

  /** Garbage collection keeps every stored sequence non-empty. */
  predicate NoEmpty(st: Structure)
  {
    forall k :: k in st ==> |st[k]| > 0
  }

  /** `x` occurs exactly once in the whole structure, under `p`. */
  ghost predicate OccursOnlyUnder(st: Structure, x: string, p: string)
  {
    && p in st
    && multiset(st[p])[x] == 1
    && forall k :: k in st && k != p ==> x !in st[k]
  }

  /** Where `register` inserts: the requested index when it lies in
      `[0, len]`, otherwise the end. */
  function TargetIndex(len: nat, index: Option<int>): nat
  {
    if index.Some? && 0 <= index.value <= len then index.value else len
  }

  /** `registerNodeToTree(parentId, nodeId, index)`. */
  function Register(st: Structure, parent: string, node: string, index: Option<int>): (r: Structure)
    // a duplicate under the same parent is a no-op
    ensures node in ChildrenOf(st, parent) ==> r == st
    // otherwise exactly one id is added, under `parent`, and nothing else changes
    ensures node !in ChildrenOf(st, parent) ==>
      && r.Keys == st.Keys + {parent}
      && (forall k :: k in st && k != parent ==> r[k] == st[k])
      && multiset(r[parent]) == multiset(ChildrenOf(st, parent)) + multiset{node}
    // a missing parent sequence is created holding exactly the new id
    ensures parent !in st ==> r == st[parent := [node]]
  {
    var arr := ChildrenOf(st, parent);
    if FindIndex(arr, node) != -1 then st
    else
      assert parent !in st ==> InsertAt(arr, TargetIndex(|arr|, index), node) == [node];
      st[parent := InsertAt(arr, TargetIndex(|arr|, index), node)]
  }

  /** Where a registered id lands: at the requested index when it lies in
      `[0, len]` (absent, negative or too large means the end), with the old
      elements before and after it in their old order. */
  lemma RegisterPosition(st: Structure, parent: string, node: string, index: Option<int>)
    requires node !in ChildrenOf(st, parent)
    ensures var before := ChildrenOf(st, parent);
            var r := Register(st, parent, node, index);
            var i := if index.Some? && 0 <= index.value <= |before| then index.value else |before|;
            && |r[parent]| == |before| + 1
            && r[parent][i] == node
            && r[parent][..i] == before[..i]
            && r[parent][i + 1..] == before[i..]
  {
  }

  /** The sequence with the first occurrence of `x` deleted; unchanged when
      `x` does not occur. */
  function RemoveFirst(s: seq<string>, x: string): (r: seq<string>)
    ensures x !in s ==> r == s
    ensures x in s ==> |r| == |s| - 1
    ensures x in s ==> var i := FindIndex(s, x); r[..i] == s[..i] && r[i..] == s[i + 1..]
    ensures multiset(r) == multiset(s) - multiset{x}
  {
    if x !in s then
      assert multiset(s) - multiset{x} == multiset(s);
      s
    else
      var i := FindIndex(s, x);
      RemoveAt(s, i)
  }

  /** `unregisterNodeFromTree(parentId, nodeId)`. */
  function Unregister(st: Structure, parent: string, node: string): (r: Structure)
    // a missing parent key is a no-op
    ensures parent !in st ==> r == st
    // the first occurrence is deleted, and an emptied sequence loses its key
    ensures parent in st ==>
      var rest := RemoveFirst(st[parent], node);
      if |rest| == 0 then r == st - {parent} else r == st[parent := rest]
  {
    if parent !in st then st
    else
      var rest := RemoveFirst(st[parent], node);
      if |rest| == 0 then st - {parent} else st[parent := rest]
  }

  /** Unregister keeps every stored sequence non-empty. */
  lemma UnregisterKeepsNoEmpty(st: Structure, parent: string, node: string)
    ensures NoEmpty(st) ==> NoEmpty(Unregister(st, parent, node))
  {
  }

  /** With no empty sequence stored, unregistering an id that is not there
      changes nothing at all. */
  lemma UnregisterAbsentIsNoOp(st: Structure, parent: string, node: string)
    requires NoEmpty(st)
    requires node !in ChildrenOf(st, parent)
    ensures Unregister(st, parent, node) == st
  {
  }

  /** The index correction of `moveNodeInTree`: taken in the target sequence
      before the removal, and applied only when the node is there at a lower
      index than the requested one. */
  function AdjustedIndex(st: Structure, node: string, to: string, newIndex: int): (a: int)
    ensures a == newIndex || a == newIndex - 1
    ensures a == newIndex - 1 <==>
      (to in st && node in st[to] && FindIndex(st[to], node) < newIndex)
  {
    var current := if to in st then FindIndex(st[to], node) else -1;
    if current != -1 && current < newIndex then newIndex - 1 else newIndex
  }

  /** `a` and `b` hold the same keys with the same sequences, except
      possibly at `x` and `y`. */
  ghost predicate AgreeOutside(a: Structure, b: Structure, x: string, y: string)
  {
    forall k :: k != x && k != y ==> (k in a <==> k in b) && (k in a ==> a[k] == b[k])
  }

  /** `moveNodeInTree(nodeId, fromParentId, toParentId, newIndex)`: one
      transaction made of unregister followed by register. */
  function Move(st: Structure, node: string, from: string, to: string, newIndex: int): Structure
  {
    Register(Unregister(st, from, node), to, node, Some(AdjustedIndex(st, node, to, newIndex)))
  }

  /** A move leaves keys other than the two parents untouched and no empty
      sequence behind. */
  lemma MoveFrame(st: Structure, node: string, from: string, to: string, newIndex: int)
    ensures AgreeOutside(Move(st, node, from, to, newIndex), st, from, to)
    ensures NoEmpty(st) ==> NoEmpty(Move(st, node, from, to, newIndex))
  {
    var st1 := Unregister(st, from, node);
    UnregisterFrame(st, from, node, to);
    UnregisterKeepsNoEmpty(st, from, node);
    var index := Some(AdjustedIndex(st, node, to, newIndex));
    RegisterFrame(st1, to, node, index, from);
    if NoEmpty(st) {
      RegisterKeepsNoEmpty(st1, to, node, index);
    }
  }

  /** Unregister changes no key other than the parent. */
  lemma UnregisterFrame(st: Structure, parent: string, node: string, other: string)
    ensures AgreeOutside(Unregister(st, parent, node), st, parent, other)
  {
  }

  /** Register changes no key other than the parent. */
  lemma RegisterFrame(st: Structure, parent: string, node: string, index: Option<int>, other: string)
    ensures AgreeOutside(Register(st, parent, node, index), st, parent, other)
  {
  }

  /** Register keeps every stored sequence non-empty. */
  lemma RegisterKeepsNoEmpty(st: Structure, parent: string, node: string, index: Option<int>)
    requires NoEmpty(st)
    ensures NoEmpty(Register(st, parent, node, index))
  {
  }

  /** After removing the first copy of an id that occurs once, it is gone. */
  lemma RemoveFirstOfSingle(s: seq<string>, x: string)
    requires multiset(s)[x] == 1
    ensures x !in RemoveFirst(s, x)
  {
    assert multiset(RemoveFirst(s, x))[x] == 0;
  }

  /** A move inside one parent only reorders: for an id that occurs once
      under the parent, the multiset of ids there is the same afterwards. */
  lemma MoveWithinParentPermutes(st: Structure, node: string, p: string, newIndex: int)
    requires p in st && multiset(st[p])[node] == 1
    ensures var r := Move(st, node, p, p, newIndex);
            p in r && multiset(r[p]) == multiset(st[p])
  {
    UnregisterSingle(st, p, node);
    var st1 := Unregister(st, p, node);
    RegisterFresh(st1, p, node, Some(AdjustedIndex(st, node, p, newIndex)));
  }

  /** Where a node moved inside its own parent lands. With `c` its old index
      and `n` the length: `c < newIndex <= n` puts it at `newIndex - 1`,
      `0 <= newIndex <= c` at `newIndex`, and any other index at the end. The
      remaining ids keep their relative order. Stated for an id that occurs
      once under the parent, which register's duplicate check maintains. */
  lemma MoveWithinParentLands(st: Structure, node: string, p: string, newIndex: int)
    requires p in st && multiset(st[p])[node] == 1
    ensures var r := Move(st, node, p, p, newIndex);
            var s := st[p];
            var c := FindIndex(s, node);
            var land := if c < newIndex <= |s| then newIndex - 1
                        else if 0 <= newIndex <= c then newIndex
                        else |s| - 1;
            && p in r && |r[p]| == |s| && 0 <= land < |s|
            && r[p][land] == node
            && RemoveAt(r[p], land) == RemoveFirst(s, node)
  {
    var s := st[p];
    var land := LandingIndex(|s|, FindIndex(s, node), newIndex);
    MoveWithinParentIs(st, node, p, newIndex);
    InsertThenRemove(RemoveFirst(s, node), land, node);
  }

  /** A same-parent move is the removal followed by an insertion at the
      landing index. */
  lemma MoveWithinParentIs(st: Structure, node: string, p: string, newIndex: int)
    requires p in st && multiset(st[p])[node] == 1
    ensures var s := st[p];
            var land := LandingIndex(|s|, FindIndex(s, node), newIndex);
            && 0 <= land < |s|
            && Move(st, node, p, p, newIndex)
               == Unregister(st, p, node)[p := InsertAt(RemoveFirst(s, node), land, node)]
  {
    UnregisterSingle(st, p, node);
    var st1 := Unregister(st, p, node);
    RegisterFresh(st1, p, node, Some(AdjustedIndex(st, node, p, newIndex)));
    AdjustedLanding(st, node, p, newIndex);
  }

  /** Unregistering an id that occurs once under `p` leaves the rest of
      the sequence there, without the id. */
  lemma UnregisterSingle(st: Structure, p: string, node: string)
    requires p in st && multiset(st[p])[node] == 1
    ensures var rest := ChildrenOf(Unregister(st, p, node), p);
            && rest == RemoveFirst(st[p], node) && node !in rest
            && |rest| == |st[p]| - 1
            && multiset(st[p]) == multiset(rest) + multiset{node}
  {
    RemoveFirstOfSingle(st[p], node);
  }

  /** Registering an id that is not there inserts it at the target index. */
  lemma RegisterFresh(st: Structure, parent: string, node: string, index: Option<int>)
    requires node !in ChildrenOf(st, parent)
    ensures var arr := ChildrenOf(st, parent);
            Register(st, parent, node, index) == st[parent := InsertAt(arr, TargetIndex(|arr|, index), node)]
  {
  }

  /** Inside one parent, the corrected index falls where `LandingIndex`
      says, in the sequence without the moved id. */
  lemma AdjustedLanding(st: Structure, node: string, p: string, newIndex: int)
    requires p in st && node in st[p]
    ensures var land := LandingIndex(|st[p]|, FindIndex(st[p], node), newIndex);
            && 0 <= land < |st[p]|
            && TargetIndex(|st[p]| - 1, Some(AdjustedIndex(st, node, p, newIndex))) == land
  {
  }

  /** The landing index of a same-parent move, as the three cases of the
      correction give it. */
  function LandingIndex(n: nat, c: nat, newIndex: int): int
  {
    if c < newIndex <= n then newIndex - 1
    else if 0 <= newIndex <= c then newIndex
    else n - 1
  }

  lemma InsertThenRemove(s: seq<string>, i: nat, x: string)
    requires i <= |s|
    ensures RemoveAt(InsertAt(s, i, x), i) == s
  {
    var t := InsertAt(s, i, x);
    assert RemoveAt(t, i) == t[..i] + t[i + 1..];
    assert s == s[..i] + s[i..];
  }

  /** A node that occurs exactly once, under `from`, occurs exactly once,
      under `to`, after the move. */
  lemma MoveKeepsSingleOccurrence(st: Structure, node: string, from: string, to: string, newIndex: int)
    requires OccursOnlyUnder(st, node, from)
    ensures OccursOnlyUnder(Move(st, node, from, to, newIndex), node, to)
  {
    UnregisterRemovesSingle(st, node, from);
    MoveOfAbsent(st, node, from, to, newIndex);
  }

  /** Unregistering an id that occurs only under `from` removes it from
      the whole structure. */
  lemma UnregisterRemovesSingle(st: Structure, node: string, from: string)
    requires OccursOnlyUnder(st, node, from)
    ensures var st1 := Unregister(st, from, node);
            forall k :: k in st1 ==> node !in st1[k]
  {
    RemoveFirstOfSingle(st[from], node);
  }

  /** When the removal leaves the id nowhere, the move registers it once,
      under the target parent. */
  lemma MoveOfAbsent(st: Structure, node: string, from: string, to: string, newIndex: int)
    requires var st1 := Unregister(st, from, node);
             forall k :: k in st1 ==> node !in st1[k]
    ensures OccursOnlyUnder(Move(st, node, from, to, newIndex), node, to)
  {
    var st1 := Unregister(st, from, node);
    var r := Register(st1, to, node, Some(AdjustedIndex(st, node, to, newIndex)));
    assert Move(st, node, from, to, newIndex) == r;
    assert node !in ChildrenOf(st1, to);
    assert multiset(ChildrenOf(st1, to))[node] == 0;
    assert multiset(r[to])[node] == 1;
    forall k | k in r && k != to ensures node !in r[k] {
      assert k in st1 && r[k] == st1[k];
    }
  }

  /** Registering checks only the one parent's list, so the same id can be
      filed under two parents at once. */
  lemma RegisterAllowsSharing()
    ensures var st := map[Root := ["a"]];
            Register(st, "p", "a", None) == map[Root := ["a"], "p" := ["a"]]
  {
  }

  /** The layer has no ancestry check: moving a node under its own child is
      accepted and leaves a two-node cycle that no longer hangs off the root. */
  lemma MoveAcceptsCycle()
    ensures var st := map[Root := ["a"], "a" := ["b"]];
            Move(st, "a", Root, "b", 0) == map["a" := ["b"], "b" := ["a"]]
  {
    var st := map[Root := ["a"], "a" := ["b"]];
    assert FindIndex(["a"], "a") == 0;
    assert Unregister(st, Root, "a") == map["a" := ["b"]];
    assert Move(st, "a", Root, "b", 0) == map["a" := ["b"], "b" := ["a"]];
  }
}
