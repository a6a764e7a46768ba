/** Sorting v1 nodes by `displayOrder`, as `Array.prototype.sort` does with
    `(a, b) => a.displayOrder - b.displayOrder` (stable), and by
    `displayOrder` with ties broken by id, as the migration's comparator
    does. One insertion sort serves both; `byId` selects the tie-break. */
module Sorting {
  import opened Common
  import opened NodeTypes

  /** `a` must come strictly before `b`. */
  predicate Precedes(a: PlanNode, b: PlanNode, byId: bool)
  {
    a.displayOrder < b.displayOrder
    || (byId && a.displayOrder == b.displayOrder && StrLt(a.id, b.id))
  }

  /** The later of two positions does not hold an element that must come
      first. */
  predicate InOrder(s: seq<PlanNode>, i: int, j: int, byId: bool)
    requires 0 <= i < j < |s|
  {
    !Precedes(s[j], s[i], byId)
  }

  /** No element is followed by one that must precede it. */
  ghost predicate Sorted(s: seq<PlanNode>, byId: bool)
  {
    forall i, j :: 0 <= i < j < |s| ==> InOrder(s, i, j, byId)
  }

  lemma NotPrecedesTransitive(a: PlanNode, b: PlanNode, c: PlanNode, byId: bool)
    requires !Precedes(a, b, byId) && !Precedes(b, c, byId)
    ensures !Precedes(a, c, byId)
  {
    if byId && a.displayOrder == b.displayOrder == c.displayOrder {
      if StrLt(a.id, c.id) {
        if a.id != b.id { StrLtTotal(a.id, b.id); }
        if b.id != c.id { StrLtTotal(b.id, c.id); }
        if a.id != b.id && b.id != c.id {
          StrLtTransitive(c.id, b.id, a.id);
          StrLtAsymmetric(a.id, c.id);
        } else {
          StrLtIrreflexive(a.id);
          StrLtAsymmetric(a.id, c.id);
        }
      }
    }
  }

  lemma PrecedesAsymmetric(a: PlanNode, b: PlanNode, byId: bool)
    requires Precedes(a, b, byId)
    ensures !Precedes(b, a, byId)
  {
    if byId && a.displayOrder == b.displayOrder {
      StrLtAsymmetric(a.id, b.id);
    }
  }

  /** A sorted list stays sorted without its head. */
  lemma TailSorted(s: seq<PlanNode>, byId: bool)
    requires |s| > 0 && Sorted(s, byId)
    ensures Sorted(s[1..], byId)
  {
    forall i, j | 0 <= i < j < |s| - 1 ensures InOrder(s[1..], i, j, byId) {
      assert InOrder(s, i + 1, j + 1, byId);
    }
  }

  /** An element that the head of a sorted list need not precede can go in
      front of it. */
  lemma ConsBefore(x: PlanNode, s: seq<PlanNode>, byId: bool)
    requires |s| > 0 && Sorted(s, byId) && !Precedes(s[0], x, byId)
    ensures Sorted([x] + s, byId)
  {
    var r := [x] + s;
    forall i, j | 0 <= i < j < |r| ensures InOrder(r, i, j, byId) {
      if i == 0 {
        if j > 1 {
          assert InOrder(s, 0, j - 1, byId);
          NotPrecedesTransitive(s[j - 1], s[0], x, byId);
        }
      } else {
        assert InOrder(s, i - 1, j - 1, byId);
      }
    }
  }

  /** The head `h` of a sorted list can stay in front of `t`, a sorted
      rearrangement of the rest of that list plus an element `h` precedes. */
  lemma ConsAfter(h: PlanNode, x: PlanNode, rest: seq<PlanNode>, t: seq<PlanNode>, byId: bool)
    requires Sorted([h] + rest, byId) && Sorted(t, byId) && Precedes(h, x, byId)
    requires multiset(t) == multiset(rest) + multiset{x}
    ensures Sorted([h] + t, byId)
  {
    var s := [h] + rest;
    var r := [h] + t;
    PrecedesAsymmetric(h, x, byId);
    forall i, j | 0 <= i < j < |r| ensures InOrder(r, i, j, byId) {
      if i == 0 {
        assert t[j - 1] in multiset(t);
        if t[j - 1] != x {
          assert t[j - 1] in multiset(rest);
          var q :| 0 <= q < |rest| && rest[q] == t[j - 1];
          assert s[q + 1] == rest[q];
          assert InOrder(s, 0, q + 1, byId);
        }
      } else {
        assert InOrder(t, i - 1, j - 1, byId);
      }
    }
  }

  /** Insert `x` in front of the first element it need not follow. */
  function Insert(x: PlanNode, s: seq<PlanNode>, byId: bool): (r: seq<PlanNode>)
    requires Sorted(s, byId)
    ensures Sorted(r, byId)
    ensures multiset(r) == multiset(s) + multiset{x}
    ensures |r| == |s| + 1
  {
    if |s| == 0 then [x]
    else if !Precedes(s[0], x, byId) then
      ConsBefore(x, s, byId);
      [x] + s
    else
      TailSorted(s, byId);
      var t := Insert(x, s[1..], byId);
      assert s == [s[0]] + s[1..];
      ConsAfter(s[0], x, s[1..], t, byId);
      [s[0]] + t
  }

  /** Insertion sort: sorted, and a permutation of the input. */
  function Sort(s: seq<PlanNode>, byId: bool): (r: seq<PlanNode>)
    ensures Sorted(r, byId)
    ensures multiset(r) == multiset(s)
    ensures |r| == |s|
  {
    if |s| == 0 then []
    else
      assert s == [s[0]] + s[1..];
      Insert(s[0], Sort(s[1..], byId), byId)
  }

  /** The nodes of `s` whose `displayOrder` is `d`, in the order of `s`. */
  function Tied(s: seq<PlanNode>, d: int): (r: seq<PlanNode>)
    ensures forall n :: n in r <==> n in s && n.displayOrder == d
  {
    if |s| == 0 then []
    else
      assert forall x :: x in s <==> x == s[0] || x in s[1..];
      (if s[0].displayOrder == d then [s[0]] else []) + Tied(s[1..], d)
  }

  /** The tied nodes of a list with one node in front. */
  lemma TiedCons(h: PlanNode, t: seq<PlanNode>, d: int)
    ensures Tied([h] + t, d) == (if h.displayOrder == d then [h] else []) + Tied(t, d)
  {
    assert ([h] + t)[1..] == t;
  }

  /** Two nodes with different `displayOrder` are never both tied at `d`,
      so their contributions commute. */
  lemma TiedSwap(a: PlanNode, b: PlanNode, rest: seq<PlanNode>, d: int)
    requires a.displayOrder < b.displayOrder
    ensures (if a.displayOrder == d then [a] else []) + ((if b.displayOrder == d then [b] else []) + rest)
            == (if b.displayOrder == d then [b] else []) + ((if a.displayOrder == d then [a] else []) + rest)
  {
  }

  /** Inserting by `displayOrder` puts the new node after every node tied
      with it: the tied nodes keep their order with `x` in front. */
  lemma {:induction false} InsertTied(x: PlanNode, t: seq<PlanNode>, d: int)
    requires Sorted(t, false)
    ensures Tied(Insert(x, t, false), d) == (if x.displayOrder == d then [x] else []) + Tied(t, d)
  {
    if |t| > 0 && Precedes(t[0], x, false) {
      TailSorted(t, false);
      var t1 := t[1..];
      var r1 := Insert(x, t1, false);
      InsertTied(x, t1, d);
      assert Insert(x, t, false) == [t[0]] + r1;
      TiedCons(t[0], r1, d);
      assert t == [t[0]] + t1;
      TiedCons(t[0], t1, d);
      TiedSwap(t[0], x, Tied(t1, d), d);
    } else {
      assert Insert(x, t, false) == [x] + t;
      TiedCons(x, t, d);
    }
  }

  /** The sort by `displayOrder` alone is stable: nodes with the same
      `displayOrder` come out in the order they went in, as
      `Array.prototype.sort` guarantees. */
  lemma {:induction false} SortStable(s: seq<PlanNode>, d: int)
    ensures Tied(Sort(s, false), d) == Tied(s, d)
  {
    if |s| > 0 {
      SortStable(s[1..], d);
      InsertTied(s[0], Sort(s[1..], false), d);
    }
  }

  /** The tie-break is by character code, not by `localeCompare`: an id
      "B" sorts before an id "a" with the same `displayOrder`, where the
      locale order would put "a" first. */
  lemma TieByCharCode(a: PlanNode, b: PlanNode)
    requires a.id == "a" && b.id == "B" && a.displayOrder == b.displayOrder
    ensures Sort([a, b], true) == [b, a]
  {
    assert [a, b][1..] == [b];
    assert Sort([b], true) == [b] by {
      assert [b][1..] == [];
    }
    assert StrLt(b.id, a.id);
  }
}
