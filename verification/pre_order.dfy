/** The depth-first walk both tree flatteners share: starting at a parent,
    visit its children in order; each child not yet visited is emitted with
    its depth and parent, marked visited, and its own children are walked
    before the next sibling. The visited set is what makes the walk finish on
    any input, cycles included. */
module PreOrder {
  import opened Common

  /** One child as the walk sees it: its id and the record to emit. */
  datatype Kid<T> = Kid(id: string, item: T)

  /** parent id -> ordered children */
  type Kids<T> = map<string, seq<Kid<T>>>

  /** One line of the flattened tree: `{...item, depth, parentId}`. */
  datatype Entry<T> = Entry(id: string, item: T, depth: nat, parent: string)

  /** The walk's state: ids already emitted, and the output so far. */
  datatype Walk<T> = Walk(visited: set<string>, out: seq<Entry<T>>)

  /** Every id that occurs in some child list. */
  ghost function Universe<T>(ch: Kids<T>): set<string>
  {
    set p, i | p in ch && 0 <= i < |ch[p]| :: ch[p][i].id
  }

  /** `traverse(p, depth)`: walk the children of `p`. A parent with no child
      list contributes nothing. */
  function Visit<T>(ch: Kids<T>, p: string, depth: nat, visited: set<string>, out: seq<Entry<T>>): (w: Walk<T>)
    ensures visited <= w.visited <= visited + Universe(ch)
    ensures |w.out| - |out| == |w.visited| - |visited|
    ensures |out| <= |w.out| && w.out[..|out|] == out
    decreases |Universe(ch) - visited|, 1
  {
    if p in ch then VisitFrom(ch, p, 0, depth, visited, out) else Walk(visited, out)
  }

  /** The loop over the children of `p` from position `i` on. */
  function VisitFrom<T>(ch: Kids<T>, p: string, i: nat, depth: nat, visited: set<string>, out: seq<Entry<T>>): (w: Walk<T>)
    requires p in ch && i <= |ch[p]|
    ensures visited <= w.visited <= visited + Universe(ch)
    ensures |w.out| - |out| == |w.visited| - |visited|
    ensures |out| <= |w.out| && w.out[..|out|] == out
    decreases |Universe(ch) - visited|, 0, |ch[p]| - i
  {
    if i == |ch[p]| then Walk(visited, out)
    else
      var k := ch[p][i];
      if k.id in visited then VisitFrom(ch, p, i + 1, depth, visited, out)
      else
        var u := Universe(ch);
        assert k.id in u;
        assert u - (visited + {k.id}) == (u - visited) - {k.id};
        var out1 := out + [Entry(k.id, k.item, depth, p)];
        var w := Visit(ch, k.id, depth + 1, visited + {k.id}, out1);
        SubsetCard(u - w.visited, u - visited);
        var r := VisitFrom(ch, p, i + 1, depth, w.visited, w.out);
        assert out1[..|out|] == out;
        PrefixTrans(out, out1, w.out);
        PrefixTrans(out, w.out, r.out);
        r
  }

  /** The whole walk from the root with nothing visited. */
  function Flatten<T>(ch: Kids<T>): (out: seq<Entry<T>>)
    ensures |out| <= |Universe(ch)|
  {
    var w := Visit(ch, Root, 0, {}, []);
    SubsetCard(w.visited, Universe(ch));
    w.out
  }

  /** The ids of a child list, in order. */
  function Ids<T>(kids: seq<Kid<T>>): (r: seq<string>)
    ensures |r| == |kids|
    ensures forall i :: 0 <= i < |kids| ==> r[i] == kids[i].id
  {
    seq(|kids|, i requires 0 <= i < |kids| => kids[i].id)
  }

  /** Every emitted id is marked visited, and no id is emitted twice. */
  ghost predicate Emitted<T>(visited: set<string>, out: seq<Entry<T>>)
  {
    && (forall k :: 0 <= k < |out| ==> out[k].id in visited)
    && (forall a, b :: 0 <= a < b < |out| ==> out[a].id != out[b].id)
  }

  /** The entry is a child listed under its parent, carrying the record of
      the first listing of its id there. */
  ghost predicate FromList<T>(ch: Kids<T>, e: Entry<T>)
  {
    && e.parent in ch
    && var i := FindIndex(Ids(ch[e.parent]), e.id);
       0 <= i && ch[e.parent][i] == Kid(e.id, e.item)
  }

  ghost predicate AllFromLists<T>(ch: Kids<T>, out: seq<Entry<T>>)
  {
    forall k :: 0 <= k < |out| ==> FromList(ch, out[k])
  }

  /** `s[j]` is the entry `s[k]` hangs under: one level up, with the id
      `s[k]` names as parent, and nothing shallower than `s[k]` in between. */
  ghost predicate HasParentAt<T>(s: seq<Entry<T>>, j: int, k: int)
  {
    && 0 <= j < k < |s|
    && s[j].depth + 1 == s[k].depth
    && s[j].id == s[k].parent
    && forall m :: j < m < k ==> s[m].depth >= s[k].depth
  }

  /** `s[k]` sits in a pre-order listing of the subtrees below `p`, whose
      children have depth `d`. */
  ghost predicate Placed<T>(s: seq<Entry<T>>, k: int, d: nat, p: string)
    requires 0 <= k < |s|
  {
    && s[k].depth >= d
    && (s[k].depth == d ==> s[k].parent == p)
    && (s[k].depth > d ==> exists j :: HasParentAt(s, j, k))
  }

  /** `s` is a pre-order listing of subtrees hanging under `p` at depth
      `d`: top entries name `p` as parent, and every deeper entry names the
      nearest shallower entry before it, which is one level up. */
  ghost predicate Forest<T>(s: seq<Entry<T>>, d: nat, p: string)
  {
    forall k :: 0 <= k < |s| ==> Placed(s, k, d, p)
  }

  /** `s[a]` and `s[b]` are at the same depth with nothing shallower in
      between: they are siblings in the listing. */
  ghost predicate SameLevel<T>(s: seq<Entry<T>>, a: int, b: int)
    requires 0 <= a < b < |s|
  {
    s[a].depth == s[b].depth && forall m :: a < m < b ==> s[m].depth >= s[a].depth
  }

  /** Siblings share a parent and appear in the order of their first
      position in that parent's child list. */
  ghost predicate SibOrder<T>(ch: Kids<T>, s: seq<Entry<T>>)
  {
    forall a, b :: 0 <= a < b < |s| && SameLevel(s, a, b) ==>
      && s[a].parent == s[b].parent
      && s[a].parent in ch
      && FindIndex(Ids(ch[s[a].parent]), s[a].id) < FindIndex(Ids(ch[s[a].parent]), s[b].id)
  }

  /** The top entries of `s` come from position `i` or later of `p`'s list. */
  ghost predicate From<T>(ch: Kids<T>, s: seq<Entry<T>>, d: nat, p: string, i: nat)
    requires p in ch
  {
    forall a :: 0 <= a < |s| && s[a].depth == d ==> FindIndex(Ids(ch[p]), s[a].id) >= i
  }

  /** The children before position `i` have all been seen. */
  ghost predicate SeenBefore<T>(ch: Kids<T>, p: string, i: nat, visited: set<string>)
    requires p in ch && i <= |ch[p]|
  {
    forall q :: 0 <= q < i ==> ch[p][q].id in visited
  }

  lemma {:induction false} VisitEmitted<T>(ch: Kids<T>, p: string, depth: nat, visited: set<string>, out: seq<Entry<T>>)
    requires Emitted(visited, out) && AllFromLists(ch, out)
    ensures var w := Visit(ch, p, depth, visited, out);
            Emitted(w.visited, w.out) && AllFromLists(ch, w.out)
    decreases |Universe(ch) - visited|, 1
  {
    if p in ch {
      VisitFromEmitted(ch, p, 0, depth, visited, out);
    }
  }

  lemma {:induction false} VisitFromEmitted<T>(ch: Kids<T>, p: string, i: nat, depth: nat, visited: set<string>, out: seq<Entry<T>>)
    requires p in ch && i <= |ch[p]|
    requires SeenBefore(ch, p, i, visited)
    requires Emitted(visited, out) && AllFromLists(ch, out)
    ensures var w := VisitFrom(ch, p, i, depth, visited, out);
            Emitted(w.visited, w.out) && AllFromLists(ch, w.out)
    decreases |Universe(ch) - visited|, 0, |ch[p]| - i
  {
    if i < |ch[p]| {
      var k := ch[p][i];
      if k.id in visited {
        VisitFromEmitted(ch, p, i + 1, depth, visited, out);
      } else {
        var u := Universe(ch);
        assert k.id in u;
        assert u - (visited + {k.id}) == (u - visited) - {k.id};
        var e := Entry(k.id, k.item, depth, p);
        KidPosition(ch, p, i, visited);
        EmitOne(ch, visited, out, e);
        VisitEmitted(ch, k.id, depth + 1, visited + {k.id}, out + [e]);
        var w := Visit(ch, k.id, depth + 1, visited + {k.id}, out + [e]);
        SubsetCard(u - w.visited, u - visited);
        VisitFromEmitted(ch, p, i + 1, depth, w.visited, w.out);
      }
    }
  }

  /** Emitting a listed child not seen yet keeps the walk's invariant. */
  lemma EmitOne<T>(ch: Kids<T>, visited: set<string>, out: seq<Entry<T>>, e: Entry<T>)
    requires Emitted(visited, out) && AllFromLists(ch, out)
    requires e.id !in visited && FromList(ch, e)
    ensures Emitted(visited + {e.id}, out + [e]) && AllFromLists(ch, out + [e])
  {
    var s := out + [e];
    forall k | 0 <= k < |s| ensures s[k].id in visited + {e.id} && FromList(ch, s[k]) {
      if k < |out| {
        assert s[k] == out[k];
      }
    }
  }

  /** The entries of a forest are at depth `d` or deeper, and the first one
      is at depth `d`. */
  lemma ForestHead<T>(s: seq<Entry<T>>, d: nat, p: string)
    requires Forest(s, d, p) && |s| > 0
    ensures s[0].depth == d && s[0].parent == p
  {
    assert forall j :: !HasParentAt(s, j, 0);
    assert Placed(s, 0, d, p);
  }

  /** A child entry followed by its subtree and then by its later
      siblings' subtrees is again a forest. */
  lemma ForestCons<T>(e: Entry<T>, sub: seq<Entry<T>>, rest: seq<Entry<T>>, d: nat, p: string)
    requires e.depth == d && e.parent == p
    requires Forest(sub, d + 1, e.id) && Forest(rest, d, p)
    ensures Forest([e] + sub + rest, d, p)
  {
    var s := [e] + sub + rest;
    var n1 := 1 + |sub|;
    forall k | 0 <= k < |s| ensures Placed(s, k, d, p) {
      if k == 0 {
      } else if k < n1 {
        assert s[k] == sub[k - 1];
        assert Placed(sub, k - 1, d + 1, e.id);
        if sub[k - 1].depth == d + 1 {
          forall m | 0 < m < k ensures s[m].depth >= s[k].depth {
            assert s[m] == sub[m - 1];
            assert Placed(sub, m - 1, d + 1, e.id);
          }
          assert HasParentAt(s, 0, k);
        } else {
          var j :| HasParentAt(sub, j, k - 1);
          forall m | j + 1 < m < k ensures s[m].depth >= s[k].depth {
            assert s[m] == sub[m - 1];
          }
          assert HasParentAt(s, j + 1, k);
        }
      } else {
        assert s[k] == rest[k - n1];
        assert Placed(rest, k - n1, d, p);
        if rest[k - n1].depth > d {
          var j :| HasParentAt(rest, j, k - n1);
          forall m | j + n1 < m < k ensures s[m].depth >= s[k].depth {
            assert s[m] == rest[m - n1];
          }
          assert HasParentAt(s, j + n1, k);
        }
      }
    }
  }

  /** Sibling pairs inside `sub` stay sibling pairs after the shift by
      `off`, and so keep their order. */
  lemma SibShift<T>(ch: Kids<T>, pre: seq<Entry<T>>, sub: seq<Entry<T>>, post: seq<Entry<T>>)
    requires SibOrder(ch, sub)
    ensures var s := pre + sub + post;
            forall a, b :: |pre| <= a < b < |pre| + |sub| && SameLevel(s, a, b) ==>
              && s[a].parent == s[b].parent
              && s[a].parent in ch
              && FindIndex(Ids(ch[s[a].parent]), s[a].id) < FindIndex(Ids(ch[s[a].parent]), s[b].id)
  {
    var s := pre + sub + post;
    var off := |pre|;
    forall a, b | off <= a < b < off + |sub| && SameLevel(s, a, b)
      ensures && s[a].parent == s[b].parent
              && s[a].parent in ch
              && FindIndex(Ids(ch[s[a].parent]), s[a].id) < FindIndex(Ids(ch[s[a].parent]), s[b].id)
    {
      forall m | a - off < m < b - off ensures sub[m].depth >= sub[a - off].depth {
        assert s[m + off] == sub[m];
      }
      assert s[a] == sub[a - off] && s[b] == sub[b - off];
      assert SameLevel(sub, a - off, b - off);
    }
  }

  /** Nothing in a child's subtree is a sibling of anything after it. */
  lemma NoCrossSiblings<T>(e: Entry<T>, sub: seq<Entry<T>>, rest: seq<Entry<T>>, d: nat, p: string)
    requires Forest(sub, d + 1, e.id) && Forest(rest, d, p)
    ensures var s := [e] + sub + rest;
            forall a, b :: 1 <= a < 1 + |sub| <= b < |s| ==> !SameLevel(s, a, b)
  {
    var s := [e] + sub + rest;
    var n1 := 1 + |sub|;
    if |rest| > 0 {
      ForestHead(rest, d, p);
      assert s[n1] == rest[0];
    }
    forall a, b | 1 <= a < n1 <= b < |s| ensures !SameLevel(s, a, b) {
      assert s[a] == sub[a - 1];
      assert Placed(sub, a - 1, d + 1, e.id);
      if b > n1 {
        assert a < n1 < b;
      }
    }
  }

  /** The same composition keeps siblings in list order, and the top
      entries start at the child's own position. */
  lemma SibCons<T>(ch: Kids<T>, e: Entry<T>, sub: seq<Entry<T>>, rest: seq<Entry<T>>, d: nat, p: string, i: nat)
    requires p in ch && e.depth == d && e.parent == p
    requires FindIndex(Ids(ch[p]), e.id) == i
    requires Forest(sub, d + 1, e.id) && SibOrder(ch, sub)
    requires Forest(rest, d, p) && SibOrder(ch, rest) && From(ch, rest, d, p, i + 1)
    ensures SibOrder(ch, [e] + sub + rest)
    ensures From(ch, [e] + sub + rest, d, p, i)
  {
    SibConsOrder(ch, e, sub, rest, d, p, i);
    SibConsFrom(ch, e, sub, rest, d, p, i);
  }

  lemma SibConsOrder<T>(ch: Kids<T>, e: Entry<T>, sub: seq<Entry<T>>, rest: seq<Entry<T>>, d: nat, p: string, i: nat)
    requires p in ch && e.depth == d && e.parent == p
    requires FindIndex(Ids(ch[p]), e.id) == i
    requires Forest(sub, d + 1, e.id) && SibOrder(ch, sub)
    requires Forest(rest, d, p) && SibOrder(ch, rest) && From(ch, rest, d, p, i + 1)
    ensures SibOrder(ch, [e] + sub + rest)
  {
    var s := [e] + sub + rest;
    var n1 := 1 + |sub|;
    forall b | 1 <= b < n1 ensures s[b].depth > d {
      assert s[b] == sub[b - 1];
      assert Placed(sub, b - 1, d + 1, e.id);
    }
    NoCrossSiblings(e, sub, rest, d, p);
    SibShift(ch, [e], sub, rest);
    SibShift(ch, [e] + sub, rest, []);
    assert [e] + sub + rest + [] == s;
    forall a, b | 0 <= a < b < |s| && SameLevel(s, a, b)
      ensures && s[a].parent == s[b].parent
              && s[a].parent in ch
              && FindIndex(Ids(ch[s[a].parent]), s[a].id) < FindIndex(Ids(ch[s[a].parent]), s[b].id)
    {
      if a == 0 {
        assert s[b] == rest[b - n1];
        assert Placed(rest, b - n1, d, p);
        assert s[b].parent == p;
      }
    }
  }

  lemma SibConsFrom<T>(ch: Kids<T>, e: Entry<T>, sub: seq<Entry<T>>, rest: seq<Entry<T>>, d: nat, p: string, i: nat)
    requires p in ch && e.depth == d
    requires FindIndex(Ids(ch[p]), e.id) == i
    requires Forest(sub, d + 1, e.id)
    requires From(ch, rest, d, p, i + 1)
    ensures From(ch, [e] + sub + rest, d, p, i)
  {
    var s := [e] + sub + rest;
    var n1 := 1 + |sub|;
    forall b | 1 <= b < n1 ensures s[b].depth > d {
      assert s[b] == sub[b - 1];
      assert Placed(sub, b - 1, d + 1, e.id);
    }
    forall a | 0 <= a < |s| && s[a].depth == d
      ensures FindIndex(Ids(ch[p]), s[a].id) >= i
    {
      if a >= n1 {
        assert s[a] == rest[a - n1];
      }
    }
  }

  /** A child not seen yet, all of whose predecessors were, is at its
      first position in the list. */
  lemma KidPosition<T>(ch: Kids<T>, p: string, i: nat, visited: set<string>)
    requires p in ch && i < |ch[p]|
    requires SeenBefore(ch, p, i, visited) && ch[p][i].id !in visited
    ensures FindIndex(Ids(ch[p]), ch[p][i].id) == i
  {
    var ids := Ids(ch[p]);
    assert forall q :: 0 <= q < i ==> ids[..i][q] != ch[p][i].id;
    FindIndexIs(ids, ch[p][i].id, i);
  }

  /** One emitting step of the loop: the entry, its subtree, then the
      rest of the loop's output. */
  lemma EmitStep<T>(ch: Kids<T>, p: string, i: nat, e: Entry<T>, out: seq<Entry<T>>, out1: seq<Entry<T>>, out2: seq<Entry<T>>)
    requires p in ch && e.parent == p
    requires FindIndex(Ids(ch[p]), e.id) == i
    requires |out| + 1 <= |out1| <= |out2|
    requires out1[..|out| + 1] == out + [e] && out2[..|out1|] == out1
    requires Forest(out1[|out| + 1..], e.depth + 1, e.id) && SibOrder(ch, out1[|out| + 1..])
    requires Forest(out2[|out1|..], e.depth, p) && SibOrder(ch, out2[|out1|..])
    requires From(ch, out2[|out1|..], e.depth, p, i + 1)
    ensures Forest(out2[|out|..], e.depth, p) && SibOrder(ch, out2[|out|..])
    ensures From(ch, out2[|out|..], e.depth, p, i)
  {
    var sub := out1[|out| + 1..];
    var rest := out2[|out1|..];
    assert out1 == out1[..|out| + 1] + sub;
    assert out2 == out2[..|out1|] + rest;
    assert out2[|out|..] == [e] + sub + rest;
    ForestCons(e, sub, rest, e.depth, p);
    SibCons(ch, e, sub, rest, e.depth, p, i);
  }

  lemma {:induction false} VisitShape<T>(ch: Kids<T>, p: string, depth: nat, visited: set<string>, out: seq<Entry<T>>)
    ensures var w := Visit(ch, p, depth, visited, out);
            var seg := w.out[|out|..];
            Forest(seg, depth, p) && SibOrder(ch, seg)
    decreases |Universe(ch) - visited|, 1, 0, 0
  {
    if p in ch {
      VisitFromShape(ch, p, 0, depth, visited, out);
    } else {
      assert Visit(ch, p, depth, visited, out).out[|out|..] == [];
    }
  }

  lemma {:induction false} VisitFromShape<T>(ch: Kids<T>, p: string, i: nat, depth: nat, visited: set<string>, out: seq<Entry<T>>)
    requires p in ch && i <= |ch[p]|
    requires SeenBefore(ch, p, i, visited)
    ensures var w := VisitFrom(ch, p, i, depth, visited, out);
            var seg := w.out[|out|..];
            Forest(seg, depth, p) && SibOrder(ch, seg) && From(ch, seg, depth, p, i)
    decreases |Universe(ch) - visited|, 0, |ch[p]| - i, 1
  {
    if i == |ch[p]| {
      assert VisitFrom(ch, p, i, depth, visited, out).out[|out|..] == [];
    } else if ch[p][i].id in visited {
      VisitFromShape(ch, p, i + 1, depth, visited, out);
    } else {
      EmitShape(ch, p, i, depth, visited, out);
    }
  }

  /** The loop step that emits `ch[p][i]`. */
  lemma {:induction false} EmitShape<T>(ch: Kids<T>, p: string, i: nat, depth: nat, visited: set<string>, out: seq<Entry<T>>)
    requires p in ch && i < |ch[p]|
    requires SeenBefore(ch, p, i, visited) && ch[p][i].id !in visited
    ensures var w := VisitFrom(ch, p, i, depth, visited, out);
            var seg := w.out[|out|..];
            Forest(seg, depth, p) && SibOrder(ch, seg) && From(ch, seg, depth, p, i)
    decreases |Universe(ch) - visited|, 0, |ch[p]| - i, 0
  {
    var k := ch[p][i];
    var u := Universe(ch);
    assert k.id in u;
    assert u - (visited + {k.id}) == (u - visited) - {k.id};
    var e := Entry(k.id, k.item, depth, p);
    var out1 := out + [e];
    VisitShape(ch, k.id, depth + 1, visited + {k.id}, out1);
    var w1 := Visit(ch, k.id, depth + 1, visited + {k.id}, out1);
    SubsetCard(u - w1.visited, u - visited);
    KidPosition(ch, p, i, visited);
    assert SeenBefore(ch, p, i + 1, w1.visited) by {
      forall q | 0 <= q < i + 1 ensures ch[p][q].id in w1.visited {
        if q < i {
          assert ch[p][q].id in visited;
        }
      }
    }
    EmitRest(ch, p, i, depth, e, out, out1, w1);
    assert VisitFrom(ch, p, i, depth, visited, out) == VisitFrom(ch, p, i + 1, depth, w1.visited, w1.out);
  }

  /** After the entry `e` for `ch[p][i]` and its subtree are in `w1.out`,
      the rest of the loop completes the pre-order segment from `i`. */
  lemma {:induction false} EmitRest<T>(ch: Kids<T>, p: string, i: nat, depth: nat, e: Entry<T>,
                                      out: seq<Entry<T>>, out1: seq<Entry<T>>, w1: Walk<T>)
    requires p in ch && i < |ch[p]| && e == Entry(ch[p][i].id, ch[p][i].item, depth, p)
    requires FindIndex(Ids(ch[p]), ch[p][i].id) == i
    requires SeenBefore(ch, p, i + 1, w1.visited)
    requires out1 == out + [e] && |out1| <= |w1.out| && w1.out[..|out1|] == out1
    requires Forest(w1.out[|out1|..], depth + 1, ch[p][i].id) && SibOrder(ch, w1.out[|out1|..])
    ensures var w := VisitFrom(ch, p, i + 1, depth, w1.visited, w1.out);
            var seg := w.out[|out|..];
            Forest(seg, depth, p) && SibOrder(ch, seg) && From(ch, seg, depth, p, i)
    decreases |Universe(ch) - w1.visited|, 0, |ch[p]| - i - 1, 2
  {
    VisitFromShape(ch, p, i + 1, depth, w1.visited, w1.out);
    var w := VisitFrom(ch, p, i + 1, depth, w1.visited, w1.out);
    EmitStep(ch, p, i, e, out, w1.out, w.out);
  }

  /** The ids the entries of `s` carry. */
  ghost function EntryIds<T>(s: seq<Entry<T>>): set<string>
  {
    set k | 0 <= k < |s| :: s[k].id
  }

  /** Every child listed under `x`, if `x` has a list, is in `v`. */
  ghost predicate Closed<T>(ch: Kids<T>, x: string, v: set<string>)
  {
    x in ch ==> forall q :: 0 <= q < |ch[x]| ==> ch[x][q].id in v
  }

  /** An id carried by a prefix is carried by the whole. */
  lemma EntryIdsPrefix<T>(a: seq<Entry<T>>, b: seq<Entry<T>>)
    requires |a| <= |b| && b[..|a|] == a
    ensures EntryIds(a) <= EntryIds(b)
  {
    forall x | x in EntryIds(a) ensures x in EntryIds(b) {
      var k :| 0 <= k < |a| && a[k].id == x;
      assert b[k] == b[..|a|][k];
    }
  }

  /** Each id the walk from `p` newly visits was emitted, and all its
      listed children were visited too; and all of `p`'s children are
      visited when it ends. */
  lemma {:induction false} VisitCovers<T>(ch: Kids<T>, p: string, depth: nat, visited: set<string>, out: seq<Entry<T>>)
    ensures var w := Visit(ch, p, depth, visited, out);
            && Closed(ch, p, w.visited)
            && (forall x :: x in w.visited && x !in visited ==> Closed(ch, x, w.visited) && x in EntryIds(w.out))
    decreases |Universe(ch) - visited|, 1
  {
    if p in ch {
      VisitFromAll(ch, p, 0, depth, visited, out);
      VisitFromCovers(ch, p, 0, depth, visited, out);
    }
  }

  /** The loop from position `i` leaves every child from `i` on visited. */
  lemma {:induction false} VisitFromAll<T>(ch: Kids<T>, p: string, i: nat, depth: nat, visited: set<string>, out: seq<Entry<T>>)
    requires p in ch && i <= |ch[p]|
    ensures var w := VisitFrom(ch, p, i, depth, visited, out);
            forall q :: i <= q < |ch[p]| ==> ch[p][q].id in w.visited
    decreases |ch[p]| - i
  {
    if i < |ch[p]| {
      var k := ch[p][i];
      if k.id in visited {
        VisitFromAll(ch, p, i + 1, depth, visited, out);
      } else {
        var out1 := out + [Entry(k.id, k.item, depth, p)];
        var w1 := Visit(ch, k.id, depth + 1, visited + {k.id}, out1);
        VisitFromAll(ch, p, i + 1, depth, w1.visited, w1.out);
        assert VisitFrom(ch, p, i, depth, visited, out) == VisitFrom(ch, p, i + 1, depth, w1.visited, w1.out);
      }
    }
  }

  lemma {:induction false} VisitFromCovers<T>(ch: Kids<T>, p: string, i: nat, depth: nat, visited: set<string>, out: seq<Entry<T>>)
    requires p in ch && i <= |ch[p]|
    ensures var w := VisitFrom(ch, p, i, depth, visited, out);
            forall x :: x in w.visited && x !in visited ==> Closed(ch, x, w.visited) && x in EntryIds(w.out)
    decreases |Universe(ch) - visited|, 0, |ch[p]| - i
  {
    if i < |ch[p]| {
      var k := ch[p][i];
      if k.id in visited {
        VisitFromCovers(ch, p, i + 1, depth, visited, out);
      } else {
        var u := Universe(ch);
        assert k.id in u;
        assert u - (visited + {k.id}) == (u - visited) - {k.id};
        var out1 := out + [Entry(k.id, k.item, depth, p)];
        var w1 := Visit(ch, k.id, depth + 1, visited + {k.id}, out1);
        SubsetCard(u - w1.visited, u - visited);
        VisitCovers(ch, k.id, depth + 1, visited + {k.id}, out1);
        VisitFromCovers(ch, p, i + 1, depth, w1.visited, w1.out);
        var r := VisitFrom(ch, p, i + 1, depth, w1.visited, w1.out);
        assert r == VisitFrom(ch, p, i, depth, visited, out);
        assert k.id in EntryIds(out1) by {
          assert out1[|out|].id == k.id;
        }
        EntryIdsPrefix(out1, w1.out);
        EntryIdsPrefix(w1.out, r.out);
        CoversStep(ch, visited, k.id, w1.visited, EntryIds(w1.out), r.visited, EntryIds(r.out));
      }
    }
  }

  /** The bookkeeping of one emitting step: what the child's walk
      covered, and what the rest of the loop covered, together cover what
      both added. */
  lemma CoversStep<T>(ch: Kids<T>, v0: set<string>, k: string, v1: set<string>, e1: set<string>,
                      v2: set<string>, e2: set<string>)
    requires v1 <= v2 && e1 <= e2 && k in v1 && k in e1
    requires Closed(ch, k, v1)
    requires forall x :: x in v1 && x !in v0 + {k} ==> Closed(ch, x, v1) && x in e1
    requires forall x :: x in v2 && x !in v1 ==> Closed(ch, x, v2) && x in e2
    ensures forall x :: x in v2 && x !in v0 ==> Closed(ch, x, v2) && x in e2
  {
    forall x | x in v2 && x !in v0 ensures Closed(ch, x, v2) && x in e2 {
      if x in v1 {
        assert Closed(ch, x, v1);
      }
    }
  }

  /** The walk from the root misses nothing it can reach: every child
      listed under the root, and every child listed under an emitted id, is
      itself emitted. */
  lemma FlattenComplete<T>(ch: Kids<T>)
    ensures var out := Flatten(ch);
            && (Root in ch ==> forall q :: 0 <= q < |ch[Root]| ==> ch[Root][q].id in EntryIds(out))
            && (forall j, q :: 0 <= j < |out| && out[j].id in ch && 0 <= q < |ch[out[j].id]| ==>
                  ch[out[j].id][q].id in EntryIds(out))
  {
    var w := Visit(ch, Root, 0, {}, []);
    VisitCovers(ch, Root, 0, {}, []);
    VisitEmitted(ch, Root, 0, {}, []);
    forall j, q | 0 <= j < |w.out| && w.out[j].id in ch && 0 <= q < |ch[w.out[j].id]|
      ensures ch[w.out[j].id][q].id in EntryIds(w.out)
    {
      assert w.out[j].id in w.visited;
      assert Closed(ch, w.out[j].id, w.visited);
    }
  }

  /** The walk from the root, whatever the child lists hold (cycles, shared
      children, dangling ids): no id twice, every entry a listed child of its
      parent with that child's record, a pre-order forest under the root with
      siblings in list order, and at most one entry per listed id; and
      every child listed under the root or under an emitted id is emitted. */
  lemma FlattenShape<T>(ch: Kids<T>)
    ensures var out := Flatten(ch);
            && |out| <= |Universe(ch)|
            && (forall a, b :: 0 <= a < b < |out| ==> out[a].id != out[b].id)
            && AllFromLists(ch, out)
            && Forest(out, 0, Root)
            && SibOrder(ch, out)
            && (Root in ch ==> forall q :: 0 <= q < |ch[Root]| ==> ch[Root][q].id in EntryIds(out))
            && (forall j, q :: 0 <= j < |out| && out[j].id in ch && 0 <= q < |ch[out[j].id]| ==>
                  ch[out[j].id][q].id in EntryIds(out))
  {
    FlattenComplete(ch);
    VisitEmitted(ch, Root, 0, {}, []);
    VisitShape(ch, Root, 0, {}, []);
    var w := Visit(ch, Root, 0, {}, []);
    assert w.out[0..] == w.out;
  }
}
