/** The move dialog of the plan tree: the ancestry check that keeps a node
    from being moved under itself, the two option lists it offers (new
    parents and reference siblings), and the request it submits. It works on
    the flat list `buildFlatTreeV2` produces, where a node's id is its
    record's `id` and its parent is the `parentId` the walk added. */
module MoveForm {
  import opened Common
  import opened NodeTypes
  import opened PreOrder
  import StructureUtils

  /** A flat-list node's `id`: the id in its record. */
  function NodeId(e: Entry<NodeData>): string
  {
    e.item.id
  }

  /** The ids of the list, in order. */
  function NodeIds(nodes: seq<Entry<NodeData>>): (r: seq<string>)
    ensures |r| == |nodes|
    ensures forall i :: 0 <= i < |nodes| ==> r[i] == NodeId(nodes[i])
  {
    seq(|nodes|, i requires 0 <= i < |nodes| => NodeId(nodes[i]))
  }

  /** How a loop of the source ends: with a value, or never. */
  datatype Outcome = Returns(b: bool) | Loops

  /** One turn of the ancestry loop: the parent of the first node with id
      `x`, or `None` where the loop stops (`x` falsy, the root, or not
      found). */
  function Step(nodes: seq<Entry<NodeData>>, x: Option<string>): Option<string>
  {
    if !Truthy(x) || x.value == Root then None
    else
      var i := FindIndex(NodeIds(nodes), x.value);
      if i < 0 then None else Some(nodes[i].parent)
  }

  /** The id `n` turns up the parent chain from `x`. */
  function Up(nodes: seq<Entry<NodeData>>, x: Option<string>, n: nat): Option<string>
    decreases n
  {
    if n == 0 then x else Up(nodes, Step(nodes, x), n - 1)
  }

  /** `src` turns up some number of steps up the chain from `x`. */
  ghost predicate Reaches(nodes: seq<Entry<NodeData>>, x: Option<string>, src: string)
  {
    exists n: nat :: Up(nodes, x, n) == Some(src)
  }

  /** The `while` loop of `isDescendant`, allowed `fuel` lookups; running out
      of fuel stands for a loop that never ends. */
  function Chase(src: string, cur: Option<string>, nodes: seq<Entry<NodeData>>, fuel: nat): Outcome
    decreases fuel
  {
    if !Truthy(cur) || cur.value == Root then Returns(false)
    else if cur.value == src then Returns(true)
    else
      var i := FindIndex(NodeIds(nodes), cur.value);
      if i < 0 then Returns(false)
      else if fuel == 0 then Loops
      else Chase(src, Some(nodes[i].parent), nodes, fuel - 1)
  }

  /** `isDescendant(sourceId, targetParentId, allNodes)`: whether
      `sourceId` lies on the parent chain that starts at `targetParentId`.
      A falsy or root target is never below anything, and a node is below
      itself. */
  function IsDescendant(src: string, t: Option<string>, nodes: seq<Entry<NodeData>>): (r: Outcome)
    ensures !Truthy(t) || t.value == Root ==> r == Returns(false)
    ensures Truthy(t) && t.value != Root && t.value == src ==> r == Returns(true)
  {
    if !Truthy(t) || t.value == Root then Returns(false)
    else Chase(src, t, nodes, |nodes|)
  }

  /** Every non-root parent names a node listed earlier: the parent chain
      only ever moves towards the front of the list. */
  ghost predicate ParentsFirst(nodes: seq<Entry<NodeData>>)
  {
    forall k :: 0 <= k < |nodes| ==> ParentEarlier(nodes, k)
  }

  /** The parent of the `k`-th entry is the root or is listed before it. */
  ghost predicate ParentEarlier(nodes: seq<Entry<NodeData>>, k: int)
    requires 0 <= k < |nodes|
  {
    nodes[k].parent != Root ==> exists j :: 0 <= j < k && NodeId(nodes[j]) == nodes[k].parent
  }

  /** The first position of an id is at most any position holding it. */
  lemma FindIndexAtMost(s: seq<string>, x: string, j: int)
    requires 0 <= j < |s| && s[j] == x
    ensures 0 <= FindIndex(s, x) <= j
  {
    var i := FindIndex(s, x);
    assert forall q :: 0 <= q < i ==> s[..i][q] == s[q];
  }

  /** On a parents-first list a node's parent is found strictly before it. */
  lemma ParentFoundEarlier(nodes: seq<Entry<NodeData>>, i: nat)
    requires ParentsFirst(nodes) && i < |nodes|
    requires nodes[i].parent != Root
    ensures FindIndex(NodeIds(nodes), nodes[i].parent) < i
  {
    assert ParentEarlier(nodes, i);
    var j :| 0 <= j < i && NodeId(nodes[j]) == nodes[i].parent;
    FindIndexAtMost(NodeIds(nodes), nodes[i].parent, j);
  }

  /** On a parents-first list each lookup lands strictly nearer the front,
      so the lookups the loop is allowed always suffice. */
  lemma {:induction false} ChaseEnds(src: string, cur: Option<string>, nodes: seq<Entry<NodeData>>, fuel: nat)
    requires ParentsFirst(nodes)
    requires Truthy(cur) && cur.value != Root ==> FindIndex(NodeIds(nodes), cur.value) < fuel
    ensures Chase(src, cur, nodes, fuel) != Loops
    decreases fuel
  {
    if Truthy(cur) && cur.value != Root && cur.value != src {
      var i := FindIndex(NodeIds(nodes), cur.value);
      if 0 <= i {
        var p := nodes[i].parent;
        var f1: nat := fuel - 1;
        assert Chase(src, cur, nodes, fuel) == Chase(src, Some(p), nodes, f1);
        if p != Root {
          ParentFoundEarlier(nodes, i);
        }
        ChaseEnds(src, Some(p), nodes, f1);
      }
    }
  }

  /** On a parents-first list `isDescendant` always returns. */
  lemma IsDescendantEnds(src: string, t: Option<string>, nodes: seq<Entry<NodeData>>)
    requires ParentsFirst(nodes)
    ensures IsDescendant(src, t, nodes) != Loops
  {
    if Truthy(t) && t.value != Root {
      ChaseEnds(src, t, nodes, |nodes|);
    }
  }

  lemma {:induction false} UpNone(nodes: seq<Entry<NodeData>>, n: nat)
    ensures Up(nodes, None, n) == None
  {
    if n > 0 {
      UpNone(nodes, n - 1);
    }
  }

  /** When the loop returns, it says yes exactly when `src` is reached some
      number of turns up the chain. */
  lemma {:induction false} ChaseIff(src: string, cur: Option<string>, nodes: seq<Entry<NodeData>>, fuel: nat)
    requires src != "" && src != Root
    requires Chase(src, cur, nodes, fuel) != Loops
    ensures Chase(src, cur, nodes, fuel) == Returns(true) <==> Reaches(nodes, cur, src)
    decreases fuel
  {
    if Truthy(cur) && cur.value != Root && cur.value != src {
      var i := FindIndex(NodeIds(nodes), cur.value);
      if 0 <= i {
        var next := Some(nodes[i].parent);
        var f1: nat := fuel - 1;
        assert Chase(src, cur, nodes, fuel) == Chase(src, next, nodes, f1);
        ChaseIff(src, next, nodes, f1);
        assert Step(nodes, cur) == next;
        assert Reaches(nodes, cur, src) ==> Reaches(nodes, next, src) by {
          if Reaches(nodes, cur, src) {
            var n: nat :| Up(nodes, cur, n) == Some(src);
            assert n > 0;
            assert Up(nodes, next, n - 1) == Some(src);
          }
        }
        assert Reaches(nodes, next, src) ==> Reaches(nodes, cur, src) by {
          if Reaches(nodes, next, src) {
            var n: nat :| Up(nodes, next, n) == Some(src);
            assert Up(nodes, cur, n + 1) == Some(src);
          }
        }
      } else {
        assert Step(nodes, cur) == None;
        forall n: nat ensures Up(nodes, cur, n) != Some(src) {
          if n > 0 {
            UpNone(nodes, n - 1);
          }
        }
        assert Chase(src, cur, nodes, fuel) == Returns(false);
      }
    } else if !(Truthy(cur) && cur.value == src) {
      assert Step(nodes, cur) == None;
      forall n: nat ensures Up(nodes, cur, n) != Some(src) {
        if n > 0 {
          UpNone(nodes, n - 1);
        }
      }
    } else {
      assert Up(nodes, cur, 0) == Some(src);
    }
  }

  /** Whenever the loop ends, `isDescendant(src, t)` holds exactly when
      `src` is on the parent chain from `t`. */
  lemma IsDescendantIff(src: string, t: Option<string>, nodes: seq<Entry<NodeData>>)
    requires IsDescendant(src, t, nodes) != Loops
    requires src != "" && src != Root
    ensures IsDescendant(src, t, nodes) == Returns(true) <==> Reaches(nodes, t, src)
  {
    if Truthy(t) && t.value != Root {
      ChaseIff(src, t, nodes, |nodes|);
    } else {
      assert Step(nodes, t) == None;
      forall n: nat ensures Up(nodes, t, n) != Some(src) {
        if n > 0 {
          UpNone(nodes, n - 1);
        }
      }
    }
  }

  /** The flat tree built from a record map keyed by id is parents-first,
      so the dialog's ancestry check always returns on it. */
  lemma FlatTreeParentsFirst(structure: map<string, seq<string>>, nodeMap: map<string, NodeData>)
    requires DataKeyed(nodeMap)
    ensures ParentsFirst(StructureUtils.BuildFlatTreeV2(structure, nodeMap))
  {
    var out := StructureUtils.BuildFlatTreeV2(structure, nodeMap);
    StructureUtils.FlatTreeV2Shape(structure, nodeMap);
    forall k | 0 <= k < |out| ensures ParentEarlier(out, k) {
      if out[k].parent != Root {
        assert Placed(out, k, 0, Root);
        var j :| HasParentAt(out, j, k);
        assert out[j].item == nodeMap[out[j].id];
      }
    }
  }

  /** `validParents` for the chosen node `target`: nothing without a
      target; otherwise the PROCESS nodes other than the target that do not
      lie below it. */
  function ValidParents(nodes: seq<Entry<NodeData>>, target: string): (r: seq<Entry<NodeData>>)
    requires target != "" ==> Ends(nodes, nodes, target)
    ensures target == "" ==> r == []
    ensures Subseq(r, nodes)
    ensures forall e :: e in r <==>
              && target != "" && e in nodes && NodeId(e) != target
              && IsDescendant(target, Some(NodeId(e)), nodes) == Returns(false)
              && e.item.kind == Process
  {
    if target == "" then [] else KeepParents(nodes, nodes, target)
  }

  /** The filter of `validParents` over a suffix `rest` of the list. */
  function KeepParents(nodes: seq<Entry<NodeData>>, rest: seq<Entry<NodeData>>, target: string): (r: seq<Entry<NodeData>>)
    requires Ends(nodes, rest, target)
    ensures forall e :: e in r <==>
              && e in rest && NodeId(e) != target
              && IsDescendant(target, Some(NodeId(e)), nodes) == Returns(false)
              && e.item.kind == Process
    ensures Subseq(r, rest)
  {
    if |rest| == 0 then []
    else
      var e := rest[0];
      var tail := KeepParents(nodes, rest[1..], target);
      assert forall x :: x in rest <==> x == e || x in rest[1..];
      if NodeId(e) == target then tail
      else if IsDescendant(target, Some(NodeId(e)), nodes) == Returns(true) then tail
      else if e.item.kind != Process then tail
      else
        assert ([e] + tail)[1..] == tail;
        [e] + tail
  }

  /** The ancestry check from `target` ends for every node of `rest`: the
      condition under which the filter of `validParents` finishes. */
  predicate Ends(nodes: seq<Entry<NodeData>>, rest: seq<Entry<NodeData>>, target: string)
  {
    forall e :: e in rest ==> IsDescendant(target, Some(NodeId(e)), nodes) != Loops
  }

  /** On a parents-first list, such as the flat tree, the filter always
      finishes. */
  lemma ParentsFirstEnds(nodes: seq<Entry<NodeData>>, target: string)
    requires ParentsFirst(nodes)
    ensures Ends(nodes, nodes, target)
  {
    forall e | e in nodes ensures IsDescendant(target, Some(NodeId(e)), nodes) != Loops {
      IsDescendantEnds(target, Some(NodeId(e)), nodes);
    }
  }

  /** A list where some node's ancestry check from `target` loops has no
      `validParents`: the source never finishes that filter. A two-node
      cycle shows the case is real. */
  lemma CycleNeverEnds()
    ensures var a := Entry("a", NodeData("a", Process, "A", None, None, None, None, None), 0, "b");
            var b := Entry("b", NodeData("b", Process, "B", None, None, None, None, None), 0, "a");
            IsDescendant("t", Some("a"), [a, b]) == Loops
  {
    var a := Entry("a", NodeData("a", Process, "A", None, None, None, None, None), 0, "b");
    var b := Entry("b", NodeData("b", Process, "B", None, None, None, None, None), 0, "a");
    var ids := NodeIds([a, b]);
    assert ids == ["a", "b"];
    assert FindIndex(ids, "a") == 0;
    assert FindIndex(ids, "b") == 1 by {
      assert ids[1..] == ["b"];
    }
    assert Chase("t", Some("b"), [a, b], 1) == Chase("t", Some("a"), [a, b], 0) == Loops;
  }

  /** A listed parent is never the target or a node below it, in terms of
      the parent chain. */
  lemma ValidParentNotBelow(nodes: seq<Entry<NodeData>>, target: string, e: Entry<NodeData>)
    requires target != "" ==> Ends(nodes, nodes, target)
    requires target != Root
    requires e in ValidParents(nodes, target)
    ensures forall n: nat :: Up(nodes, Some(NodeId(e)), n) != Some(target)
  {
    IsDescendantIff(target, Some(NodeId(e)), nodes);
  }

  /** `siblings` for the chosen parent: the nodes whose `parentId` is that
      parent, without the target, in list order. */
  function Siblings(nodes: seq<Entry<NodeData>>, parentId: string, target: string): (r: seq<Entry<NodeData>>)
    ensures |r| <= |nodes|
    ensures forall e :: e in r <==> e in nodes && e.parent == parentId && NodeId(e) != target
    ensures Subseq(r, nodes)
  {
    if |nodes| == 0 then []
    else
      var tail := Siblings(nodes[1..], parentId, target);
      assert forall x :: x in nodes <==> x == nodes[0] || x in nodes[1..];
      if nodes[0].parent == parentId && NodeId(nodes[0]) != target then
        assert ([nodes[0]] + tail)[1..] == tail;
        [nodes[0]] + tail
      else tail
  }

  /** On a list without repeats, such as the flat tree, the sibling
      options keep the list's order. */
  lemma SiblingsInListOrder(nodes: seq<Entry<NodeData>>, parentId: string, target: string)
    requires NoDup(nodes)
    ensures var r := Siblings(nodes, parentId, target);
            forall i, j :: 0 <= i < j < |r| ==> FindIndex(nodes, r[i]) < FindIndex(nodes, r[j])
  {
    SubseqFollowsOrder(Siblings(nodes, parentId, target), nodes);
  }

  /** Where the moved node goes relative to its new siblings. */
  datatype Position = First | Last | Before | After

  /** What submitting the dialog does. */
  datatype Submission =
    | NeedTarget
    | MoveRequest(target: string, parent: Option<string>, position: Position, reference: string)

  /** `handleSubmit`: without a chosen node only the alert; otherwise the
      move request, with the root choice sent as a `null` parent. */
  function Submit(target: string, parentId: string, position: Position, reference: string): (r: Submission)
    ensures r.NeedTarget? <==> target == ""
    ensures r.MoveRequest? ==> r.target == target && r.position == position && r.reference == reference
    ensures r.MoveRequest? ==> (r.parent.None? <==> parentId == Root)
    ensures r.MoveRequest? && r.parent.Some? ==> r.parent.value == parentId
  {
    if target == "" then NeedTarget
    else MoveRequest(target, if parentId == Root then None else Some(parentId), position, reference)
  }

  /** The parent a request names, with `null` read back as `'root'`, as
      `siblings` and the tree's grouping read a parent. */
  function RequestedParent(parent: Option<string>): string
  {
    match parent
    case Some(p) => p
    case None => Root
  }

  /** Submitting loses nothing: with a target chosen, a request is sent and
      its parent, read back with `null` as `'root'`, is the dialog's
      choice. */
  lemma SubmitRoundTrip(target: string, parentId: string, position: Position, reference: string)
    requires target != ""
    ensures var r := Submit(target, parentId, position, reference);
            r.MoveRequest? && RequestedParent(r.parent) == parentId
  {
  }
}
