/** `usePlanNodes`: the v1 editor's node map (`planNodes`, keyed by node
    id) and the three edits the hook exposes, plus the node list it
    publishes. Each edit is one transaction, so each is one function from
    the map before to the map after. */
module PlanNodes {
  import opened Common
  import opened NodeTypes
  import opened Sorting

  /** The optional fields `addNode` overlays on the new node. */
  datatype Extra = Extra(locationId: Option<string>, startTime: Option<string>)

  /** The largest `displayOrder` among the nodes whose parent is `parentId`,
      or `None` when there is no such node. */
  function MaxSiblingOrder(nodes: seq<PlanNode>, parentId: Option<string>): (r: Option<int>)
    ensures r.None? <==> forall i :: 0 <= i < |nodes| ==> nodes[i].parentId != parentId
    ensures r.Some? ==>
              forall i :: 0 <= i < |nodes| && nodes[i].parentId == parentId ==> nodes[i].displayOrder <= r.value
    ensures r.Some? ==>
              exists i :: 0 <= i < |nodes| && nodes[i].parentId == parentId && nodes[i].displayOrder == r.value
  {
    if |nodes| == 0 then None
    else
      var rest := MaxSiblingOrder(nodes[1..], parentId);
      if nodes[0].parentId != parentId then
        assert forall i :: 1 <= i < |nodes| ==> nodes[i] == nodes[1..][i - 1];
        rest
      else if rest.None? || rest.value <= nodes[0].displayOrder then
        assert forall i :: 1 <= i < |nodes| ==> nodes[i] == nodes[1..][i - 1];
        Some(nodes[0].displayOrder)
      else
        assert forall i :: 1 <= i < |nodes| ==> nodes[i] == nodes[1..][i - 1];
        assert exists i :: 0 <= i < |nodes[1..]| && nodes[1..][i].parentId == parentId
                           && nodes[1..][i].displayOrder == rest.value;
        rest
  }

  /** The order a new child of `parentId` gets: the largest sibling order
      plus 1000, or 1000 when the parent has no child yet. */
  function NewOrder(m: map<string, PlanNode>, order: seq<string>, parentId: Option<string>): int
    requires Enumerates(order, m.Keys)
  {
    match MaxSiblingOrder(NodesInOrder(m, order), parentId)
    case None => 0 + 1000
    case Some(mx) => mx + 1000
  }

  /** `addNode(parentId, type, name, extraData)` with `id` the fresh UUID
      the hook draws: exactly one new key, holding a node with no time, the
      extra fields laid over it, and an order past every sibling's. */
  function AddNode(m: map<string, PlanNode>, order: seq<string>, id: string,
                   parentId: Option<string>, kind: NodeType, name: string, extra: Extra): (r: map<string, PlanNode>)
    requires id !in m
    requires Enumerates(order, m.Keys)
    ensures r.Keys == m.Keys + {id}
    ensures forall k :: k in m ==> r[k] == m[k]
    ensures && r[id].id == id && r[id].parentId == parentId && r[id].kind == kind && r[id].name == name
            && r[id].timeType == NoTime && r[id].locationId == extra.locationId
            && r[id].startTime == extra.startTime
            && r[id].description.None? && r[id].endTime.None? && r[id].duration.None?
    ensures forall k :: k in m && m[k].parentId == parentId ==> m[k].displayOrder + 1000 <= r[id].displayOrder
    ensures (forall k :: k in m ==> m[k].parentId != parentId) ==> r[id].displayOrder == 1000
  {
    var nodes := NodesInOrder(m, order);
    forall k | k in m && m[k].parentId == parentId
      ensures m[k].displayOrder + 1000 <= NewOrder(m, order, parentId)
    {
      var i :| 0 <= i < |order| && order[i] == k;
      assert nodes[i] == m[k];
    }
    var n := PlanNode(id, parentId, kind, name, NewOrder(m, order, parentId), None, NoTime,
                      extra.startTime, None, None, extra.locationId);
    m[id := n]
  }

  /** When the parent already has children, the new order is exactly 1000
      past the largest of theirs. */
  lemma AddNodeOrderIsMaxPlus(m: map<string, PlanNode>, order: seq<string>, id: string,
                              parentId: Option<string>, kind: NodeType, name: string, extra: Extra)
    requires id !in m
    requires Enumerates(order, m.Keys)
    requires exists k :: k in m && m[k].parentId == parentId
    ensures var r := AddNode(m, order, id, parentId, kind, name, extra);
            exists k :: k in m && m[k].parentId == parentId && r[id].displayOrder == m[k].displayOrder + 1000
  {
    var k := NewOrderFromSibling(m, order, parentId);
    assert AddNode(m, order, id, parentId, kind, name, extra)[id].displayOrder == NewOrder(m, order, parentId);
  }

  /** A sibling whose order the new order is 1000 past. */
  lemma NewOrderFromSibling(m: map<string, PlanNode>, order: seq<string>, parentId: Option<string>) returns (k: string)
    requires Enumerates(order, m.Keys)
    requires exists k :: k in m && m[k].parentId == parentId
    ensures k in m && m[k].parentId == parentId && NewOrder(m, order, parentId) == m[k].displayOrder + 1000
  {
    var nodes := NodesInOrder(m, order);
    var k0 :| k0 in m && m[k0].parentId == parentId;
    var i0 :| 0 <= i0 < |order| && order[i0] == k0;
    assert nodes[i0].parentId == parentId;
    var i :| 0 <= i < |nodes| && nodes[i].parentId == parentId
             && nodes[i].displayOrder == MaxSiblingOrder(nodes, parentId).value;
    k := order[i];
  }

  /** The result does not depend on the order in which the map is read. */
  lemma AddNodeOrderIndependent(m: map<string, PlanNode>, o1: seq<string>, o2: seq<string>, id: string,
                                parentId: Option<string>, kind: NodeType, name: string, extra: Extra)
    requires id !in m
    requires Enumerates(o1, m.Keys) && Enumerates(o2, m.Keys)
    ensures AddNode(m, o1, id, parentId, kind, name, extra) == AddNode(m, o2, id, parentId, kind, name, extra)
  {
    var r1 := AddNode(m, o1, id, parentId, kind, name, extra);
    var r2 := AddNode(m, o2, id, parentId, kind, name, extra);
    if exists k :: k in m && m[k].parentId == parentId {
      AddNodeOrderIsMaxPlus(m, o1, id, parentId, kind, name, extra);
      AddNodeOrderIsMaxPlus(m, o2, id, parentId, kind, name, extra);
      var k1 :| k1 in m && m[k1].parentId == parentId && r1[id].displayOrder == m[k1].displayOrder + 1000;
      var k2 :| k2 in m && m[k2].parentId == parentId && r2[id].displayOrder == m[k2].displayOrder + 1000;
      assert r1[id].displayOrder == r2[id].displayOrder;
    }
    assert r1[id] == r2[id];
  }

  /** A new node is stored under its own id, so a keyed map stays keyed. */
  lemma AddNodeKeepsKeyed(m: map<string, PlanNode>, order: seq<string>, id: string,
                          parentId: Option<string>, kind: NodeType, name: string, extra: Extra)
    requires NodesKeyed(m) && id !in m
    requires Enumerates(order, m.Keys)
    ensures NodesKeyed(AddNode(m, order, id, parentId, kind, name, extra))
  {
  }

  /** `x` hangs below `id`: `x` is a stored node whose parent is `id`, or
      (with `n` steps to spare) a stored node whose parent hangs below `id`. */
  ghost predicate Below(m: map<string, PlanNode>, x: string, id: string, n: nat)
    decreases n
  {
    && x in m && m[x].parentId.Some?
    && (m[x].parentId.value == id || (n > 0 && Below(m, m[x].parentId.value, id, n - 1)))
  }

  /** `x` is reachable from `id` through `parentId` links of stored nodes. */
  ghost predicate Descends(m: map<string, PlanNode>, x: string, id: string)
  {
    exists n: nat :: Below(m, x, id, n)
  }

  /** The ids of the stored nodes whose parent is `id`, in read order:
      `allNodes.filter(n => n.parentId === id)`, then `child.id`. */
  function ChildIds(cur: map<string, PlanNode>, order: seq<string>, id: string): (kids: seq<string>)
    requires NodesKeyed(cur)
    ensures forall j :: 0 <= j < |kids| ==> kids[j] in cur && cur[kids[j]].parentId == Some(id)
    ensures forall k :: k in cur && k in order && cur[k].parentId == Some(id) ==> k in kids
  {
    if |order| == 0 then []
    else
      var rest := ChildIds(cur, order[1..], id);
      if order[0] in cur && cur[order[0]].parentId == Some(id) then [cur[order[0]].id] + rest else rest
  }

  /** Twice the number of stored nodes, plus one when `id` is absent: every
      recursive call of `deleteRecursively` lowers it. */
  function Measure(cur: map<string, PlanNode>, id: string): nat
  {
    2 * |cur| + (if id in cur then 0 else 1)
  }

  /** `cur` holds a subset of the entries of `big`. */
  ghost predicate SubMap(cur: map<string, PlanNode>, big: map<string, PlanNode>)
  {
    forall k :: k in cur ==> k in big && cur[k] == big[k]
  }

  lemma MeasureShrinks(small: map<string, PlanNode>, big: map<string, PlanNode>, x: string)
    requires small.Keys <= big.Keys
    ensures Measure(small, x) <= Measure(big, x)
  {
    SubsetCard(small.Keys, big.Keys);
    if x !in small && x in big {
      SubsetCard(small.Keys, big.Keys - {x});
    }
  }

  lemma BoundKept(small: map<string, PlanNode>, big: map<string, PlanNode>, kids: seq<string>, i: nat, bound: nat)
    requires small.Keys <= big.Keys
    requires forall j :: i <= j < |kids| ==> Measure(big, kids[j]) < bound
    ensures forall j :: i <= j < |kids| ==> Measure(small, kids[j]) < bound
  {
    forall j | i <= j < |kids| ensures Measure(small, kids[j]) < bound {
      MeasureShrinks(small, big, kids[j]);
    }
  }

  /** After `id` itself is gone, each listed child still lowers the measure. */
  lemma KidsBelowMeasure(cur: map<string, PlanNode>, order: seq<string>, id: string)
    requires NodesKeyed(cur)
    ensures var kids := ChildIds(cur, order, id);
            forall j :: 0 <= j < |kids| ==> Measure(cur - {id}, kids[j]) < Measure(cur, id)
  {
    var kids := ChildIds(cur, order, id);
    var m1 := cur - {id};
    if id in cur {
      assert m1.Keys == cur.Keys - {id};
    } else {
      assert m1 == cur;
    }
    forall j | 0 <= j < |kids| ensures Measure(m1, kids[j]) < Measure(cur, id) {
      MeasureShrinks(m1, cur, kids[j]);
    }
  }

  /** `deleteRecursively(id)`: list `id`'s children, remove `id` if it is
      stored, then recurse on each listed child in turn. */
  function DeleteRec(cur: map<string, PlanNode>, order: seq<string>, id: string): (r: map<string, PlanNode>)
    requires NodesKeyed(cur) && forall k :: k in cur ==> k in order
    ensures id !in r
    ensures SubMap(r, cur)
    decreases Measure(cur, id), 1, 0
  {
    var kids := ChildIds(cur, order, id);
    KidsBelowMeasure(cur, order, id);
    DeleteEach(cur - {id}, order, kids, 0, Measure(cur, id))
  }

  /** `children.forEach(child => deleteRecursively(child.id))` from the
      `i`-th child on; `bound` is the measure of the enclosing call. */
  function DeleteEach(cur: map<string, PlanNode>, order: seq<string>, kids: seq<string>, i: nat, bound: nat)
    : (r: map<string, PlanNode>)
    requires NodesKeyed(cur) && forall k :: k in cur ==> k in order
    requires i <= |kids|
    requires forall j :: i <= j < |kids| ==> Measure(cur, kids[j]) < bound
    ensures SubMap(r, cur)
    decreases bound, 0, |kids| - i
  {
    if i == |kids| then cur
    else
      var next := DeleteRec(cur, order, kids[i]);
      BoundKept(next, cur, kids, i + 1, bound);
      DeleteEach(next, order, kids, i + 1, bound)
  }

  /** `deleteNode(nodeId)`. */
  function DeleteNode(m: map<string, PlanNode>, order: seq<string>, id: string): (r: map<string, PlanNode>)
    requires NodesKeyed(m) && Enumerates(order, m.Keys)
    ensures id !in r
    ensures SubMap(r, m)
  {
    DeleteRec(m, order, id)
  }

  /** A reach through a smaller map is a reach through a larger one. */
  lemma {:induction false} BelowGrows(small: map<string, PlanNode>, big: map<string, PlanNode>, x: string, id: string, n: nat)
    requires SubMap(small, big) && Below(small, x, id, n)
    ensures Below(big, x, id, n)
    decreases n
  {
    if small[x].parentId.value != id {
      BelowGrows(small, big, small[x].parentId.value, id, n - 1);
    }
  }

  /** Below a child of `p` is below `p`, one step further. */
  lemma {:induction false} BelowExtends(m: map<string, PlanNode>, x: string, c: string, p: string, n: nat)
    requires Below(m, x, c, n) && c in m && m[c].parentId == Some(p)
    ensures Below(m, x, p, n + 1)
    decreases n
  {
    var q := m[x].parentId.value;
    if q != c {
      BelowExtends(m, q, c, p, n - 1);
    }
  }

  /** What one `deleteRecursively(id)` call leaves: no survivor hangs
      directly below `id` or below a node the call removed, and every
      removed node is `id` or hangs below it. */
  lemma {:induction false} DeleteRecSpec(cur: map<string, PlanNode>, order: seq<string>, id: string)
    requires NodesKeyed(cur) && forall k :: k in cur ==> k in order
    ensures var r := DeleteRec(cur, order, id);
            && (forall k :: k in r ==> r[k].parentId != Some(id))
            && (forall k :: k in r && r[k].parentId.Some? && r[k].parentId.value in cur ==> r[k].parentId.value in r)
            && (forall x :: x in cur && x !in r ==> x == id || Descends(cur, x, id))
    decreases Measure(cur, id), 1, 0
  {
    var kids := ChildIds(cur, order, id);
    var m1 := cur - {id};
    KidsBelowMeasure(cur, order, id);
    var r := DeleteEach(m1, order, kids, 0, Measure(cur, id));
    assert r == DeleteRec(cur, order, id);
    assert SubMap(m1, cur);
    DeleteEachSpec(m1, order, kids, 0, Measure(cur, id), cur, id);
    forall k | k in r ensures r[k].parentId != Some(id) {
      assert k in cur && r[k] == cur[k];
    }
    forall x | x in cur && x !in r && x != id ensures Descends(cur, x, id) {
      assert x in m1;
    }
  }

  /** What the `forEach` from the `i`-th child leaves: every listed child
      from `i` on is gone, no survivor hangs below a removed node, and every
      removed node hangs below `pid`, whose children `kids` are. */
  lemma {:induction false} DeleteEachSpec(cur: map<string, PlanNode>, order: seq<string>, kids: seq<string>,
                                          i: nat, bound: nat, orig: map<string, PlanNode>, pid: string)
    requires NodesKeyed(cur) && forall k :: k in cur ==> k in order
    requires i <= |kids|
    requires forall j :: i <= j < |kids| ==> Measure(cur, kids[j]) < bound
    requires SubMap(cur, orig)
    requires forall j :: i <= j < |kids| ==> kids[j] in orig && orig[kids[j]].parentId == Some(pid)
    ensures var r := DeleteEach(cur, order, kids, i, bound);
            && (forall j :: i <= j < |kids| ==> kids[j] !in r)
            && (forall k :: k in r && r[k].parentId.Some? && r[k].parentId.value in cur ==> r[k].parentId.value in r)
            && (forall x :: x in cur && x !in r ==> Descends(orig, x, pid))
    decreases bound, 0, |kids| - i
  {
    if i < |kids| {
      var c := kids[i];
      var next := DeleteRec(cur, order, c);
      BoundKept(next, cur, kids, i + 1, bound);
      var r := DeleteEach(next, order, kids, i + 1, bound);
      assert r == DeleteEach(cur, order, kids, i, bound);
      DeleteRecSpec(cur, order, c);
      DeleteEachSpec(next, order, kids, i + 1, bound, orig, pid);
      assert SubMap(r, next) && SubMap(next, cur) && SubMap(next, orig);
      forall j | i <= j < |kids| ensures kids[j] !in r {
        if j == i {
          assert c !in next;
        }
      }
      forall k | k in r && r[k].parentId.Some? && r[k].parentId.value in cur
        ensures r[k].parentId.value in r
      {
        assert k in next && r[k] == next[k];
      }
      forall x | x in cur && x !in r ensures Descends(orig, x, pid) {
        if x !in next {
          RemovedBelowParent(cur, orig, x, c, pid);
        }
      }
    }
  }

  /** A node removed with child `c` of `pid` (being `c` or below it) is
      below `pid`. */
  lemma RemovedBelowParent(cur: map<string, PlanNode>, orig: map<string, PlanNode>, x: string, c: string, pid: string)
    requires SubMap(cur, orig) && c in orig && orig[c].parentId == Some(pid)
    requires x == c || Descends(cur, x, c)
    ensures Descends(orig, x, pid)
  {
    if x == c {
      assert Below(orig, x, pid, 0);
    } else {
      var n: nat :| Below(cur, x, c, n);
      BelowGrows(cur, orig, x, c, n);
      BelowExtends(orig, x, c, pid, n);
    }
  }

  /** `deleteNode(nodeId)` removes `nodeId` and exactly the stored nodes
      reachable from it through `parentId` links; every other node stays as
      it was. */
  lemma DeleteNodeRemovesSubtree(m: map<string, PlanNode>, order: seq<string>, id: string)
    requires NodesKeyed(m) && Enumerates(order, m.Keys)
    ensures var r := DeleteNode(m, order, id);
            && (forall k :: k in r <==> k in m && k != id && !Descends(m, k, id))
            && (forall k :: k in r ==> r[k] == m[k])
  {
    var r := DeleteNode(m, order, id);
    assert r == DeleteRec(m, order, id);
    DeleteRecSpec(m, order, id);
    assert SubMap(r, m);
    forall k | k in r ensures !Descends(m, k, id) {
      if Descends(m, k, id) {
        var n: nat :| Below(m, k, id, n);
        SurvivorNotBelow(m, r, id, k, n);
      }
    }
  }

  /** No survivor hangs below `id`, given that no survivor's parent is `id`
      or a removed node. */
  lemma {:induction false} SurvivorNotBelow(m: map<string, PlanNode>, r: map<string, PlanNode>, id: string, x: string, n: nat)
    requires SubMap(r, m)
    requires forall k :: k in r ==> r[k].parentId != Some(id)
    requires forall k :: k in r && r[k].parentId.Some? && r[k].parentId.value in m ==> r[k].parentId.value in r
    requires Below(m, x, id, n)
    ensures x !in r
    decreases n
  {
    var p := m[x].parentId.value;
    if p != id {
      SurvivorNotBelow(m, r, id, p, n - 1);
    }
  }

  /** Deleting an id that is not stored still removes the nodes that name
      it as parent. */
  lemma DeleteAbsentStillCascades(m: map<string, PlanNode>, order: seq<string>, id: string, k: string)
    requires NodesKeyed(m) && Enumerates(order, m.Keys)
    requires id !in m && k in m && m[k].parentId == Some(id)
    ensures k !in DeleteNode(m, order, id)
  {
    DeleteNodeRemovesSubtree(m, order, id);
    assert Below(m, k, id, 0);
  }

  /** `updateNode(nodeId, updates)`: merge the patch into a stored node;
      nothing happens for an id that is not stored. */
  function UpdateNode(m: map<string, PlanNode>, id: string, u: NodePatch): (r: map<string, PlanNode>)
    ensures r.Keys == m.Keys
    ensures forall k :: k in m && k != id ==> r[k] == m[k]
    ensures id !in m ==> r == m
  {
    if id in m then m[id := MergeNode(m[id], u)] else m
  }

  /** On a stored node each field the patch sets takes the patch's value
      and every other field keeps its old one. */
  lemma UpdateNodeFields(m: map<string, PlanNode>, id: string, u: NodePatch)
    requires id in m
    ensures var n := m[id];
            var r := UpdateNode(m, id, u)[id];
            && r.name == (if u.name.Set? then u.name.value else n.name)
            && r.parentId == (if u.parentId.Set? then u.parentId.value else n.parentId)
            && r.displayOrder == (if u.displayOrder.Set? then u.displayOrder.value else n.displayOrder)
            && r.kind == (if u.kind.Set? then u.kind.value else n.kind)
            && r.timeType == (if u.timeType.Set? then u.timeType.value else n.timeType)
            && r.startTime == (if u.startTime.Set? then u.startTime.value else n.startTime)
            && r.endTime == (if u.endTime.Set? then u.endTime.value else n.endTime)
            && r.duration == (if u.duration.Set? then u.duration.value else n.duration)
            && r.description == (if u.description.Set? then u.description.value else n.description)
            && r.locationId == (if u.locationId.Set? then u.locationId.value else n.locationId)
            && r.id == (if u.id.Set? then u.id.value else n.id)
  {
  }

  /** An empty patch changes nothing, and applying the same patch twice is
      the same as applying it once. */
  lemma UpdateNodeIdempotent(m: map<string, PlanNode>, id: string, u: NodePatch)
    ensures UpdateNode(m, id, NoNodeChange) == m
    ensures UpdateNode(UpdateNode(m, id, u), id, u) == UpdateNode(m, id, u)
  {
    if id in m {
      assert MergeNode(m[id], NoNodeChange) == m[id];
    }
  }

  /** The node list the hook publishes: the map's values sorted by
      `displayOrder` (stable, so ties keep read order). */
  function NodeList(m: map<string, PlanNode>, order: seq<string>): (r: seq<PlanNode>)
    requires Enumerates(order, m.Keys)
    ensures Sorted(r, false)
    ensures |r| == |order|
  {
    Sort(NodesInOrder(m, order), false)
  }

  /** Every stored node is listed, every listed node is stored under its id,
      and none is listed twice. */
  lemma NodeListShape(m: map<string, PlanNode>, order: seq<string>)
    requires NodesKeyed(m) && Enumerates(order, m.Keys)
    ensures var r := NodeList(m, order);
            && |r| == |m|
            && (forall k :: k in m ==> m[k] in r)
            && (forall i :: 0 <= i < |r| ==> r[i].id in m && m[r[i].id] == r[i])
            && (forall i, j :: 0 <= i < j < |r| ==> r[i].id != r[j].id)
  {
    var nodes := NodesInOrder(m, order);
    var r := NodeList(m, order);
    EnumeratesCard(order, m.Keys);
    forall k | k in m ensures m[k] in r {
      var i :| 0 <= i < |order| && order[i] == k;
      assert nodes[i] == m[k];
      assert m[k] in multiset(nodes);
    }
    forall i | 0 <= i < |r| ensures r[i].id in m && m[r[i].id] == r[i] {
      assert r[i] in multiset(nodes);
    }
    forall i, j | 0 <= i < j < |r| ensures r[i].id != r[j].id {
      if r[i].id == r[j].id {
        assert r[i] == r[j];
        ListedOnce(m, order, r[i]);
        TwiceCounted(r, i, j);
      }
    }
  }

  /** A stored node occurs once in the read-order list. */
  lemma ListedOnce(m: map<string, PlanNode>, order: seq<string>, n: PlanNode)
    requires NodesKeyed(m) && Enumerates(order, m.Keys)
    ensures multiset(NodesInOrder(m, order))[n] <= 1
  {
    var nodes := NodesInOrder(m, order);
    assert NoDup(nodes) by {
      forall a, b | 0 <= a < b < |nodes| ensures nodes[a] != nodes[b] {
        assert nodes[a].id == order[a] && nodes[b].id == order[b];
      }
    }
    NoDupCount(nodes, n);
  }
}
