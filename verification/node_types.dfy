/** The records stored in the shared document: the v1 `PlanNode` (which
    carries its own parent id and sibling order) and the v2 `NodeData`
    (position kept apart in the structure map), with the partial updates the
    hooks merge into them. */
module NodeTypes {
  import opened Common

  /** `'PROCESS' | 'SPOT' | 'MOVE'` */
  datatype NodeType = Process | Spot | Transit

  /** `'NONE' | 'POINT' | 'RANGE'` */
  datatype TimeType = NoTime | Point | Range

  /** A v1 node. `parentId` is `null` for a node outside every group; the
      canvas coordinates `x`/`y` are left out. */
  datatype PlanNode = PlanNode(
    id: string,
    parentId: Option<string>,
    kind: NodeType,
    name: string,
    displayOrder: int,
    description: Option<string>,
    timeType: TimeType,
    startTime: Option<string>,
    endTime: Option<string>,
    duration: Option<int>,
    locationId: Option<string>)

  /** A v2 node record: the node's own attributes, no position. */
  datatype NodeData = NodeData(
    id: string,
    kind: NodeType,
    name: string,
    description: Option<string>,
    locationId: Option<string>,
    startTime: Option<string>,
    endTime: Option<string>,
    duration: Option<int>)

  /** `Partial<PlanNode>`: one cell per field. */
  datatype NodePatch = NodePatch(
    id: Upd<string>,
    parentId: Upd<Option<string>>,
    kind: Upd<NodeType>,
    name: Upd<string>,
    displayOrder: Upd<int>,
    description: Upd<Option<string>>,
    timeType: Upd<TimeType>,
    startTime: Upd<Option<string>>,
    endTime: Upd<Option<string>>,
    duration: Upd<Option<int>>,
    locationId: Upd<Option<string>>)

  /** `Partial<NodeData>`: one cell per field. */
  datatype DataPatch = DataPatch(
    id: Upd<string>,
    kind: Upd<NodeType>,
    name: Upd<string>,
    description: Upd<Option<string>>,
    locationId: Upd<Option<string>>,
    startTime: Upd<Option<string>>,
    endTime: Upd<Option<string>>,
    duration: Upd<Option<int>>)

  /** `{}` as a v1 update. */
  const NoNodeChange: NodePatch :=
    NodePatch(Keep, Keep, Keep, Keep, Keep, Keep, Keep, Keep, Keep, Keep, Keep)

  /** `{}` as a v2 update. */
  const NoDataChange: DataPatch :=
    DataPatch(Keep, Keep, Keep, Keep, Keep, Keep, Keep, Keep)

  /** `{...n, ...u}` for a v1 node. */
  function MergeNode(n: PlanNode, u: NodePatch): PlanNode
  {
    PlanNode(
      Apply(u.id, n.id), Apply(u.parentId, n.parentId), Apply(u.kind, n.kind),
      Apply(u.name, n.name), Apply(u.displayOrder, n.displayOrder),
      Apply(u.description, n.description), Apply(u.timeType, n.timeType),
      Apply(u.startTime, n.startTime), Apply(u.endTime, n.endTime),
      Apply(u.duration, n.duration), Apply(u.locationId, n.locationId))
  }

  /** `{...d, ...u}` for a v2 record. */
  function MergeData(d: NodeData, u: DataPatch): NodeData
  {
    NodeData(
      Apply(u.id, d.id), Apply(u.kind, d.kind), Apply(u.name, d.name),
      Apply(u.description, d.description), Apply(u.locationId, d.locationId),
      Apply(u.startTime, d.startTime), Apply(u.endTime, d.endTime),
      Apply(u.duration, d.duration))
  }

  /** Every v1 node is stored under its own id, as `addNode` does. */
  ghost predicate NodesKeyed(m: map<string, PlanNode>)
  {
    forall k :: k in m ==> m[k].id == k
  }

  /** Every v2 record is stored under its own id, as `createNodeData` does
      when `extra` carries no `id`. */
  ghost predicate DataKeyed(m: map<string, NodeData>)
  {
    forall k :: k in m ==> m[k].id == k
  }

  /** The key a v1 node is grouped under when siblings are collected for
      display: its parent, or `fallback` for a `null` parent. */
  function GroupKey(n: PlanNode, fallback: string): string
  {
    match n.parentId
    case Some(p) => p
    case None => fallback
  }

  /** The nodes filed under `key` when a `null` parent is filed under
      `fallback`, in input order. */
  function Group(nodes: seq<PlanNode>, fallback: string, key: string): (g: seq<PlanNode>)
    ensures forall n :: multiset(g)[n] == if GroupKey(n, fallback) == key then multiset(nodes)[n] else 0
    ensures forall n :: n in g <==> n in nodes && GroupKey(n, fallback) == key
    ensures |g| <= |nodes|
  {
    if |nodes| == 0 then []
    else
      var rest := Group(nodes[1..], fallback, key);
      assert nodes == [nodes[0]] + nodes[1..];
      if GroupKey(nodes[0], fallback) == key then [nodes[0]] + rest else rest
  }

  /** `order` lists every key of the map once: the iteration order of
      `values()` on a shared map, which the model leaves open. */
  predicate Enumerates(order: seq<string>, keys: set<string>)
  {
    NoDup(order) && (forall k :: k in order ==> k in keys) && (forall k :: k in keys ==> k in order)
  }

  /** The v1 nodes in the given order. */
  function NodesInOrder(v1: map<string, PlanNode>, order: seq<string>): (nodes: seq<PlanNode>)
    requires forall k :: k in order ==> k in v1
    ensures |nodes| == |order|
    ensures forall i :: 0 <= i < |order| ==> nodes[i] == v1[order[i]]
  {
    seq(|order|, i requires 0 <= i < |order| => v1[order[i]])
  }

  /** An enumeration is as long as the set it lists. */
  lemma {:induction false} EnumeratesCard(order: seq<string>, keys: set<string>)
    requires Enumerates(order, keys)
    ensures |order| == |keys|
    decreases |order|
  {
    if |order| > 0 {
      var x := order[0];
      assert Enumerates(order[1..], keys - {x}) by {
        forall k | k in keys - {x} ensures k in order[1..] {
          var i :| 0 <= i < |order| && order[i] == k;
        }
      }
      EnumeratesCard(order[1..], keys - {x});
    }
  }
}
