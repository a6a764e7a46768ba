/** `usePlanData`: the v2 record map (`planNodesV2`, keyed by node id) and
    the three edits the hook exposes, each one transaction. */
module PlanData {
  import opened Common
  import opened NodeTypes

  /** `{id, type, name}` with every optional field absent. */
  function Fresh(id: string, kind: NodeType, name: string): NodeData
  {
    NodeData(id, kind, name, None, None, None, None, None)
  }

  /** `createNodeData(id, type, name, extra)`: `{id, type, name, ...extra}`
      stored at `id`, replacing whatever was there. */
  function CreateNodeData(m: map<string, NodeData>, id: string, kind: NodeType, name: string, extra: DataPatch)
    : (r: map<string, NodeData>)
    ensures r.Keys == m.Keys + {id}
    ensures forall k :: k in m && k != id ==> r[k] == m[k]
    ensures && r[id].id == (if extra.id.Set? then extra.id.value else id)
            && r[id].kind == (if extra.kind.Set? then extra.kind.value else kind)
            && r[id].name == (if extra.name.Set? then extra.name.value else name)
            && r[id].description == (if extra.description.Set? then extra.description.value else None)
            && r[id].locationId == (if extra.locationId.Set? then extra.locationId.value else None)
            && r[id].startTime == (if extra.startTime.Set? then extra.startTime.value else None)
            && r[id].endTime == (if extra.endTime.Set? then extra.endTime.value else None)
            && r[id].duration == (if extra.duration.Set? then extra.duration.value else None)
  {
    m[id := MergeData(Fresh(id, kind, name), extra)]
  }

  /** A record created without an `id` in `extra` (or with the same one)
      keeps the map keyed by id. */
  lemma CreateKeepsKeyed(m: map<string, NodeData>, id: string, kind: NodeType, name: string, extra: DataPatch)
    requires DataKeyed(m)
    requires extra.id == Keep || extra.id == Set(id)
    ensures DataKeyed(CreateNodeData(m, id, kind, name, extra))
  {
  }

  /** `updateNodeData(id, updates)`: `{...current, ...updates}` at a stored
      id; a missing id leaves the map as it was. */
  function UpdateNodeData(m: map<string, NodeData>, id: string, u: DataPatch): (r: map<string, NodeData>)
    ensures r.Keys == m.Keys
    ensures forall k :: k in m && k != id ==> r[k] == m[k]
    ensures id !in m ==> r == m
  {
    if id !in m then m
    else m[id := MergeData(m[id], u)]
  }

  /** On a stored record each field the patch sets takes the patch's value
      and every other field keeps its old one. */
  lemma UpdateNodeDataFields(m: map<string, NodeData>, id: string, u: DataPatch)
    requires id in m
    ensures var d := m[id];
            var r := UpdateNodeData(m, id, u)[id];
            && r.id == (if u.id.Set? then u.id.value else d.id)
            && r.kind == (if u.kind.Set? then u.kind.value else d.kind)
            && r.name == (if u.name.Set? then u.name.value else d.name)
            && r.description == (if u.description.Set? then u.description.value else d.description)
            && r.locationId == (if u.locationId.Set? then u.locationId.value else d.locationId)
            && r.startTime == (if u.startTime.Set? then u.startTime.value else d.startTime)
            && r.endTime == (if u.endTime.Set? then u.endTime.value else d.endTime)
            && r.duration == (if u.duration.Set? then u.duration.value else d.duration)
  {
  }

  /** An empty update is the identity, and repeating an update changes
      nothing more. */
  lemma UpdateNodeDataIdempotent(m: map<string, NodeData>, id: string, u: DataPatch)
    ensures UpdateNodeData(m, id, NoDataChange) == m
    ensures UpdateNodeData(UpdateNodeData(m, id, u), id, u) == UpdateNodeData(m, id, u)
  {
    if id in m {
      assert MergeData(m[id], NoDataChange) == m[id];
    }
  }

  /** `deleteNodeData(id)`: only `id` goes; a missing id changes nothing. */
  function DeleteNodeData(m: map<string, NodeData>, id: string): (r: map<string, NodeData>)
    ensures r.Keys == m.Keys - {id}
    ensures forall k :: k in r ==> r[k] == m[k]
    ensures id !in m ==> r == m
  {
    m - {id}
  }

  /** Deleting what was just created gives back the map without that id;
      an update in between makes no difference. */
  lemma CreateThenDelete(m: map<string, NodeData>, id: string, kind: NodeType, name: string,
                         extra: DataPatch, u: DataPatch)
    ensures DeleteNodeData(CreateNodeData(m, id, kind, name, extra), id) == DeleteNodeData(m, id)
    ensures DeleteNodeData(UpdateNodeData(CreateNodeData(m, id, kind, name, extra), id, u), id)
            == DeleteNodeData(m, id)
  {
  }
}
