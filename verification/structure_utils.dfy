/** `buildFlatTreeV2`: the v2 structure map and the record map joined into
    the flat list the editor renders. The walk starts at the root sentinel;
    an id already emitted is skipped (cycles and shared children), and an id
    with no record is skipped together with everything below it. */
module StructureUtils {
  import opened Common
  import opened NodeTypes
  import opened PlanTree
  import opened PreOrder

  /** The listed ids that have a record, each paired with it, in list order.
      Filtering up front is the same as the walk's `if (!nodeData) continue`:
      an id without a record is never marked visited, so it can change
      nothing later. */
  function Present(ids: seq<string>, nodeMap: map<string, NodeData>): (r: seq<Kid<NodeData>>)
    ensures |r| <= |ids|
    ensures forall k :: 0 <= k < |r| ==>
              r[k].id in ids && r[k].id in nodeMap && r[k].item == nodeMap[r[k].id]
  {
    if |ids| == 0 then []
    else if ids[0] in nodeMap then [Kid(ids[0], nodeMap[ids[0]])] + Present(ids[1..], nodeMap)
    else Present(ids[1..], nodeMap)
  }

  /** The child lists the walk sees. */
  function Children(structure: Structure, nodeMap: map<string, NodeData>): Kids<NodeData>
  {
    map p | p in structure :: Present(structure[p], nodeMap)
  }

  /** `buildFlatTreeV2(structure, nodeMap)`: each entry is the record with
      `depth` and `parentId` added. */
  function BuildFlatTreeV2(structure: Structure, nodeMap: map<string, NodeData>): (out: seq<Entry<NodeData>>)
    ensures |out| <= |nodeMap|
  {
    var ch := Children(structure, nodeMap);
    UniverseHasRecords(structure, nodeMap);
    SubsetCard(Universe(ch), nodeMap.Keys);
    Flatten(ch)
  }

  lemma UniverseHasRecords(structure: Structure, nodeMap: map<string, NodeData>)
    ensures Universe(Children(structure, nodeMap)) <= nodeMap.Keys
  {
  }

  /** The ids of `ids` that are in `keys`, in list order. */
  function Kept(ids: seq<string>, keys: set<string>): (r: seq<string>)
    ensures forall x :: x in r <==> x in ids && x in keys
  {
    if |ids| == 0 then []
    else
      assert forall x :: x in ids <==> x == ids[0] || x in ids[1..];
      (if ids[0] in keys then [ids[0]] else []) + Kept(ids[1..], keys)
  }

  /** The ids `Present` pairs with records are the kept ids. */
  lemma {:induction false} PresentIds(ids: seq<string>, nodeMap: map<string, NodeData>)
    ensures Ids(Present(ids, nodeMap)) == Kept(ids, nodeMap.Keys)
  {
    if |ids| > 0 {
      PresentIds(ids[1..], nodeMap);
      var t := Present(ids[1..], nodeMap);
      if ids[0] in nodeMap {
        assert Ids(Present(ids, nodeMap)) == [ids[0]] + Ids(t);
      } else {
        assert Ids(Present(ids, nodeMap)) == Ids(t);
      }
    }
  }

  /** Filtering keeps the relative order of the ids it keeps. */
  lemma {:induction false} KeptKeepsOrder(ids: seq<string>, keys: set<string>, a: string, b: string)
    requires a in keys && b in keys
    requires 0 <= FindIndex(Kept(ids, keys), a) < FindIndex(Kept(ids, keys), b)
    ensures 0 <= FindIndex(ids, a) < FindIndex(ids, b)
    decreases |ids|
  {
    if ids[0] == a {
      KeptHead(ids, keys, a, b);
    } else {
      KeptTail(ids, keys, a, b);
      KeptKeepsOrder(ids[1..], keys, a, b);
      ConsKeepsOrder(ids, a, b);
    }
  }

  /** When the first id is the earlier of the two, the other comes later
      in the full list. */
  lemma KeptHead(ids: seq<string>, keys: set<string>, a: string, b: string)
    requires |ids| > 0 && ids[0] == a && a in keys
    requires 0 <= FindIndex(Kept(ids, keys), a) < FindIndex(Kept(ids, keys), b)
    ensures 0 < FindIndex(ids, b)
  {
    var t := Kept(ids[1..], keys);
    assert Kept(ids, keys) == [a] + t;
    FindIndexCons(a, t, b);
    assert b in t;
    assert b in ids[1..];
  }

  /** When the first id is not the earlier of the two, it is neither of
      them, and the rest of the list keeps them in order. */
  lemma KeptTail(ids: seq<string>, keys: set<string>, a: string, b: string)
    requires |ids| > 0 && ids[0] != a && b in keys
    requires 0 <= FindIndex(Kept(ids, keys), a) < FindIndex(Kept(ids, keys), b)
    ensures ids[0] != b
    ensures 0 <= FindIndex(Kept(ids[1..], keys), a) < FindIndex(Kept(ids[1..], keys), b)
  {
    var t := Kept(ids[1..], keys);
    if ids[0] in keys {
      assert Kept(ids, keys) == [ids[0]] + t;
      FindIndexCons(ids[0], t, a);
      FindIndexCons(ids[0], t, b);
    } else {
      assert Kept(ids, keys) == t;
    }
  }

  /** A first element that is neither of two keeps their order. */
  lemma ConsKeepsOrder(s: seq<string>, a: string, b: string)
    requires |s| > 0 && s[0] != a && s[0] != b && 0 <= FindIndex(s[1..], a) < FindIndex(s[1..], b)
    ensures 0 <= FindIndex(s, a) < FindIndex(s, b)
  {
  }

  /** Dropping ids without a record keeps the relative order of the rest. */
  lemma PresentKeepsOrder(ids: seq<string>, nodeMap: map<string, NodeData>, a: string, b: string)
    requires a in nodeMap && b in nodeMap
    requires 0 <= FindIndex(Ids(Present(ids, nodeMap)), a) < FindIndex(Ids(Present(ids, nodeMap)), b)
    ensures 0 <= FindIndex(ids, a) < FindIndex(ids, b)
  {
    PresentIds(ids, nodeMap);
    KeptKeepsOrder(ids, nodeMap.Keys, a, b);
  }

  /** A listed id with a record is among the children the walk sees. */
  lemma PresentHas(ids: seq<string>, nodeMap: map<string, NodeData>, x: string)
    requires x in ids && x in nodeMap
    ensures exists q :: 0 <= q < |Present(ids, nodeMap)| && Present(ids, nodeMap)[q].id == x
  {
    PresentIds(ids, nodeMap);
    var r := Present(ids, nodeMap);
    assert x in Ids(r);
    var q :| 0 <= q < |Ids(r)| && Ids(r)[q] == x;
    assert r[q].id == x;
  }

  /** A child with a record listed under `p` is emitted once `p`'s list is
      walked in full. */
  lemma ListedEmitted(structure: Structure, nodeMap: map<string, NodeData>, p: string, x: string, emitted: set<string>)
    requires x in ChildrenOf(structure, p) && x in nodeMap
    requires Closed<NodeData>(Children(structure, nodeMap), p, emitted)
    ensures x in emitted
  {
    PresentHas(structure[p], nodeMap, x);
    var ch: Kids<NodeData> := Children(structure, nodeMap);
    var q :| 0 <= q < |ch[p]| && ch[p][q].id == x;
  }

  /** The flat list misses nothing reachable: every id with a record that
      the structure lists under the root, or under an emitted id, is
      emitted. */
  lemma FlatTreeV2Complete(structure: Structure, nodeMap: map<string, NodeData>)
    ensures var out := BuildFlatTreeV2(structure, nodeMap);
            && (forall x :: x in ChildrenOf(structure, Root) && x in nodeMap ==> x in EntryIds(out))
            && (forall j, x :: 0 <= j < |out| && x in ChildrenOf(structure, out[j].id) && x in nodeMap
                  ==> x in EntryIds(out))
  {
    var ch := Children(structure, nodeMap);
    var out := BuildFlatTreeV2(structure, nodeMap);
    FlattenComplete(ch);
    forall x | x in ChildrenOf(structure, Root) && x in nodeMap ensures x in EntryIds(out) {
      ListedEmitted(structure, nodeMap, Root, x, EntryIds(out));
    }
    forall j, x | 0 <= j < |out| && x in ChildrenOf(structure, out[j].id) && x in nodeMap
      ensures x in EntryIds(out)
    {
      ListedEmitted(structure, nodeMap, out[j].id, x, EntryIds(out));
    }
  }

  /** What the flat list promises on any structure and record map:
      - no id twice, and at most one entry per record;
      - every entry has a record, carries it, and is listed under the parent
        it names (so a parent with a missing or empty list contributes
        nothing);
      - a pre-order forest under the root: top entries have depth 0 and
        parent `'root'`, and every deeper entry names as parent the nearest
        shallower entry before it, one level up (so an id without a record,
        never emitted, has nothing emitted below it);
      - siblings appear in the order of the structure sequence;
      - nothing reachable is missed: every id with a record listed under
        the root or under an emitted id is emitted. */
  lemma FlatTreeV2Shape(structure: Structure, nodeMap: map<string, NodeData>)
    ensures var out := BuildFlatTreeV2(structure, nodeMap);
            && |out| <= |nodeMap|
            && (forall a, b :: 0 <= a < b < |out| ==> out[a].id != out[b].id)
            && (forall k :: 0 <= k < |out| ==>
                  && out[k].id in nodeMap
                  && out[k].item == nodeMap[out[k].id]
                  && out[k].id in ChildrenOf(structure, out[k].parent))
            && Forest(out, 0, Root)
            && (forall a, b :: 0 <= a < b < |out| && SameLevel(out, a, b) ==>
                  && out[a].parent == out[b].parent
                  && 0 <= FindIndex(ChildrenOf(structure, out[a].parent), out[a].id)
                       < FindIndex(ChildrenOf(structure, out[a].parent), out[b].id))
            && (forall x :: x in ChildrenOf(structure, Root) && x in nodeMap ==> x in EntryIds(out))
            && (forall j, x :: 0 <= j < |out| && x in ChildrenOf(structure, out[j].id) && x in nodeMap
                  ==> x in EntryIds(out))
  {
    var ch := Children(structure, nodeMap);
    var out := BuildFlatTreeV2(structure, nodeMap);
    FlatTreeV2Complete(structure, nodeMap);
    FlattenShape(ch);
    forall k | 0 <= k < |out|
      ensures && out[k].id in nodeMap
              && out[k].item == nodeMap[out[k].id]
              && out[k].id in ChildrenOf(structure, out[k].parent)
    {
      assert FromList(ch, out[k]);
      var L := ch[out[k].parent];
      var i := FindIndex(Ids(L), out[k].id);
      assert L[i] == Kid(out[k].id, out[k].item);
    }
    forall a, b | 0 <= a < b < |out| && SameLevel(out, a, b)
      ensures && out[a].parent == out[b].parent
              && 0 <= FindIndex(ChildrenOf(structure, out[a].parent), out[a].id)
                   < FindIndex(ChildrenOf(structure, out[a].parent), out[b].id)
    {
      var p := out[a].parent;
      assert FromList(ch, out[a]);
      PresentKeepsOrder(structure[p], nodeMap, out[a].id, out[b].id);
    }
  }
}
