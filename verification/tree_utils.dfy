/** `getSortedFlatNodes`: the v1 node list grouped by parent, each group
    sorted by `displayOrder`, and walked in pre-order from the root. A node
    with a `null` parent is filed under `'unassigned'`, which the walk only
    reaches through a node whose id is `'unassigned'`. */
module TreeUtils {
  import opened Common
  import opened NodeTypes
  import opened Sorting
  import opened PreOrder

  /** The group a `null` parent is filed under. */
  const Unassigned: string := "unassigned"

  /** Nodes as the walk's children: each keyed by its own id. */
  function AsKids(s: seq<PlanNode>): (r: seq<Kid<PlanNode>>)
    ensures |r| == |s|
    ensures forall i :: 0 <= i < |s| ==> r[i] == Kid(s[i].id, s[i])
  {
    seq(|s|, i requires 0 <= i < |s| => Kid(s[i].id, s[i]))
  }

  /** `childrenMap` after the sort: one sorted group per parent key. */
  function Children(nodes: seq<PlanNode>): Kids<PlanNode>
  {
    map key | key in (set n | n in nodes :: GroupKey(n, Unassigned)) ::
      AsKids(Sort(Group(nodes, Unassigned, key), false))
  }

  /** The ids of the input nodes. */
  ghost function IdsOf(nodes: seq<PlanNode>): set<string>
  {
    set n | n in nodes :: n.id
  }

  lemma {:induction false} IdsOfCard(nodes: seq<PlanNode>)
    ensures |IdsOf(nodes)| <= |nodes|
  {
    if |nodes| > 0 {
      IdsOfCard(nodes[1..]);
      assert IdsOf(nodes) == {nodes[0].id} + IdsOf(nodes[1..]);
    }
  }

  /** Every listed child is an input node of that group, keyed by its id. */
  lemma ChildrenAreGroupMembers(nodes: seq<PlanNode>, key: string, i: int)
    requires key in Children(nodes) && 0 <= i < |Children(nodes)[key]|
    ensures var k := Children(nodes)[key][i];
            k.item in nodes && k.id == k.item.id && GroupKey(k.item, Unassigned) == key
  {
    var s := Sort(Group(nodes, Unassigned, key), false);
    assert s[i] in multiset(s);
  }

  /** `getSortedFlatNodes(nodes)`: each entry is an input node with `depth`
      added; `parent` records the group it was listed in. */
  function GetSortedFlatNodes(nodes: seq<PlanNode>): (out: seq<Entry<PlanNode>>)
    ensures |out| <= |nodes|
  {
    var ch := Children(nodes);
    assert Universe(ch) <= IdsOf(nodes) by {
      forall x | x in Universe(ch) ensures x in IdsOf(nodes) {
        var p, i :| p in ch && 0 <= i < |ch[p]| && ch[p][i].id == x;
        ChildrenAreGroupMembers(nodes, p, i);
      }
    }
    SubsetCard(Universe(ch), IdsOf(nodes));
    IdsOfCard(nodes);
    Flatten(ch)
  }

  /** Each entry is the input node listed under its own id, in the group
      of its parent. */
  lemma FlatEntryIsNode(nodes: seq<PlanNode>, k: int)
    requires 0 <= k < |GetSortedFlatNodes(nodes)|
    ensures var e := GetSortedFlatNodes(nodes)[k];
            e.item in nodes && e.id == e.item.id && e.parent == GroupKey(e.item, Unassigned)
  {
    var ch := Children(nodes);
    var out := GetSortedFlatNodes(nodes);
    FlattenShape(ch);
    assert FromList(ch, out[k]);
    var i := FindIndex(Ids(ch[out[k].parent]), out[k].id);
    ChildrenAreGroupMembers(nodes, out[k].parent, i);
  }

  /** Two siblings keep the order of their sorted group. */
  lemma FlatSiblingsOrdered(nodes: seq<PlanNode>, a: int, b: int)
    requires 0 <= a < b < |GetSortedFlatNodes(nodes)|
    requires SameLevel(GetSortedFlatNodes(nodes), a, b)
    ensures var out := GetSortedFlatNodes(nodes);
            out[a].item.displayOrder <= out[b].item.displayOrder
  {
    var ch := Children(nodes);
    var out := GetSortedFlatNodes(nodes);
    FlattenShape(ch);
    var p := out[a].parent;
    assert out[b].parent == p && p in ch;
    assert FromList(ch, out[a]) && FromList(ch, out[b]);
    var s := Sort(Group(nodes, Unassigned, p), false);
    var ia := FindIndex(Ids(ch[p]), out[a].id);
    var ib := FindIndex(Ids(ch[p]), out[b].id);
    assert 0 <= ia < ib;
    assert ch[p][ia].item == s[ia] && ch[p][ib].item == s[ib];
    assert InOrder(s, ia, ib, false);
  }

  /** Every input node is listed in the group of its parent. */
  lemma GroupMemberListed(nodes: seq<PlanNode>, n: PlanNode)
    requires n in nodes
    ensures var key := GroupKey(n, Unassigned);
            key in Children(nodes)
            && exists q :: 0 <= q < |Children(nodes)[key]| && Children(nodes)[key][q].id == n.id
  {
    var key := GroupKey(n, Unassigned);
    assert key in (set m | m in nodes :: GroupKey(m, Unassigned));
    var s := Sort(Group(nodes, Unassigned, key), false);
    assert n in Group(nodes, Unassigned, key);
    assert n in multiset(s);
    var q :| 0 <= q < |s| && s[q] == n;
    assert Children(nodes)[key][q] == Kid(n.id, n);
  }

  /** A node filed under `p` is emitted once `p`'s group is walked in
      full. */
  lemma GroupMemberEmitted(nodes: seq<PlanNode>, n: PlanNode, emitted: set<string>)
    requires n in nodes
    requires Closed<PlanNode>(Children(nodes), GroupKey(n, Unassigned), emitted)
    ensures n.id in emitted
  {
    GroupMemberListed(nodes, n);
  }

  /** The v1 flat list misses nothing reachable: every node whose parent is
      `'root'`, or is an emitted id, is emitted (under its own id). */
  lemma FlatNodesComplete(nodes: seq<PlanNode>)
    ensures var out := GetSortedFlatNodes(nodes);
            && (forall n :: n in nodes && GroupKey(n, Unassigned) == Root ==> n.id in EntryIds(out))
            && (forall j, n :: 0 <= j < |out| && n in nodes && GroupKey(n, Unassigned) == out[j].id
                  ==> n.id in EntryIds(out))
  {
    var ch := Children(nodes);
    var out := GetSortedFlatNodes(nodes);
    FlattenComplete(ch);
    forall n | n in nodes && GroupKey(n, Unassigned) == Root ensures n.id in EntryIds(out) {
      GroupMemberEmitted(nodes, n, EntryIds(out));
    }
    forall j, n | 0 <= j < |out| && n in nodes && GroupKey(n, Unassigned) == out[j].id
      ensures n.id in EntryIds(out)
    {
      GroupMemberEmitted(nodes, n, EntryIds(out));
    }
  }

  /** What the v1 flat list promises on any node list:
      - every entry is an input node with its own id, listed in the group
        of its parent (`'unassigned'` for `null`);
      - no id twice, and no more entries than input nodes;
      - a pre-order forest under the root: depth 0 for the root's children,
        one more than the parent entry below that;
      - siblings in non-decreasing `displayOrder`;
      - nothing reachable is missed: every node whose parent is `'root'` or
        an emitted id is emitted. */
  lemma FlatNodesShape(nodes: seq<PlanNode>)
    ensures var out := GetSortedFlatNodes(nodes);
            && |out| <= |nodes|
            && (forall k :: 0 <= k < |out| ==>
                  out[k].item in nodes && out[k].id == out[k].item.id
                  && out[k].parent == GroupKey(out[k].item, Unassigned))
            && (forall a, b :: 0 <= a < b < |out| ==> out[a].id != out[b].id)
            && Forest(out, 0, Root)
            && (forall a, b :: 0 <= a < b < |out| && SameLevel(out, a, b) ==>
                  out[a].item.displayOrder <= out[b].item.displayOrder)
            && (forall n :: n in nodes && GroupKey(n, Unassigned) == Root ==> n.id in EntryIds(out))
            && (forall j, n :: 0 <= j < |out| && n in nodes && GroupKey(n, Unassigned) == out[j].id
                  ==> n.id in EntryIds(out))
  {
    var out := GetSortedFlatNodes(nodes);
    FlatNodesComplete(nodes);
    FlattenShape(Children(nodes));
    forall k | 0 <= k < |out|
      ensures out[k].item in nodes && out[k].id == out[k].item.id
              && out[k].parent == GroupKey(out[k].item, Unassigned)
    {
      FlatEntryIsNode(nodes, k);
    }
    forall a, b | 0 <= a < b < |out| && SameLevel(out, a, b)
      ensures out[a].item.displayOrder <= out[b].item.displayOrder
    {
      FlatSiblingsOrdered(nodes, a, b);
    }
  }

  /** A node with a `null` parent is emitted only below an entry whose id
      is `'unassigned'`, never at the top level. */
  lemma NullParentNeedsUnassigned(nodes: seq<PlanNode>, k: int)
    requires 0 <= k < |GetSortedFlatNodes(nodes)|
    requires GetSortedFlatNodes(nodes)[k].item.parentId.None?
    ensures var out := GetSortedFlatNodes(nodes);
            out[k].depth > 0 && exists j :: 0 <= j < k && out[j].id == Unassigned
  {
    var out := GetSortedFlatNodes(nodes);
    FlatNodesShape(nodes);
    assert Placed(out, k, 0, Root);
    assert out[k].parent == Unassigned;
    var j :| HasParentAt(out, j, k);
  }
}
