/** `migrateV1toV2`: one transaction that turns the v1 node map into the v2
    structure and record maps. It runs only when both v2 maps are empty and
    the v1 map is not, which makes a second run a no-op. The v1 map is only
    read. */
module Migration {
  import opened Common
  import opened NodeTypes
  import opened Sorting
  import opened PlanTree

  /** The three shared maps the migration touches. */
  datatype Doc = Doc(v1: map<string, PlanNode>, v2Map: map<string, NodeData>, v2Structure: Structure)

  /** The record written for a node: id, type, name and location only. */
  function Copy(n: PlanNode): NodeData
  {
    NodeData(n.id, n.kind, n.name, None, n.locationId, None, None, None)
  }

  /** `siblings.map(n => n.id)` */
  function IdList(s: seq<PlanNode>): (r: seq<string>)
    ensures |r| == |s|
    ensures forall i :: 0 <= i < |s| ==> r[i] == s[i].id
  {
    if s == [] then [] else [s[0].id] + IdList(s[1..])
  }

  /** The parent key a node is filed under: its parent, or the root for
      `null`. */
  function ParentOf(n: PlanNode): string
  {
    GroupKey(n, Root)
  }

  /** The parent keys the nodes name. */
  function ParentKeys(nodes: seq<PlanNode>): (keys: set<string>)
    ensures forall i :: 0 <= i < |nodes| ==> ParentOf(nodes[i]) in keys
  {
    if |nodes| == 0 then {} else {ParentOf(nodes[0])} + ParentKeys(nodes[1..])
  }

  /** Only keys some node names are parent keys. */
  lemma {:induction false} ParentKeyNamed(nodes: seq<PlanNode>, p: string)
    requires p in ParentKeys(nodes)
    ensures exists i :: 0 <= i < |nodes| && ParentOf(nodes[i]) == p
  {
    if ParentOf(nodes[0]) != p {
      ParentKeyNamed(nodes[1..], p);
      var i :| 0 <= i < |nodes[1..]| && ParentOf(nodes[1..][i]) == p;
      assert ParentOf(nodes[i + 1]) == p;
    }
  }

  /** One sorted id list per parent key. */
  function BuildStructure(nodes: seq<PlanNode>): (st: Structure)
    ensures forall p :: p in st ==> p in ParentKeys(nodes) && st[p] == IdList(Sort(Group(nodes, Root, p), true))
    ensures forall p :: p in ParentKeys(nodes) ==> p in st
  {
    map key | key in ParentKeys(nodes) :: IdList(Sort(Group(nodes, Root, key), true))
  }

  /** `migrateV1toV2` on the document. The v1 map is never written, and the
      two guards leave the whole document as it was. */
  function Migrate(d: Doc, order: seq<string>): (r: Doc)
    requires NodesKeyed(d.v1) && Enumerates(order, d.v1.Keys)
    ensures r.v1 == d.v1
    ensures |d.v2Map| > 0 || |d.v2Structure| > 0 ==> r == d
    ensures |d.v1| == 0 ==> r == d
  {
    if |d.v2Map| > 0 || |d.v2Structure| > 0 then d
    else if |d.v1| == 0 then d
    else
      Doc(d.v1, map k | k in d.v1 :: Copy(d.v1[k]), BuildStructure(NodesInOrder(d.v1, order)))
  }

  /** A second run after any run changes nothing: after a run that did
      something the record map is non-empty. */
  lemma MigrateIdempotent(d: Doc, order: seq<string>)
    requires NodesKeyed(d.v1) && Enumerates(order, d.v1.Keys)
    ensures Migrate(Migrate(d, order), order) == Migrate(d, order)
  {
    var r := Migrate(d, order);
    if |d.v2Map| == 0 && |d.v2Structure| == 0 && |d.v1| > 0 {
      var k :| k in d.v1;
      assert k in r.v2Map;
    }
  }

  /** The sorted group filed under `key`. */
  function SortedGroup(d: Doc, order: seq<string>, key: string): seq<PlanNode>
    requires Enumerates(order, d.v1.Keys)
  {
    Sort(Group(NodesInOrder(d.v1, order), Root, key), true)
  }

  /** Each member of a sorted group is the v1 node stored under its id,
      filed under that key, and occurs once. */
  lemma SortedGroupMember(d: Doc, order: seq<string>, key: string, i: int)
    requires NodesKeyed(d.v1) && Enumerates(order, d.v1.Keys)
    requires 0 <= i < |SortedGroup(d, order, key)|
    ensures var s := SortedGroup(d, order, key);
            && s[i].id in d.v1 && s[i] == d.v1[s[i].id] && ParentOf(s[i]) == key
            && multiset(s)[s[i]] == 1
  {
    var nodes := NodesInOrder(d.v1, order);
    var s := SortedGroup(d, order, key);
    assert s[i] in multiset(s);
    assert NoDup(nodes) by {
      forall a, b | 0 <= a < b < |nodes| ensures nodes[a] != nodes[b] {
        assert nodes[a].id == order[a] && nodes[b].id == order[b];
      }
    }
    NoDupCount(nodes, s[i]);
  }

  /** A sorted group lists each id once. */
  lemma GroupIdsNoDup(d: Doc, order: seq<string>, key: string)
    requires NodesKeyed(d.v1) && Enumerates(order, d.v1.Keys)
    ensures NoDup(IdList(SortedGroup(d, order, key)))
  {
    var s := SortedGroup(d, order, key);
    forall a, b | 0 <= a < b < |s| ensures IdList(s)[a] != IdList(s)[b] {
      SortedGroupMember(d, order, key, a);
      SortedGroupMember(d, order, key, b);
      if s[a].id == s[b].id {
        TwiceCounted(s, a, b);
      }
    }
  }

  /** Each built list is the sorted group of its key, as ids. */
  lemma BuiltLists(d: Doc, order: seq<string>)
    requires Enumerates(order, d.v1.Keys)
    ensures var st := BuildStructure(NodesInOrder(d.v1, order));
            forall p :: p in st ==> st[p] == IdList(SortedGroup(d, order, p))
  {
  }

  /** Every node's parent key gets a list. */
  lemma BuiltKeysCover(d: Doc, order: seq<string>)
    requires Enumerates(order, d.v1.Keys)
    ensures var st := BuildStructure(NodesInOrder(d.v1, order));
            forall k :: k in d.v1 ==> ParentOf(d.v1[k]) in st
  {
    var nodes := NodesInOrder(d.v1, order);
    forall k | k in d.v1 ensures ParentOf(d.v1[k]) in BuildStructure(nodes) {
      var i :| 0 <= i < |order| && order[i] == k;
      assert nodes[i] == d.v1[k];
    }
  }

  /** Only keys some node names get a list. */
  lemma BuiltKeysNamed(d: Doc, order: seq<string>, p: string)
    requires Enumerates(order, d.v1.Keys)
    requires p in BuildStructure(NodesInOrder(d.v1, order))
    ensures exists k :: k in d.v1 && ParentOf(d.v1[k]) == p
  {
    var nodes := NodesInOrder(d.v1, order);
    ParentKeyNamed(nodes, p);
    var i :| 0 <= i < |nodes| && ParentOf(nodes[i]) == p;
    var k := order[i];
    assert k in d.v1 && d.v1[k] == nodes[i];
    assert ParentOf(d.v1[k]) == p;
  }

  /** A successful run writes one record per v1 key, copying only id, type,
      name and location; time fields, order and parent are dropped. */
  lemma MigrateRecords(d: Doc, order: seq<string>)
    requires NodesKeyed(d.v1) && Enumerates(order, d.v1.Keys)
    requires |d.v2Map| == 0 && |d.v2Structure| == 0 && |d.v1| > 0
    ensures var r := Migrate(d, order);
            && r.v2Map.Keys == d.v1.Keys
            && forall k :: k in d.v1 ==>
                 var n := d.v1[k];
                 r.v2Map[k] == NodeData(n.id, n.kind, n.name, None, n.locationId, None, None, None)
  {
    var m := Migrate(d, order).v2Map;
    assert m == map k | k in d.v1 :: Copy(d.v1[k]);
  }

  /** A successful run files every v1 id exactly once, under its parent
      (the root for a `null` parent), files nothing else, and leaves no
      empty list. */
  lemma MigrateFiling(d: Doc, order: seq<string>)
    requires NodesKeyed(d.v1) && Enumerates(order, d.v1.Keys)
    requires |d.v2Map| == 0 && |d.v2Structure| == 0 && |d.v1| > 0
    ensures var st := Migrate(d, order).v2Structure;
            && (forall k :: k in d.v1 ==> OccursOnlyUnder(st, k, ParentOf(d.v1[k])))
            && (forall p, i :: p in st && 0 <= i < |st[p]| ==>
                  st[p][i] in d.v1 && ParentOf(d.v1[st[p][i]]) == p)
            && NoEmpty(st)
  {
    assert Migrate(d, order).v2Structure == BuildStructure(NodesInOrder(d.v1, order));
    BuiltFiling(d, order);
  }

  lemma BuiltFiling(d: Doc, order: seq<string>)
    requires NodesKeyed(d.v1) && Enumerates(order, d.v1.Keys)
    ensures var st := BuildStructure(NodesInOrder(d.v1, order));
            && (forall k :: k in d.v1 ==> OccursOnlyUnder(st, k, ParentOf(d.v1[k])))
            && (forall p, i :: p in st && 0 <= i < |st[p]| ==>
                  st[p][i] in d.v1 && ParentOf(d.v1[st[p][i]]) == p)
            && NoEmpty(st)
  {
    BuiltOnlyV1(d, order);
    BuiltOnce(d, order);
    BuiltNoEmpty(d, order);
  }

  lemma BuiltOnlyV1(d: Doc, order: seq<string>)
    requires NodesKeyed(d.v1) && Enumerates(order, d.v1.Keys)
    ensures var st := BuildStructure(NodesInOrder(d.v1, order));
            forall p, i :: p in st && 0 <= i < |st[p]| ==> st[p][i] in d.v1 && ParentOf(d.v1[st[p][i]]) == p
  {
    var st := BuildStructure(NodesInOrder(d.v1, order));
    forall p, i | p in st && 0 <= i < |st[p]| ensures st[p][i] in d.v1 && ParentOf(d.v1[st[p][i]]) == p {
      BuiltMember(d, order, p, i);
    }
  }

  lemma BuiltMember(d: Doc, order: seq<string>, p: string, i: int)
    requires NodesKeyed(d.v1) && Enumerates(order, d.v1.Keys)
    requires p in BuildStructure(NodesInOrder(d.v1, order))
    requires 0 <= i < |BuildStructure(NodesInOrder(d.v1, order))[p]|
    ensures var x := BuildStructure(NodesInOrder(d.v1, order))[p][i];
            x in d.v1 && ParentOf(d.v1[x]) == p
  {
    BuiltLists(d, order);
    SortedGroupMember(d, order, p, i);
  }

  lemma BuiltOnce(d: Doc, order: seq<string>)
    requires NodesKeyed(d.v1) && Enumerates(order, d.v1.Keys)
    ensures var st := BuildStructure(NodesInOrder(d.v1, order));
            forall k :: k in d.v1 ==> OccursOnlyUnder(st, k, ParentOf(d.v1[k]))
  {
    forall k | k in d.v1
      ensures OccursOnlyUnder(BuildStructure(NodesInOrder(d.v1, order)), k, ParentOf(d.v1[k]))
    {
      BuiltOnceAt(d, order, k);
    }
  }

  lemma BuiltOnceAt(d: Doc, order: seq<string>, k: string)
    requires NodesKeyed(d.v1) && Enumerates(order, d.v1.Keys)
    requires k in d.v1
    ensures OccursOnlyUnder(BuildStructure(NodesInOrder(d.v1, order)), k, ParentOf(d.v1[k]))
  {
    var st := BuildStructure(NodesInOrder(d.v1, order));
    var n := d.v1[k];
    var p := ParentOf(n);
    BuiltKeysCover(d, order);
    BuiltLists(d, order);
    var i :| 0 <= i < |order| && order[i] == k;
    assert NodesInOrder(d.v1, order)[i] == n;
    var s := SortedGroup(d, order, p);
    assert n in multiset(s);
    var q :| 0 <= q < |s| && s[q] == n;
    assert st[p][q] == k;
    GroupIdsNoDup(d, order, p);
    NoDupCount(st[p], k);
    forall c | c in st && c != p ensures k !in st[c] {
      if k in st[c] {
        var j :| 0 <= j < |st[c]| && st[c][j] == k;
        BuiltMember(d, order, c, j);
      }
    }
  }

  lemma BuiltNoEmpty(d: Doc, order: seq<string>)
    requires NodesKeyed(d.v1) && Enumerates(order, d.v1.Keys)
    ensures NoEmpty(BuildStructure(NodesInOrder(d.v1, order)))
  {
    var st := BuildStructure(NodesInOrder(d.v1, order));
    BuiltLists(d, order);
    forall p | p in st ensures |st[p]| > 0 {
      BuiltKeysNamed(d, order, p);
      var k :| k in d.v1 && ParentOf(d.v1[k]) == p;
      var i :| 0 <= i < |order| && order[i] == k;
      assert NodesInOrder(d.v1, order)[i] == d.v1[k];
      assert d.v1[k] in multiset(SortedGroup(d, order, p));
    }
  }

  /** Every id has a v1 node, and each node must come strictly before the
      next under `displayOrder` with ties broken by id. */
  predicate StrictlyOrdered(v1: map<string, PlanNode>, ids: seq<string>)
  {
    && (forall i :: 0 <= i < |ids| ==> ids[i] in v1)
    && (forall i, j :: 0 <= i < j < |ids| ==> Precedes(v1[ids[i]], v1[ids[j]], true))
  }

  /** After a successful run each list is strictly ordered by
      `displayOrder`, ties broken by id. */
  lemma MigrateOrdering(d: Doc, order: seq<string>)
    requires NodesKeyed(d.v1) && Enumerates(order, d.v1.Keys)
    requires |d.v2Map| == 0 && |d.v2Structure| == 0 && |d.v1| > 0
    ensures var st := Migrate(d, order).v2Structure;
            forall p :: p in st ==> StrictlyOrdered(d.v1, st[p])
  {
    var st := Migrate(d, order).v2Structure;
    assert st == BuildStructure(NodesInOrder(d.v1, order));
    forall p | p in st ensures StrictlyOrdered(d.v1, st[p]) {
      BuiltOrdering(d, order, p);
    }
  }

  lemma BuiltOrdering(d: Doc, order: seq<string>, p: string)
    requires NodesKeyed(d.v1) && Enumerates(order, d.v1.Keys)
    requires p in BuildStructure(NodesInOrder(d.v1, order))
    ensures StrictlyOrdered(d.v1, BuildStructure(NodesInOrder(d.v1, order))[p])
  {
    var ids := BuildStructure(NodesInOrder(d.v1, order))[p];
    forall i | 0 <= i < |ids| ensures ids[i] in d.v1 {
      BuiltMember(d, order, p, i);
    }
    forall i, j | 0 <= i < j < |ids| ensures Precedes(d.v1[ids[i]], d.v1[ids[j]], true) {
      BuiltOrderAt(d, order, p, i, j);
    }
  }

  lemma BuiltOrderAt(d: Doc, order: seq<string>, p: string, i: int, j: int)
    requires NodesKeyed(d.v1) && Enumerates(order, d.v1.Keys)
    requires p in BuildStructure(NodesInOrder(d.v1, order))
    requires 0 <= i < j < |BuildStructure(NodesInOrder(d.v1, order))[p]|
    ensures var st := BuildStructure(NodesInOrder(d.v1, order));
            st[p][i] in d.v1 && st[p][j] in d.v1 && Precedes(d.v1[st[p][i]], d.v1[st[p][j]], true)
  {
    var s := SortedGroup(d, order, p);
    BuiltLists(d, order);
    SortedGroupMember(d, order, p, i);
    SortedGroupMember(d, order, p, j);
    GroupIdsNoDup(d, order, p);
    assert IdList(s)[i] != IdList(s)[j];
    assert InOrder(s, i, j, true);
    if s[i].displayOrder == s[j].displayOrder {
      StrLtTotal(s[i].id, s[j].id);
    }
  }
}
