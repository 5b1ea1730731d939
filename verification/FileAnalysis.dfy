/**
 * The lazily built query tables of one analysed file: handles numbered in traversal order,
 * and the parent and children tables built from the parent entries of the traversal, each
 * filled in one pass.
 */
module FileAnalysis {
  import opened Options
  import opened ParentTables
  import opened SyntaxAncestors
  import opened SyntaxIndex
  import opened SyntaxRelations

  /** `table` holds the handle of every node: a node that comes again gets its later place. */
  ghost predicate HandlesNodes(path: string, order: seq<Node>, table: map<nat, Handle>) {
    && (forall id :: id in table <==> id in Ids(order))
    && forall id <- table :: table[id] == HandleOf(path, order, id)
  }

  lemma OneMoreHandle(path: string, order: seq<Node>, i: nat, table: map<nat, Handle>)
    requires i < |order| && HandlesNodes(path, order[..i], table)
    ensures HandlesNodes(path, order[..i + 1], table[order[i].id := Handle(path, i)])
  {
    var longer := order[..i + 1];
    assert longer[..|longer| - 1] == order[..i] && longer[|longer| - 1] == order[i];
    assert Ids(longer) == Ids(order[..i]) + [order[i].id];
    forall id | id in Ids(longer)
      ensures HandleOf(path, longer, id) ==
              if id == order[i].id then Handle(path, i) else HandleOf(path, order[..i], id)
    {
      if id != order[i].id {
        Occurs(order[..i], id);
      }
    }
  }

  lemma Occurs(order: seq<Node>, id: nat)
    ensures id in Ids(order) <==> LastPlace(order, id) < |order|
  {
    if id in Ids(order) {
      var k :| 0 <= k < |order| && Ids(order)[k] == id;
    }
    if LastPlace(order, id) < |order| {
      assert Ids(order)[LastPlace(order, id)] == id;
    }
  }

  method HandleByNode(path: string, nodes: seq<Node>) returns (table: map<nat, Handle>)
    ensures HandlesNodes(path, nodes, table)
  {
    table := map[];
    for i := 0 to |nodes|
      invariant HandlesNodes(path, nodes[..i], table)
    {
      OneMoreHandle(path, nodes, i, table);
      table := table[nodes[i].id := Handle(path, i)];
    }
    WholeList(nodes);
  }

  /** Both nodes of an entry stand in the order, the child behind the module. */
  lemma EntryNodes(order: seq<Node>, t: nat)
    requires Traversed(order) && t < |Table(ParentsOf(order))|
    ensures var (child, parent) := Table(ParentsOf(order))[t];
      && child in Ids(order) && parent in Ids(order)
      && 1 <= LastPlace(order, child) < |order| == 1 + |ChildrenOf(order)|
      && LastPlace(order, parent) == ParentIndex(order, LastPlace(order, child))
  {
    var table := Table(ParentsOf(order));
    var (child, parent) := table[t];
    TableIsDistinct(ParentsOf(order));
    assert table[t] in table;
    DistinctLookup(table, child, parent);
    TableHoldsLast(ParentsOf(order), child);
    ValuedPlace(order, child);
    LastParent(order, LastPlace(order, child));
    ParentAbove(order, LastPlace(order, child));
    Occurs(order, child);
    Occurs(order, parent);
  }

  lemma TableIsDistinct(entries: ParentTable)
    ensures Distinct(Keys(Table(entries)))
  {
    TableKeys(entries);
    FirstKeysInOrder(Keys(entries));
    SortedIsDistinct(Keys(entries), Keys(Table(entries)));
  }

  /** What has a parent stands behind the module. */
  lemma ValuedPlace(order: seq<Node>, id: nat)
    requires Traversed(order) && LastValue(ParentsOf(order), id).Some?
    ensures 1 <= LastPlace(order, id) < |order|
    ensures IsLast(order, LastPlace(order, id)) && order[LastPlace(order, id)].id == id
  {
    KeysAreChildren(order);
    if id !in Keys(ParentsOf(order)) {
      NoValue(ParentsOf(order), id);
    }
    var i :| 0 <= i < |Keys(ParentsOf(order))| && Keys(ParentsOf(order))[i] == id;
    assert Ids(ChildrenOf(order))[i] == order[1..][i].id == order[i + 1].id;
  }

  ghost predicate KeyedUpTo(path: string, order: seq<Node>, table: ParentTable, t: nat, h: Handle)
    requires t <= |table|
  {
    exists i :: 0 <= i < t && h == HandleOf(path, order, table[i].0)
  }

  lemma OneMoreKey(path: string, order: seq<Node>, table: ParentTable, t: nat, h: Handle)
    requires t < |table|
    ensures KeyedUpTo(path, order, table, t + 1, h) <==>
            KeyedUpTo(path, order, table, t, h) || h == HandleOf(path, order, table[t].0)
  {
  }

  /** The parents of the first `t` keys of the table. */
  ghost predicate ParentsUpTo(path: string, order: seq<Node>, table: ParentTable, t: nat, parents: map<Handle, Handle>)
    requires t <= |table|
  {
    && (forall h :: h in parents <==> KeyedUpTo(path, order, table, t, h))
    && (forall h <- parents :: 1 <= h.node <= |ChildrenOf(order)| &&
          parents[h] == Handle(path, ParentIndex(order, h.node)))
  }

  method ParentByHandle(path: string, nodes: seq<Node>, table: ParentTable, handles: map<nat, Handle>)
    returns (parents: map<Handle, Handle>)
    requires Traversed(nodes) && table == Table(ParentsOf(nodes)) && HandlesNodes(path, nodes, handles)
    ensures ParentsUpTo(path, nodes, table, |table|, parents)
  {
    parents := map[];
    for t := 0 to |table|
      invariant ParentsUpTo(path, nodes, table, t, parents)
    {
      EntryNodes(nodes, t);
      OneMoreParent(path, nodes, table, t, parents);
      parents := parents[handles[table[t].0] := handles[table[t].1]];
    }
  }

  lemma OneMoreParent(path: string, order: seq<Node>, table: ParentTable, t: nat, parents: map<Handle, Handle>)
    requires t < |table| && ParentsUpTo(path, order, table, t, parents)
    requires 1 <= LastPlace(order, table[t].0) <= |ChildrenOf(order)|
    requires LastPlace(order, table[t].1) == ParentIndex(order, LastPlace(order, table[t].0))
    ensures ParentsUpTo(path, order, table, t + 1,
                        parents[HandleOf(path, order, table[t].0) := HandleOf(path, order, table[t].1)])
  {
    var more := parents[HandleOf(path, order, table[t].0) := HandleOf(path, order, table[t].1)];
    forall h ensures h in more <==> KeyedUpTo(path, order, table, t + 1, h) {
      OneMoreKey(path, order, table, t, h);
    }
  }

  /** Every node but the module has a key in the table. */
  lemma EveryChildHasAnEntry(path: string, order: seq<Node>, c: nat) returns (t: nat)
    requires Traversed(order) && 1 <= c && IsLast(order, c)
    ensures t < |Table(ParentsOf(order))| && Handle(path, c) == HandleOf(path, order, Table(ParentsOf(order))[t].0)
  {
    var table := Table(ParentsOf(order));
    LastParent(order, c);
    LastIsLast(order, c);
    TableIsDistinct(ParentsOf(order));
    TableHoldsLast(ParentsOf(order), order[c].id);
    var parent := order[ParentIndex(order, c)].id;
    DistinctLookup(table, order[c].id, parent);
    t :| 0 <= t < |table| && table[t] == (order[c].id, parent);
  }

  /** Every node has a list; it holds the children filed under it among the first `t` keys. */
  ghost predicate ListsChildren(path: string, order: seq<Node>, table: ParentTable, t: nat,
                                lists: map<nat, seq<Handle>>)
    requires t <= |table|
  {
    && (forall id :: id in lists <==> id in Ids(order))
    && forall id <- lists :: lists[id] == HandlesOf(path, order, Filed(table[..t], id))
  }

  method EmptyLists(path: string, nodes: seq<Node>, ghost table: ParentTable) returns (lists: map<nat, seq<Handle>>)
    ensures ListsChildren(path, nodes, table, 0, lists)
  {
    lists := map[];
    for i := 0 to |nodes|
      invariant forall id :: id in lists <==> id in Ids(nodes[..i])
      invariant forall id <- lists :: lists[id] == []
    {
      assert Ids(nodes[..i + 1]) == Ids(nodes[..i]) + [nodes[i].id];
      lists := lists[nodes[i].id := []];
    }
    WholeList(nodes);
  }

  /** File one more child under its parent. */
  lemma FileChild(path: string, order: seq<Node>, table: ParentTable, t: nat, lists: map<nat, seq<Handle>>)
    requires t < |table| && ListsChildren(path, order, table, t, lists) && table[t].1 in lists
    ensures ListsChildren(path, order, table, t + 1,
                          lists[table[t].1 := lists[table[t].1] + [HandleOf(path, order, table[t].0)]])
  {
    var (child, parent) := table[t];
    assert table[..t + 1][..t] == table[..t] && table[..t + 1][t] == table[t];
    forall id ensures Filed(table[..t + 1], id) == Filed(table[..t], id) + if parent == id then [child] else [] {
    }
    assert HandlesOf(path, order, Filed(table[..t], parent) + [child]) ==
           HandlesOf(path, order, Filed(table[..t], parent)) + [HandleOf(path, order, child)];
  }

  method ChildrenByNode(path: string, nodes: seq<Node>, table: ParentTable, handles: map<nat, Handle>)
    returns (lists: map<nat, seq<Handle>>)
    requires Traversed(nodes) && table == Table(ParentsOf(nodes)) && HandlesNodes(path, nodes, handles)
    ensures ListsChildren(path, nodes, table, |table|, lists)
  {
    lists := EmptyLists(path, nodes, table);
    for t := 0 to |table|
      invariant ListsChildren(path, nodes, table, t, lists)
    {
      EntryNodes(nodes, t);
      FileChild(path, nodes, table, t, lists);
      var (child, parent) := table[t];
      lists := lists[parent := lists[parent] + [handles[child]]];
    }
  }

  /** The children of the nodes at the first `n` places. */
  ghost predicate ChildrenUpTo(path: string, order: seq<Node>, n: nat, children: map<Handle, seq<Handle>>)
    requires n <= |order|
  {
    && (forall h <- children :: h.path == path && IsLast(order, h.node) &&
          children[h] == HandlesOf(path, order, ChildIds(order, order[h.node].id)))
    && forall i | 0 <= i < n :: HandleOf(path, order, order[i].id) in children
  }

  lemma OneMoreNode(path: string, order: seq<Node>, i: nat, children: map<Handle, seq<Handle>>)
    requires i < |order| && ChildrenUpTo(path, order, i, children)
    ensures var id := order[i].id;
      ChildrenUpTo(path, order, i + 1, children[HandleOf(path, order, id) := HandlesOf(path, order,
                                                                                       ChildIds(order, id))])
  {
    LastIsLast(order, i);
  }

  method ChildrenByHandle(path: string, nodes: seq<Node>, ghost table: ParentTable, handles: map<nat, Handle>,
                          lists: map<nat, seq<Handle>>)
    returns (children: map<Handle, seq<Handle>>)
    requires table == Table(ParentsOf(nodes)) && HandlesNodes(path, nodes, handles)
    requires ListsChildren(path, nodes, table, |table|, lists)
    ensures ChildrenUpTo(path, nodes, |nodes|, children)
  {
    WholeList(table);
    children := map[];
    for i := 0 to |nodes|
      invariant ChildrenUpTo(path, nodes, i, children)
    {
      assert Ids(nodes)[i] == nodes[i].id;
      OneMoreNode(path, nodes, i, children);
      children := children[handles[nodes[i].id] := lists[nodes[i].id]];
    }
  }

  lemma HandlesAreLastPlaces(path: string, order: seq<Node>, children: map<Handle, seq<Handle>>, h: Handle)
    requires ChildrenUpTo(path, order, |order|, children)
    ensures h in children <==> h.path == path && IsLast(order, h.node)
  {
    if h.path == path && IsLast(order, h.node) {
      LastIsLast(order, h.node);
      assert HandleOf(path, order, order[h.node].id) in children;
    }
  }

  lemma KeysAreLastPlaces(path: string, order: seq<Node>, h: Handle)
    requires Traversed(order)
    ensures var table := Table(ParentsOf(order));
      KeyedUpTo(path, order, table, |table|, h) <==> h.path == path && IsLast(order, h.node) && h.node != 0
  {
    var table := Table(ParentsOf(order));
    if KeyedUpTo(path, order, table, |table|, h) {
      var t :| 0 <= t < |table| && h == HandleOf(path, order, table[t].0);
      EntryNodes(order, t);
      LastIsLast(order, h.node);
    }
    if h.path == path && IsLast(order, h.node) && h.node != 0 {
      var t := EveryChildHasAnEntry(path, order, h.node);
    }
  }

  lemma TablesRelate(path: string, order: seq<Node>, parents: map<Handle, Handle>, children: map<Handle, seq<Handle>>)
    requires Traversed(order) && ChildrenUpTo(path, order, |order|, children)
    requires ParentsUpTo(path, order, Table(ParentsOf(order)), |Table(ParentsOf(order))|, parents)
    ensures Relate(path, order, Relations(children.Keys, parents, children))
  {
    assert |order[1..]| == |order| - 1;
    forall h
      ensures h in children <==> h.path == path && IsLast(order, h.node)
      ensures h in parents <==> h in children && h.node != 0
    {
      HandlesAreLastPlaces(path, order, children, h);
      KeysAreLastPlaces(path, order, h);
    }
  }

  /** Relate the nodes of a traversal. */
  method BuildRelations(path: string, nodes: seq<Node>, table: ParentTable) returns (r: Relations)
    requires Traversed(nodes) && table == Table(ParentsOf(nodes))
    ensures Relate(path, nodes, r)
  {
    var handleByNode := HandleByNode(path, nodes);
    var parents := ParentByHandle(path, nodes, table, handleByNode);
    var lists := ChildrenByNode(path, nodes, table, handleByNode);
    var children := ChildrenByHandle(path, nodes, table, handleByNode, lists);
    TablesRelate(path, nodes, parents, children);
    r := Relations(children.Keys, parents, children);
  }

  // ---------- The lazily filled objects ----------

  datatype SyntaxIndexes = SyntaxIndexes(nodes: seq<Node>, nodeIndex: map<string, seq<Node>>, parentByNode: ParentTable)

  /** The traversal indexes of one parsed module, made on first demand. */
  class LazySyntaxArtifacts {
    const tree: Node
    var indexes: Option<SyntaxIndexes>

    ghost predicate Valid()
      reads this
    {
      && SharesLeavesOnly(Preorder([tree]))
      && (indexes.Some? ==>
            IsIndex(tree, indexes.value.nodes, indexes.value.nodeIndex, indexes.value.parentByNode))
    }

    constructor (tree: Node)
      requires SharesLeavesOnly(Preorder([tree]))
      ensures Valid() && this.tree == tree && indexes.None?
    {
      this.tree := tree;
      indexes := None;
    }

    method EnsureIndexes() returns (result: SyntaxIndexes)
      requires Valid()
      modifies `indexes
      ensures Valid() && indexes == Some(result)
      ensures old(indexes).Some? ==> indexes == old(indexes)
    {
      if indexes.None? {
        var nodes, nodeIndex, parentByNode := IndexModuleNodes(tree);
        indexes := Some(SyntaxIndexes(nodes, nodeIndex, parentByNode));
      }
      return indexes.value;
    }
  }

  /** The analysis of one file; its relation queries are made on first demand. */
  class PythonFileAnalysis {
    const path: string
    const artifacts: LazySyntaxArtifacts
    var relations: Option<Relations>

    ghost predicate Valid()
      reads this, artifacts
    {
      && artifacts.Valid()
      && (relations.Some? ==> Relate(path, LevelOrder([artifacts.tree]), relations.value))
    }

    constructor (path: string, artifacts: LazySyntaxArtifacts)
      requires artifacts.Valid()
      ensures Valid() && this.path == path && this.artifacts == artifacts && relations.None?
    {
      this.path := path;
      this.artifacts := artifacts;
      relations := None;
    }

    method EnsureQueries() returns (result: Relations)
      requires Valid()
      modifies `relations, artifacts`indexes
      ensures Valid() && relations == Some(result)
      ensures old(relations).Some? ==> relations == old(relations)
      ensures Relate(path, LevelOrder([artifacts.tree]), result)
    {
      if relations.None? {
        var indexes := artifacts.EnsureIndexes();
        LevelOrderIsTraversed(artifacts.tree);
        var built := BuildRelations(path, indexes.nodes, indexes.parentByNode);
        relations := Some(built);
      }
      return relations.value;
    }

    /** The ancestors of a handle, from its parent to the module; none for a handle of another file. */
    method AncestorsOfHandle(handle: Handle) returns (result: Option<seq<Handle>>)
      requires Valid()
      modifies `relations, artifacts`indexes
      ensures Valid()
      ensures var order := LevelOrder([artifacts.tree]);
        && (result.Some? <==> handle.path == path && IsLast(order, handle.node))
        && (result.Some? ==> forall a <- result.value :: Encloses(path, order, a, handle))
        && (result.Some? ==>
              ((forall a | Encloses(path, order, a, handle) :: a in result.value) <==>
               HeldOnOneLine(order, order[handle.node])))
        && (result.Some? ==> forall k :: 0 < k < |result.value| ==> result.value[k].node < result.value[k - 1].node)
    {
      var r := EnsureQueries();
      ghost var order := LevelOrder([artifacts.tree]);
      LevelOrderIsTraversed(artifacts.tree);
      RelationsDescend(path, order, r);
      result := Ancestors(r, handle);
      if result.Some? {
        AncestorsExactly(path, order, r, handle);
        EnclosingAreHolders(path, order, r, handle);
        AncestorsDescend(r, handle);
      }
    }
  }

  /** `a` is the handle of a node whose subtree holds the node of `h`. */
  ghost predicate Encloses(path: string, order: seq<Node>, a: Handle, h: Handle)
    requires h.node < |order|
  {
    a.path == path && IsLast(order, a.node) && order[h.node] in Preorder(order[a.node].children)
  }

  lemma EnclosingAreHolders(path: string, order: seq<Node>, r: Relations, h: Handle)
    requires Relate(path, order, r) && Descends(r) && h in r.handles
    ensures h.node < |order|
    ensures forall a :: Encloses(path, order, a, h) <==>
                        a in r.handles && a.node < |order| && order[h.node] in Preorder(order[a.node].children)
    ensures (forall a | Encloses(path, order, a, h) :: a in AncestorsOf(r, h)) <==> HoldersAscend(order, r, h)
  {
  }

  lemma LevelOrderIsTraversed(module_: Node)
    requires SharesLeavesOnly(Preorder([module_]))
    ensures Traversed(LevelOrder([module_]))
  {
    LevelOrderIsInPlace(module_);
    OrderAccounts(module_);
    OrderSharesLeavesOnly(module_);
    var order := LevelOrder([module_]);
    assert order[1..] == ChildrenOf(order);
  }

  lemma {:induction false} AncestorsDescend(r: Relations, h: Handle)
    requires Descends(r)
    ensures var a := AncestorsOf(r, h);
      && (a != [] ==> a[0].node < h.node)
      && forall k :: 0 < k < |a| ==> a[k].node < a[k - 1].node
    decreases h.node
  {
    if h in r.parents {
      AncestorsDescend(r, r.parents[h]);
    }
  }
}
