/**
 * Handles for the nodes of one file, and the tables that relate them. A handle is the node's place in
 * the level order; the tables of parents and of children answer all questions about who
 * encloses whom without walking the tree again.
 */
module SyntaxRelations {
  import opened Options
  import opened ParentTables
  import opened Sorting
  import opened SyntaxIndex

  datatype Handle = Handle(path: string, node: nat)

  datatype Relations = Relations(handles: set<Handle>, parents: map<Handle, Handle>, children: map<Handle, seq<Handle>>)

  // ---------- Parents by place ----------

  /** The node whose children hold place `c`. */
  function ParentIndex(order: seq<Node>, c: nat): (p: nat)
    requires 1 <= c <= |ChildrenOf(order)|
    ensures p < |order|
  {
    var init := order[..|order| - 1];
    if c <= |ChildrenOf(init)| then ParentIndex(init, c) else |order| - 1
  }

  ghost predicate HoldsChild(order: seq<Node>, p: nat, c: nat) {
    p < |order| && FirstChild(order, p) <= c < FirstChild(order, p + 1)
  }

  lemma {:induction false} FirstChildGrows(order: seq<Node>, p: nat, q: nat)
    requires p <= q <= |order|
    ensures FirstChild(order, p) <= FirstChild(order, q)
  {
    if p < q {
      assert order[..q][..q - 1] == order[..q - 1];
      FirstChildGrows(order, p, q - 1);
    }
  }

  lemma PrefixFirstChild(order: seq<Node>, n: nat, p: nat)
    requires p <= n <= |order|
    ensures FirstChild(order[..n], p) == FirstChild(order, p)
  {
    assert order[..n][..p] == order[..p];
  }

  lemma {:induction false} ParentHoldsChild(order: seq<Node>, c: nat)
    requires 1 <= c <= |ChildrenOf(order)|
    ensures HoldsChild(order, ParentIndex(order, c), c)
  {
    var n := |order| - 1;
    var init := order[..n];
    if c <= |ChildrenOf(init)| {
      ParentHoldsChild(init, c);
      PrefixFirstChild(order, n, ParentIndex(init, c));
      PrefixFirstChild(order, n, ParentIndex(init, c) + 1);
    } else {
      assert order[..n + 1] == order;
    }
  }

  lemma ParentIsUnique(order: seq<Node>, p: nat, q: nat, c: nat)
    requires HoldsChild(order, p, c) && HoldsChild(order, q, c)
    ensures p == q
  {
    if p < q {
      FirstChildGrows(order, p + 1, q);
    } else if q < p {
      FirstChildGrows(order, q + 1, p);
    }
  }

  lemma {:induction false} KeysAreChildren(nodes: seq<Node>)
    ensures Keys(ParentsOf(nodes)) == Ids(ChildrenOf(nodes))
  {
    if nodes != [] {
      KeysAreChildren(nodes[..|nodes| - 1]);
    }
  }

  /** Entry `c - 1` of the parent entries belongs to the child at place `c`. */
  lemma {:induction false} EntryAt(order: seq<Node>, c: nat)
    requires 1 <= c <= |ChildrenOf(order)|
    ensures |ParentsOf(order)| == |ChildrenOf(order)|
    ensures ParentsOf(order)[c - 1] == (ChildrenOf(order)[c - 1].id, order[ParentIndex(order, c)].id)
  {
    KeysAreChildren(order);
    var init := order[..|order| - 1];
    KeysAreChildren(init);
    if c <= |ChildrenOf(init)| {
      EntryAt(init, c);
    }
  }

  // ---------- Shared nodes ----------

  /** A node may stand at several places, as the context nodes of names do, but then it has no children. */
  ghost predicate SharesLeavesOnly(nodes: seq<Node>) {
    && (forall x, y {:trigger Identified(x, y)} | x in nodes && y in nodes :: Identified(x, y))
    && (forall x {:trigger multiset(nodes)[x]} | x in nodes && multiset(nodes)[x] > 1 :: x.children == [])
  }

  predicate Identified(x: Node, y: Node) {
    x.id == y.id ==> x == y
  }

  lemma OrderSharesLeavesOnly(module_: Node)
    requires SharesLeavesOnly(Preorder([module_]))
    ensures SharesLeavesOnly(LevelOrder([module_]))
  {
    EveryNodeAsOften(module_);
    var order, tree := LevelOrder([module_]), Preorder([module_]);
    assert forall x :: x in order <==> x in multiset(order);
    assert forall x :: x in tree <==> x in multiset(tree);
  }

  lemma CountedTwice<T>(s: seq<T>, i: nat, j: nat)
    requires i < j < |s| && s[i] == s[j]
    ensures multiset(s)[s[i]] > 1
  {
    assert s == s[..j] + [s[j]] + s[j + 1..];
    assert s[..j][i] == s[i];
  }

  lemma SharedIsLeaf(order: seq<Node>, i: nat, j: nat)
    requires SharesLeavesOnly(order) && i < |order| && j < |order| && i != j && order[i].id == order[j].id
    ensures order[i] == order[j] && order[i].children == []
  {
    assert Identified(order[i], order[j]);
    CountedTwice(order, if i < j then i else j, if i < j then j else i);
  }

  /** Where the node `id` stands last. */
  function LastPlace(order: seq<Node>, id: nat): (i: nat)
    ensures i <= |order|
    ensures i < |order| ==> order[i].id == id
    ensures forall j | i < j < |order| :: order[j].id != id
    ensures i == |order| ==> forall j | 0 <= j < |order| :: order[j].id != id
  {
    if order == [] then 0
    else if order[|order| - 1].id == id then |order| - 1
    else
      var i := LastPlace(order[..|order| - 1], id);
      if i == |order| - 1 then |order| else i
  }

  ghost predicate IsLast(order: seq<Node>, i: nat) {
    i < |order| && forall j | i < j < |order| :: order[j].id != order[i].id
  }

  lemma LastIsLast(order: seq<Node>, i: nat)
    requires i < |order|
    ensures IsLast(order, i) <==> LastPlace(order, order[i].id) == i
    ensures IsLast(order, LastPlace(order, order[i].id))
  {
  }

  /** No other place holds the node at place `i`. */
  ghost predicate Once(order: seq<Node>, i: nat) {
    i < |order| && forall j | 0 <= j < |order| && j != i :: order[j].id != order[i].id
  }

  lemma ParentsStandOnce(order: seq<Node>, i: nat)
    requires SharesLeavesOnly(order) && i < |order| && order[i].children != []
    ensures Once(order, i) && IsLast(order, i)
  {
    forall j | 0 <= j < |order| && j != i ensures order[j].id != order[i].id {
      if order[j].id == order[i].id {
        SharedIsLeaf(order, i, j);
      }
    }
  }

  // ---------- What the tables say ----------

  function HandleOf(path: string, order: seq<Node>, id: nat): Handle {
    Handle(path, LastPlace(order, id))
  }

  function HandlesOf(path: string, order: seq<Node>, ids: seq<nat>): (handles: seq<Handle>)
    ensures |handles| == |ids|
    ensures forall k :: 0 <= k < |ids| ==> handles[k] == HandleOf(path, order, ids[k])
  {
    seq(|ids|, k requires 0 <= k < |ids| => HandleOf(path, order, ids[k]))
  }

  /** The nodes whose parent was set to `id` last, in the order in which they were met first. */
  function ChildIds(order: seq<Node>, id: nat): seq<nat> {
    Filed(Table(ParentsOf(order)), id)
  }

  /** All nodes but the first are children, in order. */
  ghost predicate Traversed(order: seq<Node>) {
    ChildrenFollow(order) && InPlace(order) && SharesLeavesOnly(order)
  }

  predicate ChildrenFollow(order: seq<Node>) {
    order != [] && order[1..] == ChildrenOf(order)
  }

  /**
   * The tables of the nodes in `order`. A handle is the last place of a node; its parent is the node that holds
   * that place; the children of a node are those that have it as their parent.
   */
  ghost predicate Relate(path: string, order: seq<Node>, r: Relations) {
    && (forall h :: h in r.handles <==> h.path == path && IsLast(order, h.node))
    && (forall h :: h in r.parents <==> h in r.handles && h.node != 0)
    && |order| == 1 + |ChildrenOf(order)|
    && (forall h <- r.parents :: h.node < |order| && r.parents[h] == Handle(path, ParentIndex(order, h.node)))
    && r.children.Keys == r.handles
    && (forall h <- r.children :: h.node < |order| &&
          r.children[h] == HandlesOf(path, order, ChildIds(order, order[h.node].id)))
  }

  /** The children of node `i` stand at their places, behind it. */
  ghost predicate ChildrenInPlace(order: seq<Node>, i: nat)
    requires i < |order|
  {
    && i < FirstChild(order, i) <= FirstChild(order, i + 1) <= |order|
    && order[FirstChild(order, i)..FirstChild(order, i + 1)] == order[i].children
  }

  ghost predicate InPlace(order: seq<Node>) {
    forall i | 0 <= i < |order| :: ChildrenInPlace(order, i)
  }

  lemma LevelOrderIsInPlace(module_: Node)
    ensures InPlace(LevelOrder([module_]))
  {
    var order := LevelOrder([module_]);
    forall i | 0 <= i < |order| ensures ChildrenInPlace(order, i) {
      ChildrenStandTogether(module_, order, i);
    }
  }

  /** Child `k` of node `i` stands `k` places behind the node's first child. */
  lemma ChildPlace(order: seq<Node>, i: nat, k: nat)
    requires i < |order| && ChildrenInPlace(order, i) && k < |order[i].children|
    ensures i < FirstChild(order, i) + k < |order|
    ensures order[FirstChild(order, i) + k] == order[i].children[k]
  {
    SliceAt(order, FirstChild(order, i), FirstChild(order, i + 1), order[i].children, k);
  }

  lemma SliceAt(order: seq<Node>, low: nat, high: nat, children: seq<Node>, k: nat)
    requires low <= high <= |order| && order[low..high] == children && k < |children|
    ensures order[low + k] == children[k]
  {
  }

  lemma LastValueIs(entries: ParentTable, i: nat)
    requires i < |entries| && forall j | i < j < |entries| :: entries[j].0 != entries[i].0
    ensures LastValue(entries, entries[i].0) == Some(entries[i].1)
    decreases |entries|
  {
    if i < |entries| - 1 {
      LastValueIs(entries[..|entries| - 1], i);
    }
  }

  lemma {:induction false} NoValue(entries: ParentTable, key: nat)
    requires key !in Keys(entries)
    ensures LastValue(entries, key).None?
  {
    if entries != [] {
      assert Keys(entries)[|entries| - 1] == entries[|entries| - 1].0;
      assert Keys(entries[..|entries| - 1]) == Keys(entries)[..|entries| - 1];
      NoValue(entries[..|entries| - 1], key);
    }
  }

  lemma EntryOf(order: seq<Node>, c: nat)
    requires ChildrenFollow(order) && 1 <= c < |order|
    ensures |ParentsOf(order)| == |order| - 1 == |ChildrenOf(order)|
    ensures ParentsOf(order)[c - 1] == (order[c].id, order[ParentIndex(order, c)].id)
  {
    EntryAt(order, c);
    assert order[1..][c - 1] == order[c];
  }

  /** The parent assigned last is the node that holds the last place. */
  lemma LastParent(order: seq<Node>, c: nat)
    requires ChildrenFollow(order) && 1 <= c && IsLast(order, c)
    ensures |ChildrenOf(order)| == |order| - 1
    ensures LastValue(ParentsOf(order), order[c].id) == Some(order[ParentIndex(order, c)].id)
  {
    EntryOf(order, c);
    forall j | c - 1 < j < |order| - 1 ensures ParentsOf(order)[j].0 != ParentsOf(order)[c - 1].0 {
      EntryOf(order, j + 1);
    }
    LastValueIs(ParentsOf(order), c - 1);
  }

  lemma ParentBefore(order: seq<Node>, c: nat)
    requires InPlace(order) && 1 <= c <= |ChildrenOf(order)| && c < |order|
    ensures var p := ParentIndex(order, c); p < c && order[c] in order[p].children
  {
    var p := ParentIndex(order, c);
    ParentHoldsChild(order, c);
    assert ChildrenInPlace(order, p);
    ChildPlace(order, p, c - FirstChild(order, p));
  }

  lemma ParentAbove(order: seq<Node>, c: nat)
    requires Traversed(order) && 1 <= c < |order|
    ensures |ChildrenOf(order)| == |order| - 1
    ensures var p := ParentIndex(order, c);
      p < c && order[c] in order[p].children && IsLast(order, p) && LastPlace(order, order[p].id) == p && Once(order, p)
  {
    assert |order[1..]| == |order| - 1;
    ParentBefore(order, c);
    ParentsStandOnce(order, ParentIndex(order, c));
    LastIsLast(order, ParentIndex(order, c));
  }

  /** A node is filed under the parent that holds its last place. */
  lemma FiledUnder(order: seq<Node>, p: nat, id: nat)
    requires Traversed(order) && p < |order|
    ensures var c := LastPlace(order, id);
      id in ChildIds(order, order[p].id) <==> 1 <= c < |order| && ParentIndex(order, c) == p
    ensures |ChildrenOf(order)| == |order| - 1
  {
    assert |order[1..]| == |order| - 1;
    var c, entries := LastPlace(order, id), ParentsOf(order);
    FiledMeaning(entries, order[p].id);
    if 1 <= c < |order| {
      LastParent(order, c);
      ParentAbove(order, c);
    } else {
      KeysAreChildren(order);
      forall i | 0 <= i < |Keys(entries)| ensures Keys(entries)[i] != id {
        assert Ids(ChildrenOf(order))[i] == order[1..][i].id == order[i + 1].id;
      }
      NoValue(entries, id);
    }
  }

  lemma ListedHandle(path: string, order: seq<Node>, ids: seq<nat>, c: Handle)
    ensures c in HandlesOf(path, order, ids) <==> exists id :: id in ids && c == HandleOf(path, order, id)
  {
    if id :| id in ids && c == HandleOf(path, order, id) {
      var k :| 0 <= k < |ids| && ids[k] == id;
      assert HandlesOf(path, order, ids)[k] == c;
    }
  }

  /** The parent table and the children table are inverse to each other. */
  lemma ParentsAndChildrenAreInverse(path: string, order: seq<Node>, r: Relations, p: Handle, c: Handle)
    requires Traversed(order) && Relate(path, order, r) && p in r.handles
    ensures c in r.children[p] <==> c in r.parents && r.parents[c] == p
  {
    var ids := ChildIds(order, order[p.node].id);
    ListedHandle(path, order, ids, c);
    if c in r.children[p] {
      var id :| id in ids && c == HandleOf(path, order, id);
      FiledUnder(order, p.node, id);
      LastIsLast(order, c.node);
    }
    if c in r.parents && r.parents[c] == p {
      LastIsLast(order, c.node);
      FiledUnder(order, p.node, order[c.node].id);
      assert c == HandleOf(path, order, order[c.node].id);
    }
  }

  lemma ChildIsHeld(order: seq<Node>, p: nat, k: nat)
    requires ChildrenFollow(order) && InPlace(order) && p < |order| && k < |order[p].children|
    ensures 1 <= FirstChild(order, p) + k < |order| == 1 + |ChildrenOf(order)|
    ensures ParentIndex(order, FirstChild(order, p) + k) == p
  {
    assert |order[1..]| == |order| - 1;
    assert ChildrenInPlace(order, p);
    ChildPlace(order, p, k);
    ParentHoldsChild(order, FirstChild(order, p) + k);
    ParentIsUnique(order, p, ParentIndex(order, FirstChild(order, p) + k), FirstChild(order, p) + k);
  }

  lemma PlaceOfChild(order: seq<Node>, p: nat, k: nat)
    requires ChildrenFollow(order) && InPlace(order) && p < |order| && k < |order[p].children|
    ensures var c := FirstChild(order, p) + k;
      1 <= c < |order| == 1 + |ChildrenOf(order)| && order[c] == order[p].children[k] && ParentIndex(order, c) == p
  {
    assert ChildrenInPlace(order, p);
    ChildPlace(order, p, k);
    ChildIsHeld(order, p, k);
  }

  lemma ParentOfPlace(path: string, order: seq<Node>, r: Relations, c: nat)
    requires Relate(path, order, r) && 1 <= c && IsLast(order, c)
    ensures Handle(path, c) in r.parents && r.parents[Handle(path, c)] == Handle(path, ParentIndex(order, c))
  {
    assert Handle(path, c) in r.handles;
  }

  /** The handle of a child at the last place of the node. */
  lemma ChildHandle(path: string, order: seq<Node>, r: Relations, p: Handle, k: nat)
    requires ChildrenFollow(order) && InPlace(order) && Relate(path, order, r) && p in r.handles
    requires k < |order[p.node].children|
    ensures var c := FirstChild(order, p.node) + k;
      && c < |order| && order[c] == order[p.node].children[k]
      && (IsLast(order, c) ==> Handle(path, c) in r.parents && r.parents[Handle(path, c)] == p)
  {
    PlaceOfChild(order, p.node, k);
    if IsLast(order, FirstChild(order, p.node) + k) {
      ParentOfPlace(path, order, r, FirstChild(order, p.node) + k);
    }
  }

  lemma ListedIsChild(path: string, order: seq<Node>, r: Relations, p: Handle, c: Handle)
    requires Traversed(order) && Relate(path, order, r) && p in r.handles && c in r.children[p]
    ensures c.node < |order| && order[c.node] in order[p.node].children
  {
    ParentsAndChildrenAreInverse(path, order, r, p, c);
    ParentAbove(order, c.node);
  }

  lemma ListedByFirst(order: seq<Node>, p: nat)
    requires p < |order|
    ensures Sorted(ChildIds(order, order[p].id), ByFirst(Ids(ChildrenOf(order))))
  {
    KeysAreChildren(order);
    FiledMeaning(ParentsOf(order), order[p].id);
  }

  /**
   * The handles listed for a node are children of it; a child that stands nowhere else is listed; and the list is
   * in the order in which the nodes were met first.
   */
  lemma ListedChildren(path: string, order: seq<Node>, r: Relations, p: Handle, k: nat)
    requires Traversed(order) && Relate(path, order, r) && p in r.handles
    ensures forall c | c in r.children[p] :: c.node < |order| && order[c.node] in order[p.node].children
    ensures var c := FirstChild(order, p.node) + k;
      k < |order[p.node].children| ==>
        && c < |order| && order[c] == order[p.node].children[k]
        && (Once(order, c) ==> Handle(path, c) in r.children[p])
    ensures Sorted(ChildIds(order, order[p.node].id), ByFirst(Ids(ChildrenOf(order))))
  {
    forall c | c in r.children[p] ensures c.node < |order| && order[c.node] in order[p.node].children {
      ListedIsChild(path, order, r, p, c);
    }
    if k < |order[p.node].children| {
      ChildHandle(path, order, r, p, k);
      ParentsAndChildrenAreInverse(path, order, r, p, Handle(path, FirstChild(order, p.node) + k));
    }
    ListedByFirst(order, p.node);
  }

  /** None of the children of node `p` stands anywhere else. */
  ghost predicate ChildrenStandOnce(order: seq<Node>, p: nat)
    requires p < |order|
  {
    forall c | FirstChild(order, p) <= c < FirstChild(order, p + 1) :: Once(order, c)
  }

  lemma FirstOfOnce(order: seq<Node>, c: nat)
    requires Traversed(order) && 1 <= c && Once(order, c)
    ensures First(Ids(ChildrenOf(order)), order[c].id) == c - 1
  {
    var ids := Ids(ChildrenOf(order));
    assert |order[1..]| == |order| - 1;
    assert ids[c - 1] == order[1..][c - 1].id;
    var i := First(ids, order[c].id);
    if i < |ids| {
      assert ids[i] == order[1..][i].id == order[i + 1].id;
    }
  }

  lemma OwnPlace(order: seq<Node>, p: nat, k: nat)
    requires Traversed(order) && p < |order| && ChildrenStandOnce(order, p) && k < |order[p].children|
    ensures var c := FirstChild(order, p) + k;
      && 1 <= c < |order| && order[c] == order[p].children[k] && Once(order, c) && LastPlace(order, order[c].id) == c
      && First(Ids(ChildrenOf(order)), order[p].children[k].id) == c - 1
      && ParentIndex(order, c) == p
    ensures |order| == 1 + |ChildrenOf(order)|
  {
    assert ChildrenInPlace(order, p);
    ChildPlace(order, p, k);
    ChildIsHeld(order, p, k);
    assert |order[FirstChild(order, p)..FirstChild(order, p + 1)]| == |order[p].children|;
    assert Once(order, FirstChild(order, p) + k);
    LastIsLast(order, FirstChild(order, p) + k);
    FirstOfOnce(order, FirstChild(order, p) + k);
  }

  lemma ListedIsOwn(order: seq<Node>, p: nat, id: nat)
    requires Traversed(order) && p < |order| && id in ChildIds(order, order[p].id)
    ensures id in Ids(order[p].children)
  {
    FiledUnder(order, p, id);
    ParentAbove(order, LastPlace(order, id));
    IdOfChild(order[p].children, order[LastPlace(order, id)]);
  }

  lemma IdOfChild(children: seq<Node>, child: Node)
    requires child in children
    ensures child.id in Ids(children)
  {
    var k :| 0 <= k < |children| && children[k] == child;
    assert Ids(children)[k] == child.id;
  }

  lemma OwnIsListed(order: seq<Node>, p: nat, id: nat)
    requires Traversed(order) && p < |order| && ChildrenStandOnce(order, p) && id in Ids(order[p].children)
    ensures id in ChildIds(order, order[p].id)
  {
    var k :| 0 <= k < |order[p].children| && order[p].children[k].id == id;
    OwnPlace(order, p, k);
    FiledUnder(order, p, id);
  }

  lemma OwnInOrder(order: seq<Node>, p: nat)
    requires Traversed(order) && p < |order| && ChildrenStandOnce(order, p)
    ensures Sorted(Ids(order[p].children), ByFirst(Ids(ChildrenOf(order))))
  {
    var own, less := Ids(order[p].children), ByFirst(Ids(ChildrenOf(order)));
    forall i, j | 0 <= i < j < |own| ensures less(own[i], own[j]) {
      OwnPlace(order, p, i);
      OwnPlace(order, p, j);
    }
  }

  lemma OwnIds(order: seq<Node>, p: nat)
    requires Traversed(order) && p < |order| && ChildrenStandOnce(order, p)
    ensures ChildIds(order, order[p].id) == Ids(order[p].children)
  {
    ByFirstIsStrict(Ids(ChildrenOf(order)));
    ListedByFirst(order, p);
    OwnInOrder(order, p);
    forall id ensures id in ChildIds(order, order[p].id) <==> id in Ids(order[p].children) {
      if id in ChildIds(order, order[p].id) { ListedIsOwn(order, p, id); }
      if id in Ids(order[p].children) { OwnIsListed(order, p, id); }
    }
    SortedIsUnique(ChildIds(order, order[p].id), Ids(order[p].children), ByFirst(Ids(ChildrenOf(order))));
  }

  /** A node whose children stand nowhere else lists exactly its children, in their order. */
  lemma ChildrenAreTheChildren(path: string, order: seq<Node>, r: Relations, p: Handle, k: nat)
    requires Traversed(order) && Relate(path, order, r) && p in r.handles && ChildrenStandOnce(order, p.node)
    ensures |r.children[p]| == |order[p.node].children|
    ensures k < |r.children[p]| ==>
              r.children[p][k].node < |order| && order[r.children[p][k].node] == order[p.node].children[k]
  {
    OwnLast(order, p.node, k);
    OwnIds(order, p.node);
    ListedHandles(path, order, r, p, Ids(order[p.node].children), k);
  }

  lemma OwnLast(order: seq<Node>, p: nat, k: nat)
    requires Traversed(order) && p < |order| && ChildrenStandOnce(order, p)
    ensures |Ids(order[p].children)| == |order[p].children|
    ensures k < |order[p].children| ==> var c := LastPlace(order, Ids(order[p].children)[k]);
      c < |order| && order[c] == order[p].children[k]
  {
    if k < |order[p].children| {
      OwnPlace(order, p, k);
    }
  }

  lemma ListedHandles(path: string, order: seq<Node>, r: Relations, p: Handle, ids: seq<nat>, k: nat)
    requires Relate(path, order, r) && p in r.handles && ids == ChildIds(order, order[p.node].id)
    ensures |r.children[p]| == |ids|
    ensures k < |ids| ==> r.children[p][k] == Handle(path, LastPlace(order, ids[k]))
  {
  }

  /** No later node holds a child of node `p`, and its children were met first one after the other. */
  ghost predicate KeepsItsChildren(order: seq<Node>, p: nat)
    requires p < |order|
  {
    && (forall id | id in Ids(order[p].children) :: HeldLastBy(order, p, id))
    && Sorted(Ids(order[p].children), ByFirst(Ids(ChildrenOf(order))))
  }

  ghost predicate HeldLastBy(order: seq<Node>, p: nat, id: nat) {
    var c := LastPlace(order, id);
    1 <= c <= |ChildrenOf(order)| && ParentIndex(order, c) == p
  }

  /** A node lists exactly its children, in their order, if and only if it keeps them. */
  lemma ListsItsChildrenExactly(order: seq<Node>, p: nat)
    requires Traversed(order) && p < |order|
    ensures ChildIds(order, order[p].id) == Ids(order[p].children) <==> KeepsItsChildren(order, p)
  {
    var listed, own := ChildIds(order, order[p].id), Ids(order[p].children);
    ByFirstIsStrict(Ids(ChildrenOf(order)));
    ListedByFirst(order, p);
    assert |order[1..]| == |order| - 1;
    forall id ensures id in listed <==> HeldLastBy(order, p, id) {
      FiledUnder(order, p, id);
    }
    forall id ensures id in listed ==> id in own {
      if id in listed { ListedIsOwn(order, p, id); }
    }
    if KeepsItsChildren(order, p) {
      SortedIsUnique(listed, own, ByFirst(Ids(ChildrenOf(order))));
    }
  }

  /** Parents come before their children; every node but the module has one. */
  lemma ParentsComeFirst(path: string, order: seq<Node>, r: Relations, c: Handle)
    requires Traversed(order) && Relate(path, order, r) && c in r.handles
    ensures c in r.parents <==> c.node != 0
    ensures c in r.parents ==> r.parents[c] in r.handles && r.parents[c].node < c.node
    ensures c in r.parents ==> order[c.node] in order[r.parents[c].node].children
  {
    if c.node != 0 {
      ParentAbove(order, c.node);
    }
  }

  // ---------- A shared context node ----------

  /** The tree of `z = 0` and `x.y = 1`, as far as names and their shared context go. */
  ghost predicate IsTwoAssignments(module_: Node, z: Node, attribute: Node, store: Node, x: Node) {
    && module_ == Node(0, "Module", [z, attribute]) && z == Node(1, "Name", [store])
    && attribute == Node(2, "Attribute", [x, store]) && store == Node(3, "Store", []) && x == Node(4, "Name", [])
  }

  /** A shared leaf that is met below an earlier node is listed before its siblings, although it comes last. */
  lemma SharedNodeComesFirst(module_: Node, z: Node, attribute: Node, store: Node, x: Node)
    requires IsTwoAssignments(module_, z, attribute, store, x)
    ensures var order := LevelOrder([module_]);
      && |order| == 6 && order[2] == attribute && SharesLeavesOnly(order)
      && Ids(attribute.children) == [4, 3] && ChildIds(order, attribute.id) == [3, 4]
  {
    ThreeLevels(module_, z, attribute, store, x);
    FiveEntries(module_, z, attribute, store, x);
    FiledOfFive([module_, z, attribute, store, x, store]);
    SharedStore(module_, z, attribute, store, x);
    IdsOfTwo(x, store);
  }

  lemma IdsOfTwo(a: Node, b: Node)
    ensures Ids([a, b]) == [a.id, b.id]
  {
  }

  lemma FiledOfFive(order: seq<Node>)
    requires ParentsOf(order) == [(1, 0), (2, 0), (3, 1), (4, 2), (3, 2)]
    ensures ChildIds(order, 2) == [3, 4]
  {
    FiveAssignments();
  }

  lemma SharedStore(module_: Node, z: Node, attribute: Node, store: Node, x: Node)
    requires IsTwoAssignments(module_, z, attribute, store, x)
    ensures SharesLeavesOnly([module_, z, attribute, store, x, store])
  {
    var order := [module_, z, attribute, store, x, store];
    assert multiset(order) == multiset{module_, z, attribute, store, x, store};
    forall n | n in order ensures n == module_ || n == z || n == attribute || n == store || n == x {
    }
  }

  lemma ThreeLevels(module_: Node, z: Node, attribute: Node, store: Node, x: Node)
    requires IsTwoAssignments(module_, z, attribute, store, x)
    ensures LevelOrder([module_]) == [module_, z, attribute, store, x, store]
  {
    var top, middle, bottom := [module_], [z, attribute], [store, x, store];
    assert top[..0] == [] && ChildrenOf(top) == middle;
    assert middle[..1] == [z] && [z][..0] == [] && ChildrenOf([z]) == [store] && ChildrenOf(middle) == bottom;
    assert bottom[..2] == [store, x] && [store, x][..1] == [store] && [store][..0] == [];
    assert ChildrenOf([store]) == [] && ChildrenOf([store, x]) == [] && ChildrenOf(bottom) == [];
    assert LevelOrder(bottom) == bottom;
    assert LevelOrder(middle) == middle + bottom;
    assert LevelOrder(top) == top + (middle + bottom);
  }

  lemma FiveEntries(module_: Node, z: Node, attribute: Node, store: Node, x: Node)
    requires IsTwoAssignments(module_, z, attribute, store, x)
    ensures ParentsOf([module_, z, attribute, store, x, store]) == [(1, 0), (2, 0), (3, 1), (4, 2), (3, 2)]
  {
    assert EntriesOf([z, attribute], 0) == [(1, 0), (2, 0)] && EntriesOf([store], 1) == [(3, 1)];
    assert EntriesOf([x, store], 2) == [(4, 2), (3, 2)];
    ParentsOfThree(module_, z, attribute);
    LeavesAreNoParents([module_, z, attribute], [store, x, store]);
    assert [module_, z, attribute] + [store, x, store] == [module_, z, attribute, store, x, store];
  }

  lemma ParentsOfThree(a: Node, b: Node, c: Node)
    ensures ParentsOf([a, b, c]) ==
            EntriesOf(a.children, a.id) + EntriesOf(b.children, b.id) + EntriesOf(c.children, c.id)
  {
    assert [a, b, c][..2] == [a, b] && [a, b][..1] == [a] && [a][..0] == [];
    assert ParentsOf([a]) == EntriesOf(a.children, a.id);
  }

  lemma {:induction false} LeavesAreNoParents(nodes: seq<Node>, leaves: seq<Node>)
    requires forall n | n in leaves :: n.children == []
    ensures ParentsOf(nodes + leaves) == ParentsOf(nodes)
  {
    if leaves == [] {
      assert nodes + leaves == nodes;
    } else {
      var init, last := leaves[..|leaves| - 1], leaves[|leaves| - 1];
      LeavesAreNoParents(nodes, init);
      ChildrenAndParentsOfOneMore(nodes + init, last);
      assert nodes + leaves == nodes + init + [last] && last in leaves;
    }
  }

  lemma FiveAssignments()
    ensures Filed(Table([(1, 0), (2, 0), (3, 1), (4, 2), (3, 2)]), 2) == [3, 4]
  {
    var four := [(1, 0), (2, 0), (3, 1), (4, 2)];
    FourAssignments();
    OneMoreEntry(four, (3, 2));
    assert four + [(3, 2)] == [(1, 0), (2, 0), (3, 1), (4, 2), (3, 2)];
    assert four[1..] == [(2, 0), (3, 1), (4, 2)] && four[1..][1..] == [(3, 1), (4, 2)];
    assert four[1..][1..][1..] == [(4, 2)];
    var table := [(1, 0), (2, 0), (3, 2), (4, 2)];
    assert Assigned(four, 3, 2) == [(1, 0)] + ([(2, 0)] + ([(3, 2)] + [(4, 2)])) == table;
    assert table[..3] == [(1, 0), (2, 0), (3, 2)] && table[..3][..2] == [(1, 0), (2, 0)];
    assert [(1, 0), (2, 0)][..1] == [(1, 0)] && [(1, 0)][..0] == [];
  }

  lemma FourAssignments()
    ensures Table([(1, 0), (2, 0), (3, 1), (4, 2)]) == [(1, 0), (2, 0), (3, 1), (4, 2)]
  {
    OneMoreEntry([], (1, 0));
    OneMoreEntry([(1, 0)], (2, 0));
    OneMoreEntry([(1, 0), (2, 0)], (3, 1));
    OneMoreEntry([(1, 0), (2, 0), (3, 1)], (4, 2));
    NewKeyGoesLast([(1, 0)], 2, 0);
    NewKeyGoesLast([(1, 0), (2, 0)], 3, 1);
    NewKeyGoesLast([(1, 0), (2, 0), (3, 1)], 4, 2);
    assert [] + [(1, 0)] == [(1, 0)] && [(1, 0)] + [(2, 0)] == [(1, 0), (2, 0)];
    assert [(1, 0), (2, 0)] + [(3, 1)] == [(1, 0), (2, 0), (3, 1)];
    assert [(1, 0), (2, 0), (3, 1)] + [(4, 2)] == [(1, 0), (2, 0), (3, 1), (4, 2)];
  }
}
