/** Who encloses whom: the ascent through the parents' table, and the nodes that stand at several places. */
module SyntaxAncestors {
  import opened Options
  import opened ParentTables
  import opened SyntaxIndex
  import opened SyntaxRelations

  /** Parents lie at lower places. */
  ghost predicate Descends(r: Relations) {
    forall h <- r.parents :: r.parents[h].node < h.node
  }

  lemma RelationsDescend(path: string, order: seq<Node>, r: Relations)
    requires Traversed(order) && Relate(path, order, r)
    ensures Descends(r)
  {
    forall h <- r.parents ensures r.parents[h].node < h.node {
      ParentsComeFirst(path, order, r, h);
    }
  }

  ghost function AncestorsOf(r: Relations, h: Handle): seq<Handle>
    requires Descends(r)
    decreases h.node
  {
    if h in r.parents then [r.parents[h]] + AncestorsOf(r, r.parents[h]) else []
  }

  lemma {:induction false} AncestorsGoOn(r: Relations, h: Handle, a: Handle)
    requires Descends(r) && a in r.parents
    requires a == h || a in AncestorsOf(r, h)
    ensures r.parents[a] in AncestorsOf(r, h)
    decreases h.node
  {
    if a != h {
      AncestorsGoOn(r, r.parents[h], a);
    }
  }

  lemma {:induction false} SubtreeOfChild(nodes: seq<Node>, child: Node, x: Node)
    requires child in nodes && (x == child || x in Preorder(child.children))
    ensures x in Preorder(nodes)
  {
    if nodes[0] != child {
      assert child in nodes[1..];
      SubtreeOfChild(nodes[1..], child, x);
    }
  }

  lemma {:induction false} ChildAbove(nodes: seq<Node>, x: Node) returns (k: nat)
    requires x in Preorder(nodes)
    ensures k < |nodes| && (x == nodes[k] || x in Preorder(nodes[k].children))
    ensures Size(nodes[k].children) < Size(nodes)
  {
    if x == nodes[0] || x in Preorder(nodes[0].children) {
      k := 0;
    } else {
      k := ChildAbove(nodes[1..], x);
      k := k + 1;
    }
  }

  /** An ancestor's subtree holds the node. */
  lemma {:induction false} AncestorsHold(path: string, order: seq<Node>, r: Relations, h: Handle, a: Handle)
    requires Traversed(order) && Relate(path, order, r) && Descends(r) && h in r.handles
    requires a in AncestorsOf(r, h)
    ensures a in r.handles && order[h.node] in Preorder(order[a.node].children)
    decreases h.node
  {
    ParentsComeFirst(path, order, r, h);
    var p := r.parents[h];
    if a == p {
      SubtreeOfChild(order[p.node].children, order[h.node], order[h.node]);
    } else {
      AncestorsHold(path, order, r, p, a);
      InSubtree(order[a.node].children, order[p.node], order[h.node]);
    }
  }

  lemma {:induction false} InSubtree(nodes: seq<Node>, y: Node, x: Node)
    requires y in Preorder(nodes) && x in y.children
    ensures x in Preorder(nodes)
    decreases Size(nodes)
  {
    var k := ChildAbove(nodes, y);
    if y == nodes[k] {
      SubtreeOfChild(y.children, x, x);
    } else {
      InSubtree(nodes[k].children, y, x);
    }
    SubtreeOfChild(nodes, nodes[k], x);
  }

  lemma HolderIsLast(order: seq<Node>, c: nat, n: nat)
    requires SharesLeavesOnly(order) && c < |order| && n < |order| && Once(order, n)
    requires order[n] == order[c] || order[n] in Preorder(order[c].children)
    ensures IsLast(order, c)
    ensures c == n || order[n] in Preorder(order[c].children)
  {
    if order[n] != order[c] {
      ParentsStandOnce(order, c);
    }
  }

  /** The place of a child through which the subtree of node `p` holds node `n`. */
  lemma HoldingPlace(order: seq<Node>, p: nat, k: nat, n: nat)
    requires ChildrenFollow(order) && InPlace(order) && SharesLeavesOnly(order) && p < |order| && Once(order, n)
    requires k < |order[p].children|
    requires order[n] == order[p].children[k] || order[n] in Preorder(order[p].children[k].children)
    ensures var c := FirstChild(order, p) + k;
      && IsLast(order, c) && order[c] == order[p].children[k]
      && (c == n || order[n] in Preorder(order[c].children))
  {
    PlaceOfChild(order, p, k);
    var c := FirstChild(order, p) + k;
    HolderIsLast(order, c, n);
  }

  lemma SmallerChild(order: seq<Node>, p: nat, k: nat, c: nat)
    requires p < |order| && c < |order| && k < |order[p].children| && order[c] == order[p].children[k]
    requires Size(order[p].children[k].children) < Size(order[p].children)
    ensures Size(order[c].children) < Size(order[p].children)
  {
  }

  lemma LinkedIsKnown(path: string, order: seq<Node>, r: Relations, h: Handle)
    requires Relate(path, order, r)
    ensures h in r.parents ==> h in r.handles
    ensures h in r.handles ==> h.path == path && h.node < |order|
  {
  }

  lemma LinkedChild(path: string, order: seq<Node>, r: Relations, h: Handle, a: Handle, k: nat) returns (c: Handle)
    requires Traversed(order) && Relate(path, order, r) && h in r.handles && a in r.handles && Once(order, h.node)
    requires k < |order[a.node].children|
    requires var child := order[a.node].children[k];
      order[h.node] == child || order[h.node] in Preorder(child.children)
    ensures c in r.handles && c in r.parents && r.parents[c] == a && order[c.node] == order[a.node].children[k]
    ensures c == h || order[h.node] in Preorder(order[c.node].children)
  {
    c := Handle(path, FirstChild(order, a.node) + k);
    LinkedIsKnown(path, order, r, h);
    LinkedIsKnown(path, order, r, c);
    ChildHandle(path, order, r, a, k);
    HoldingPlace(order, a.node, k, h.node);
  }

  /** The child of `a` through which its subtree holds the node. */
  lemma HoldingChild(path: string, order: seq<Node>, r: Relations, h: Handle, a: Handle) returns (c: Handle)
    requires Traversed(order) && Relate(path, order, r)
    requires h in r.handles && a in r.handles && Once(order, h.node)
    requires order[h.node] in Preorder(order[a.node].children)
    ensures c in r.handles && c in r.parents && r.parents[c] == a
    ensures Size(order[c.node].children) < Size(order[a.node].children)
    ensures c == h || order[h.node] in Preorder(order[c.node].children)
  {
    var k := ChildAbove(order[a.node].children, order[h.node]);
    c := LinkedChild(path, order, r, h, a, k);
    SmallerChild(order, a.node, k, c.node);
  }

  /** Every node whose subtree holds a node that stands nowhere else is an ancestor of it. */
  lemma {:induction false} HoldersAreAncestors(path: string, order: seq<Node>, r: Relations, h: Handle, a: Handle)
    requires Traversed(order) && Relate(path, order, r) && Descends(r)
    requires h in r.handles && a in r.handles && Once(order, h.node)
    requires order[h.node] in Preorder(order[a.node].children)
    ensures a in AncestorsOf(r, h)
    decreases Size(order[a.node].children)
  {
    var c := HoldingChild(path, order, r, h, a);
    if c != h {
      HoldersAreAncestors(path, order, r, h, c);
    }
    AncestorsGoOn(r, h, c);
  }

  // ---------- Nodes that stand at several places ----------

  lemma {:induction false} SubtreesNest(nodes: seq<Node>, y: Node, x: Node)
    requires y in Preorder(nodes) && x in Preorder(y.children)
    ensures x in Preorder(nodes)
    decreases Size(nodes)
  {
    var k := ChildAbove(nodes, y);
    if y != nodes[k] {
      SubtreesNest(nodes[k].children, y, x);
    }
    SubtreeOfChild(nodes, nodes[k], x);
  }

  /** Node `q` is node `p` or stands in its subtree. */
  ghost predicate Within(order: seq<Node>, q: nat, p: nat) {
    q < |order| && p < |order| && (q == p || order[q] in Preorder(order[p].children))
  }

  ghost predicate HoldsDirectly(order: seq<Node>, p: nat, x: Node) {
    p < |order| && x in order[p].children
  }

  /** Of any two nodes that have the node among their children one stands in the subtree of the other. */
  ghost predicate HeldOnOneLine(order: seq<Node>, x: Node) {
    forall p: nat, q: nat | HoldsDirectly(order, p, x) && HoldsDirectly(order, q, x) ::
      Within(order, p, q) || Within(order, q, p)
  }

  lemma WithinChild(order: seq<Node>, q: nat, c: nat, p: nat)
    requires Within(order, q, c) && p < |order| && order[c] in order[p].children
    ensures Within(order, q, p)
  {
    SubtreeOfChild(order[p].children, order[c], order[q]);
  }

  lemma WithinIsTransitive(order: seq<Node>, r: nat, q: nat, p: nat)
    requires Within(order, r, q) && Within(order, q, p)
    ensures Within(order, r, p)
  {
    if r != q && q != p {
      SubtreesNest(order[p].children, order[q], order[r]);
    }
  }

  /** The node below which `x` stands in the subtree of node `a`. */
  lemma {:induction false} DirectHolder(order: seq<Node>, a: nat, x: Node) returns (q: nat)
    requires ChildrenFollow(order) && InPlace(order) && a < |order| && x in Preorder(order[a].children)
    ensures HoldsDirectly(order, q, x) && Within(order, q, a)
    decreases Size(order[a].children)
  {
    var k := ChildAbove(order[a].children, x);
    if x == order[a].children[k] {
      q := a;
    } else {
      PlaceOfChild(order, a, k);
      var c := FirstChild(order, a) + k;
      SmallerChild(order, a, k, c);
      q := DirectHolder(order, c, x);
      WithinChild(order, q, c, a);
    }
  }

  lemma {:induction false} ParentIndexGrows(order: seq<Node>, c: nat, d: nat)
    requires 1 <= c <= d <= |ChildrenOf(order)|
    ensures ParentIndex(order, c) <= ParentIndex(order, d)
  {
    ParentHoldsChild(order, c);
    ParentHoldsChild(order, d);
    if ParentIndex(order, d) < ParentIndex(order, c) {
      FirstChildGrows(order, ParentIndex(order, d) + 1, ParentIndex(order, c));
    }
  }

  lemma PlaceBeforeLast(order: seq<Node>, n: nat, c: nat)
    requires IsLast(order, n) && c < |order| && order[c] == order[n]
    ensures c <= n
  {
  }

  /** A place of the node among the children of `q`. */
  lemma HeldPlace(order: seq<Node>, q: nat, x: Node) returns (c: nat)
    requires ChildrenFollow(order) && InPlace(order) && HoldsDirectly(order, q, x)
    ensures 1 <= c < |order| == 1 + |ChildrenOf(order)| && order[c] == x && ParentIndex(order, c) == q
  {
    var k :| 0 <= k < |order[q].children| && order[q].children[k] == x;
    c := FirstChild(order, q) + k;
    PlaceOfChild(order, q, k);
  }

  /** No node that holds the node comes behind the parent of its last place. */
  lemma LastParentIsLast(order: seq<Node>, n: nat, q: nat)
    requires ChildrenFollow(order) && InPlace(order) && IsLast(order, n) && HoldsDirectly(order, q, order[n])
    ensures 1 <= n <= |ChildrenOf(order)| && q <= ParentIndex(order, n)
  {
    var c := HeldPlace(order, q, order[n]);
    PlaceBeforeLast(order, n, c);
    ParentIndexGrows(order, c, n);
  }

  lemma KnownHolder(path: string, order: seq<Node>, r: Relations, p: nat, x: Node)
    requires Traversed(order) && Relate(path, order, r) && HoldsDirectly(order, p, x)
    ensures Handle(path, p) in r.handles && Once(order, p)
  {
    ParentsStandOnce(order, p);
  }

  /** A node with children is within another one exactly when the other is it or an ancestor. */
  lemma WithinIsBelow(path: string, order: seq<Node>, r: Relations, q: nat, p: nat)
    requires Traversed(order) && Relate(path, order, r) && Descends(r) && Once(order, q)
    requires Handle(path, q) in r.handles && Handle(path, p) in r.handles
    ensures Within(order, q, p) <==> q == p || Handle(path, p) in AncestorsOf(r, Handle(path, q))
  {
    var a, h := Handle(path, p), Handle(path, q);
    LinkedIsKnown(path, order, r, a);
    LinkedIsKnown(path, order, r, h);
    if a in AncestorsOf(r, h) {
      AncestorsHold(path, order, r, h, a);
    }
    if q != p && Within(order, q, p) {
      HoldersAreAncestors(path, order, r, h, a);
    }
  }

  lemma {:induction false} AncestorsLieBefore(r: Relations, h: Handle, a: Handle)
    requires Descends(r) && a in AncestorsOf(r, h)
    ensures a.node < h.node
    decreases h.node
  {
    if a != r.parents[h] {
      AncestorsLieBefore(r, r.parents[h], a);
    }
  }

  /** Two ancestors of one node are ancestors of each other. */
  lemma {:induction false} AncestorsAreALine(r: Relations, h: Handle, a: Handle, b: Handle)
    requires Descends(r) && a in AncestorsOf(r, h) && b in AncestorsOf(r, h)
    ensures a == b || a in AncestorsOf(r, b) || b in AncestorsOf(r, a)
    decreases h.node
  {
    if a != r.parents[h] && b != r.parents[h] {
      AncestorsAreALine(r, r.parents[h], a, b);
    }
  }

  /** All nodes whose subtrees hold the node are its ancestors. */
  ghost predicate HoldersAscend(order: seq<Node>, r: Relations, h: Handle)
    requires Descends(r) && h.node < |order|
  {
    forall a | a in r.handles && a.node < |order| && order[h.node] in Preorder(order[a.node].children) ::
      a in AncestorsOf(r, h)
  }

  lemma HolderIsAncestor(path: string, order: seq<Node>, r: Relations, h: Handle, a: Handle)
    requires Traversed(order) && Relate(path, order, r) && Descends(r) && h in r.handles && a in r.handles
    requires order[h.node] in Preorder(order[a.node].children) && HeldOnOneLine(order, order[h.node])
    ensures a in AncestorsOf(r, h)
  {
    LinkedIsKnown(path, order, r, h);
    LinkedIsKnown(path, order, r, a);
    var q := DirectHolder(order, a.node, order[h.node]);
    LastParentIsLast(order, h.node, q);
    var p := ParentIndex(order, h.node);
    ParentOfPlace(path, order, r, h.node);
    ParentAbove(order, h.node);
    KnownHolder(path, order, r, p, order[h.node]);
    KnownHolder(path, order, r, q, order[h.node]);
    LineLeadsUp(path, order, r, p, q, order[h.node]);
    WithinIsTransitive(order, p, q, a.node);
    WithinIsBelow(path, order, r, p, a.node);
  }

  /** The parent of the last place lies within all other nodes that hold the node. */
  lemma LineLeadsUp(path: string, order: seq<Node>, r: Relations, p: nat, q: nat, x: Node)
    requires Traversed(order) && Relate(path, order, r) && Descends(r) && HeldOnOneLine(order, x) && q <= p
    requires HoldsDirectly(order, p, x) && HoldsDirectly(order, q, x)
    ensures Within(order, p, q)
  {
    KnownHolder(path, order, r, p, x);
    KnownHolder(path, order, r, q, x);
    if !Within(order, p, q) {
      WithinIsBelow(path, order, r, q, p);
      AncestorsLieBefore(r, Handle(path, q), Handle(path, p));
    }
  }

  lemma AncestorsLieOnOneLine(path: string, order: seq<Node>, r: Relations, h: Handle, p: nat, q: nat)
    requires Traversed(order) && Relate(path, order, r) && Descends(r) && h in r.handles && HoldersAscend(order, r, h)
    requires HoldsDirectly(order, p, order[h.node]) && HoldsDirectly(order, q, order[h.node])
    ensures Within(order, p, q) || Within(order, q, p)
  {
    KnownHolder(path, order, r, p, order[h.node]);
    KnownHolder(path, order, r, q, order[h.node]);
    SubtreeOfChild(order[p].children, order[h.node], order[h.node]);
    SubtreeOfChild(order[q].children, order[h.node], order[h.node]);
    AncestorsAreALine(r, h, Handle(path, p), Handle(path, q));
    WithinIsBelow(path, order, r, p, q);
    WithinIsBelow(path, order, r, q, p);
  }

  /**
   * The subtrees of a node's ancestors hold it. Its ancestors are all the nodes whose subtrees do, if and only
   * if the nodes that have it among their children lie one within the other.
   */
  lemma AncestorsExactly(path: string, order: seq<Node>, r: Relations, h: Handle)
    requires Traversed(order) && Relate(path, order, r) && Descends(r) && h in r.handles
    ensures forall a <- AncestorsOf(r, h) :: a in r.handles && order[h.node] in Preorder(order[a.node].children)
    ensures HoldersAscend(order, r, h) <==> HeldOnOneLine(order, order[h.node])
  {
    forall a <- AncestorsOf(r, h) ensures a in r.handles && order[h.node] in Preorder(order[a.node].children) {
      AncestorsHold(path, order, r, h, a);
    }
    if HeldOnOneLine(order, order[h.node]) {
      forall a | a in r.handles && a.node < |order| && order[h.node] in Preorder(order[a.node].children)
        ensures a in AncestorsOf(r, h)
      {
        HolderIsAncestor(path, order, r, h, a);
      }
    }
    if HoldersAscend(order, r, h) {
      forall p: nat, q: nat | HoldsDirectly(order, p, order[h.node]) && HoldsDirectly(order, q, order[h.node])
        ensures Within(order, p, q) || Within(order, q, p)
      {
        AncestorsLieOnOneLine(path, order, r, h, p, q);
      }
    }
  }

  /** A node that stands at one place is held on one line. */
  lemma OnceIsOneLine(order: seq<Node>, n: nat)
    requires ChildrenFollow(order) && InPlace(order) && Once(order, n)
    ensures HeldOnOneLine(order, order[n])
  {
    forall p: nat, q: nat | HoldsDirectly(order, p, order[n]) && HoldsDirectly(order, q, order[n])
      ensures Within(order, p, q)
    {
      var c := HeldPlace(order, p, order[n]);
      var d := HeldPlace(order, q, order[n]);
    }
  }

  lemma PreorderOfLeaves(a: Node, b: Node)
    requires a.children == [] && b.children == []
    ensures Preorder([a]) == [a] && Preorder([a, b]) == [a, b]
  {
    assert [a, b][1..] == [b] && [a][1..] == [] && [b][1..] == [];
  }

  /** Of the two nodes that hold a shared context node in two statements only the later one is an ancestor. */
  lemma SharedNodeMissesAncestor(module_: Node, z: Node, attribute: Node, store: Node, x: Node)
    requires IsTwoAssignments(module_, z, attribute, store, x)
    ensures var order := LevelOrder([module_]);
      && HoldsDirectly(order, 1, store) && order[1] == z && HoldsDirectly(order, 2, store) && order[2] == attribute
      && !HeldOnOneLine(order, store)
  {
    ThreeLevels(module_, z, attribute, store, x);
    PreorderOfLeaves(store, store);
    PreorderOfLeaves(x, store);
    var order := LevelOrder([module_]);
    assert z.children[0] == store && attribute.children[1] == store;
    assert !Within(order, 1, 2) && !Within(order, 2, 1);
  }

  // ---------- Queries ----------

  /** `None` is the lookup error for an unknown handle. */
  method Ancestors(r: Relations, handle: Handle) returns (result: Option<seq<Handle>>)
    requires Descends(r)
    ensures result == if handle in r.handles then Some(AncestorsOf(r, handle)) else None
  {
    if handle !in r.handles {
      return None;
    }
    var ancestors := [];
    var current := if handle in r.parents then Some(r.parents[handle]) else None;
    while current.Some?
      invariant AncestorsOf(r, handle)
             == ancestors + if current.Some? then [current.value] + AncestorsOf(r, current.value) else []
      decreases if current.Some? then current.value.node + 1 else 0
    {
      ancestors := ancestors + [current.value];
      current := if current.value in r.parents then Some(r.parents[current.value]) else None;
    }
    assert ancestors + [] == ancestors;
    return Some(ancestors);
  }
}
