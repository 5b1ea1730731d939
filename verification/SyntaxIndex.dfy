/**
 * The breadth-first index of a syntax tree: the nodes level by level, the nodes of every
 * kind, and the parent entries, in which a node that stands at several places is entered
 * again.
 */
module SyntaxIndex {
  import opened ParentTables
  import opened Sequences

  /** A node with its identity, its type and its children in traversal order. */
  datatype Node = Node(id: nat, kind: string, children: seq<Node>)

  function Ids(nodes: seq<Node>): (ids: seq<nat>)
    ensures |ids| == |nodes| && forall i :: 0 <= i < |nodes| ==> ids[i] == nodes[i].id
  {
    seq(|nodes|, i requires 0 <= i < |nodes| => nodes[i].id)
  }

  // ---------- Reference orders ----------

  /** The children of all nodes, in order. */
  function ChildrenOf(nodes: seq<Node>): seq<Node> {
    if nodes == [] then [] else ChildrenOf(nodes[..|nodes| - 1]) + nodes[|nodes| - 1].children
  }

  function Preorder(nodes: seq<Node>): seq<Node> {
    if nodes == [] then [] else [nodes[0]] + Preorder(nodes[0].children) + Preorder(nodes[1..])
  }

  function Size(nodes: seq<Node>): nat {
    |Preorder(nodes)|
  }

  lemma {:induction false} PreorderConcat(a: seq<Node>, b: seq<Node>)
    ensures Preorder(a + b) == Preorder(a) + Preorder(b)
  {
    if a == [] {
      assert a + b == b;
    } else {
      assert (a + b)[1..] == a[1..] + b;
      PreorderConcat(a[1..], b);
    }
  }

  lemma {:induction false} ChildrenConcat(a: seq<Node>, b: seq<Node>)
    ensures ChildrenOf(a + b) == ChildrenOf(a) + ChildrenOf(b)
  {
    if b == [] {
      assert a + b == a;
    } else {
      assert (a + b)[..|a + b| - 1] == a + b[..|b| - 1];
      ChildrenConcat(a, b[..|b| - 1]);
    }
  }

  lemma {:induction false} ChildrenAreFewer(nodes: seq<Node>)
    ensures Size(nodes) == |nodes| + Size(ChildrenOf(nodes))
  {
    if nodes != [] {
      var init, last := nodes[..|nodes| - 1], nodes[|nodes| - 1];
      assert nodes == init + [last];
      ChildrenAreFewer(init);
      PreorderConcat(init, [last]);
      PreorderConcat(ChildrenOf(init), last.children);
    }
  }

  /** Level by level: the nodes themselves, then the level-order of their children. */
  function LevelOrder(nodes: seq<Node>): seq<Node>
    decreases Size(nodes)
  {
    if nodes == [] then []
    else
      ChildrenAreFewer(nodes);
      nodes + LevelOrder(ChildrenOf(nodes))
  }

  lemma QueueShrinks(queue: seq<Node>)
    requires queue != []
    ensures Size(queue[1..] + queue[0].children) == Size(queue) - 1
  {
    PreorderConcat(queue[1..], queue[0].children);
  }

  /** What a queue still yields: its head, then the rest with the head's children behind. */
  function FromQueue(queue: seq<Node>): seq<Node>
    decreases Size(queue)
  {
    if queue == [] then []
    else
      QueueShrinks(queue);
      [queue[0]] + FromQueue(queue[1..] + queue[0].children)
  }

  /** A queue holding the rest of a level and the next level so far yields the level before the next. */
  lemma {:induction false} LevelBeforeNext(level: seq<Node>, next: seq<Node>)
    ensures FromQueue(level + next) == level + FromQueue(next + ChildrenOf(level))
    decreases |level|
  {
    if level == [] {
      assert level + next == next == next + ChildrenOf(level);
    } else {
      var head, rest := level[0], level[1..];
      assert (level + next)[1..] + head.children == rest + (next + head.children);
      LevelBeforeNext(rest, next + head.children);
      assert level == [head] + rest;
      ChildrenConcat([head], rest);
      assert next + head.children + ChildrenOf(rest) == next + ChildrenOf(level);
    }
  }

  /** The queue yields the level-order. */
  lemma {:induction false} QueueIsLevelOrder(nodes: seq<Node>)
    ensures FromQueue(nodes) == LevelOrder(nodes)
    decreases Size(nodes)
  {
    if nodes != [] {
      ChildrenAreFewer(nodes);
      LevelBeforeNext(nodes, []);
      assert nodes + [] == nodes && [] + ChildrenOf(nodes) == ChildrenOf(nodes);
      QueueIsLevelOrder(ChildrenOf(nodes));
    }
  }

  /** The queue yields every node as often as the tree holds it. */
  lemma {:induction false} QueueKeepsNodes(queue: seq<Node>)
    ensures multiset(FromQueue(queue)) == multiset(Preorder(queue))
    decreases Size(queue)
  {
    if queue != [] {
      var head, rest := queue[0], queue[1..];
      QueueShrinks(queue);
      QueueKeepsNodes(rest + head.children);
      PreorderConcat(rest, head.children);
    }
  }

  /** Every node of a tree is in its order as often as it stands in the tree. */
  lemma EveryNodeAsOften(module_: Node)
    ensures multiset(LevelOrder([module_])) == multiset(Preorder([module_]))
  {
    QueueIsLevelOrder([module_]);
    QueueKeepsNodes([module_]);
  }

  // ---------- Where children stand ----------

  lemma ChildrenAndParentsOfOneMore(nodes: seq<Node>, node: Node)
    ensures ChildrenOf(nodes + [node]) == ChildrenOf(nodes) + node.children
    ensures ParentsOf(nodes + [node]) == ParentsOf(nodes) + EntriesOf(node.children, node.id)
  {
    assert (nodes + [node])[..|nodes|] == nodes;
  }

  /** `done` has left the queue and `queue` is in it; nothing else but the module and their children was. */
  ghost predicate Accounted(module_: Node, done: seq<Node>, queue: seq<Node>) {
    done + queue == [module_] + ChildrenOf(done)
  }

  lemma Rotate<T>(done: seq<T>, queue: seq<T>, more: seq<T>, m: T, met: seq<T>)
    requires done + queue == [m] + met && queue != []
    ensures done + [queue[0]] + (queue[1..] + more) == [m] + (met + more)
  {
    calc {
      done + [queue[0]] + (queue[1..] + more);
      done + queue + more;
      [m] + met + more;
    }
  }

  lemma OneFurther<T>(done: seq<T>, head: T, rest: seq<T>)
    ensures done + ([head] + rest) == done + [head] + rest
  {
  }

  lemma TakeHead(module_: Node, done: seq<Node>, queue: seq<Node>)
    requires Accounted(module_, done, queue) && queue != []
    ensures Accounted(module_, done + [queue[0]], queue[1..] + queue[0].children)
    ensures done + FromQueue(queue) == done + [queue[0]] + FromQueue(queue[1..] + queue[0].children)
  {
    ChildrenAndParentsOfOneMore(done, queue[0]);
    Rotate(done, queue, queue[0].children, module_, ChildrenOf(done));
    OneFurther(done, queue[0], FromQueue(queue[1..] + queue[0].children));
  }

  lemma NotEmptyYet(module_: Node, done: seq<Node>, queue: seq<Node>)
    requires Accounted(module_, done, queue) && queue != []
    ensures |done| < FirstChild(done, |done|)
  {
    assert done[..|done|] == done;
    assert |done + queue| == 1 + |ChildrenOf(done)|;
  }

  /** The place of the first child of node `i`, counted from the whole order. */
  function FirstChild(order: seq<Node>, i: nat): nat
    requires i <= |order|
  {
    1 + |ChildrenOf(order[..i])|
  }

  /** In the end the module and all children were taken, and each node before the last child. */
  lemma {:induction false} QueueAccounts(module_: Node, done: seq<Node>, queue: seq<Node>)
    requires Accounted(module_, done, queue)
    ensures var order := done + FromQueue(queue);
      && order == [module_] + ChildrenOf(order)
      && forall i :: |done| <= i < |order| ==> i < FirstChild(order, i)
    decreases Size(queue)
  {
    if queue == [] {
      assert done + FromQueue(queue) == done;
    } else {
      QueueShrinks(queue);
      NotEmptyYet(module_, done, queue);
      TakeHead(module_, done, queue);
      QueueAccounts(module_, done + [queue[0]], queue[1..] + queue[0].children);
      var order := done + FromQueue(queue);
      assert order[..|done|] == done[..|done|];
    }
  }

  lemma OrderAccounts(module_: Node)
    ensures var order := LevelOrder([module_]);
      && order == [module_] + ChildrenOf(order)
      && forall i :: 0 <= i < |order| ==> i < FirstChild(order, i)
  {
    QueueIsLevelOrder([module_]);
    assert Accounted(module_, [], [module_]);
    QueueAccounts(module_, [], [module_]);
    assert [] + FromQueue([module_]) == FromQueue([module_]);
  }

  lemma Middle<T>(x: seq<T>, y: seq<T>, z: seq<T>)
    ensures (x + y + z)[|x|..|x| + |y|] == y
  {
  }

  lemma ChildrenAround(before: seq<Node>, node: Node, after: seq<Node>)
    ensures ChildrenOf(before + [node] + after) == ChildrenOf(before) + node.children + ChildrenOf(after)
    ensures ChildrenOf(before + [node]) == ChildrenOf(before) + node.children
  {
    ChildrenAndParentsOfOneMore(before, node);
    ChildrenConcat(before + [node], after);
  }

  lemma CutAround<T>(s: seq<T>, i: nat)
    requires i < |s|
    ensures s == s[..i] + [s[i]] + s[i + 1..]
    ensures s[..i + 1] == s[..i] + [s[i]]
  {
  }

  lemma BehindTheModule(module_: Node, a: seq<Node>, b: seq<Node>, c: seq<Node>, order: seq<Node>)
    requires order == [module_] + (a + b + c)
    ensures 1 + |a| + |b| <= |order| && order[1 + |a|..1 + |a| + |b|] == b
  {
    Middle([module_] + a, b, c);
    assert order == [module_] + a + b + c;
  }

  lemma PlacedAround(module_: Node, order: seq<Node>, before: seq<Node>, node: Node, after: seq<Node>)
    requires order == before + [node] + after && order == [module_] + ChildrenOf(order)
    ensures var place := 1 + |ChildrenOf(before)|;
      && place + |node.children| == 1 + |ChildrenOf(before + [node])| <= |order|
      && order[place..place + |node.children|] == node.children
  {
    ChildrenAround(before, node, after);
    BehindTheModule(module_, ChildrenOf(before), node.children, ChildrenOf(after), order);
  }

  /**
   * In the order, the children of a node stand side by side, in their own order, behind the node and
   * behind the children of all nodes before it.
   */
  lemma ChildrenStandTogether(module_: Node, order: seq<Node>, i: nat)
    requires order == LevelOrder([module_]) && i < |order|
    ensures i < FirstChild(order, i) <= FirstChild(order, i) + |order[i].children| ==
            FirstChild(order, i + 1) <= |order|
    ensures order[FirstChild(order, i)..FirstChild(order, i + 1)] == order[i].children
  {
    OrderAccounts(module_);
    CutAround(order, i);
    PlacedAround(module_, order, order[..i], order[i], order[i + 1..]);
  }

  // ---------- The traversal ----------

  /** One entry for every child of every node, in order. */
  function ParentsOf(nodes: seq<Node>): ParentTable {
    if nodes == [] then []
    else ParentsOf(nodes[..|nodes| - 1]) + EntriesOf(nodes[|nodes| - 1].children, nodes[|nodes| - 1].id)
  }

  function EntriesOf(children: seq<Node>, parent: nat): (entries: ParentTable)
    ensures |entries| == |children|
    ensures forall i :: 0 <= i < |children| ==> entries[i] == (children[i].id, parent)
  {
    seq(|children|, i requires 0 <= i < |children| => (children[i].id, parent))
  }

  /** `listed` are the nodes of one kind at their rising places, all of them. */
  ghost predicate ListsKind(nodes: seq<Node>, kind: string, listed: seq<Node>) {
    Selects(nodes, (n: Node) => n.kind == kind, listed)
  }

  /** Every kind that occurs is listed with its nodes, in order; no other kind is. */
  ghost predicate IndexesKinds(nodes: seq<Node>, index: map<string, seq<Node>>) {
    && (forall n <- nodes :: n.kind in index)
    && forall kind <- index :: ListsKind(nodes, kind, index[kind]) && index[kind] != []
  }

  lemma NoneOfKind(nodes: seq<Node>, kind: string)
    requires forall n <- nodes :: n.kind != kind
    ensures ListsKind(nodes, kind, [])
  {
    assert SelectsAt(nodes, (n: Node) => n.kind == kind, [], []);
  }

  lemma OneMoreNode(nodes: seq<Node>, node: Node, kind: string, listed: seq<Node>)
    requires ListsKind(nodes, kind, listed)
    ensures ListsKind(nodes + [node], kind, if node.kind == kind then listed + [node] else listed)
  {
    OneMoreSelected(nodes, node, (n: Node) => n.kind == kind, listed);
  }

  method AddToKind(ghost nodes: seq<Node>, node: Node, index: map<string, seq<Node>>)
    returns (added: map<string, seq<Node>>)
    requires IndexesKinds(nodes, index)
    ensures IndexesKinds(nodes + [node], added)
  {
    var listed := if node.kind in index then index[node.kind] else [];
    added := index[node.kind := listed + [node]];
    if node.kind !in index {
      NoneOfKind(nodes, node.kind);
    }
    OneMoreNode(nodes, node, node.kind, listed);
    forall kind <- index | kind != node.kind ensures ListsKind(nodes + [node], kind, added[kind]) {
      OneMoreNode(nodes, node, kind, index[kind]);
    }
  }

  /** Record `node` as the parent of its children and put them behind the queue. */
  method VisitChildren(node: Node, ghost entries: ParentTable, table: ParentTable, queue: seq<Node>)
    returns (table': ParentTable, queue': seq<Node>)
    requires table == Table(entries)
    ensures table' == Table(entries + EntriesOf(node.children, node.id))
    ensures queue' == queue + node.children
  {
    table', queue' := table, queue;
    ghost var more := EntriesOf(node.children, node.id);
    assert entries + more[..0] == entries;
    for i := 0 to |node.children|
      invariant table' == Table(entries + more[..i])
      invariant queue' == queue + node.children[..i]
    {
      NextEntry(entries, more, i);
      NextOfList(node.children, i);
      table' := Assigned(table', node.children[i].id, node.id);
      queue' := queue' + [node.children[i]];
    }
    WholeList(more);
    WholeList(node.children);
  }

  /** What the traversal knows with `pending` left to visit. */
  ghost predicate Indexed(module_: Node, nodes: seq<Node>, index: map<string, seq<Node>>, table: ParentTable,
                          pending: seq<Node>)
  {
    && nodes + FromQueue(pending) == FromQueue([module_])
    && Accounted(module_, nodes, pending)
    && IndexesKinds(nodes, index)
    && table == Table(ParentsOf(nodes))
  }

  /** Take one node from the queue. */
  method Visit(module_: Node, ghost nodes: seq<Node>, index: map<string, seq<Node>>, table: ParentTable,
               pending: seq<Node>)
    returns (index': map<string, seq<Node>>, table': ParentTable, pending': seq<Node>)
    requires pending != [] && Indexed(module_, nodes, index, table, pending)
    ensures Indexed(module_, nodes + [pending[0]], index', table', pending')
    ensures Size(pending') < Size(pending)
  {
    QueueShrinks(pending);
    TakeHead(module_, nodes, pending);
    ChildrenAndParentsOfOneMore(nodes, pending[0]);
    index' := AddToKind(nodes, pending[0], index);
    table', pending' := VisitChildren(pending[0], ParentsOf(nodes), table, pending[1..]);
  }

  lemma Start(module_: Node)
    ensures Indexed(module_, [], map[], [], [module_])
  {
    assert [] + FromQueue([module_]) == FromQueue([module_]);
  }

  /** The whole index of a tree. */
  ghost predicate IsIndex(module_: Node, nodes: seq<Node>, index: map<string, seq<Node>>, table: ParentTable) {
    && nodes == LevelOrder([module_])
    && IndexesKinds(nodes, index)
    && table == Table(ParentsOf(nodes))
  }

  lemma Finish(module_: Node, nodes: seq<Node>, index: map<string, seq<Node>>, table: ParentTable)
    requires Indexed(module_, nodes, index, table, [])
    ensures IsIndex(module_, nodes, index, table)
  {
    assert nodes + FromQueue([]) == nodes;
    QueueIsLevelOrder([module_]);
  }

  /** Index a tree in one traversal. */
  method IndexModuleNodes(module_: Node)
    returns (nodes: seq<Node>, nodeIndex: map<string, seq<Node>>, parentByNode: ParentTable)
    ensures IsIndex(module_, nodes, nodeIndex, parentByNode)
    ensures forall n <- nodes :: n.kind in nodeIndex
    ensures forall kind <- nodeIndex ::
              nodeIndex[kind] != [] && Selects(nodes, (n: Node) => n.kind == kind, nodeIndex[kind])
  {
    nodes, nodeIndex, parentByNode := [], map[], [];
    var pending := [module_];
    Start(module_);
    while pending != []
      invariant Indexed(module_, nodes, nodeIndex, parentByNode, pending)
      decreases Size(pending)
    {
      var node := pending[0];
      nodeIndex, parentByNode, pending := Visit(module_, nodes, nodeIndex, parentByNode, pending);
      nodes := nodes + [node];
    }
    Finish(module_, nodes, nodeIndex, parentByNode);
  }
}
