/**
 The shortest path between two nodes. Nodes are queued again and again and marked only
 when they leave the queue; the path found is nevertheless a shortest one.
 */
module GraphPaths {
  import opened Options
  import opened GraphStore

  /** A node on a path and the edge that led to it. */
  datatype Step = Step(node: Node, edge: Option<Edge>)

  /** An allowed edge between two steps of a path. */
  predicate Linked(g: Graph, kinds: seq<Kind>, a: Step, b: Step) {
    && b.edge.Some? && b.edge.value in g.edges && KindAllowed(b.edge.value.kind, kinds)
    && b.edge.value.source == a.node.id && b.edge.value.target == b.node.id
  }

  predicate NodeOf(g: Graph, id: Id, node: Node) {
    id in g.nodes && g.nodes[id] == node
  }

  /** A path through stored nodes along allowed edges. */
  predicate IsPath(g: Graph, kinds: seq<Kind>, source: Id, target: Id, p: seq<Step>) {
    && |p| >= 1 && p[0].edge == None && p[0].node.id == source && p[|p| - 1].node.id == target
    && (forall i :: 0 <= i < |p| ==> NodeOf(g, p[i].node.id, p[i].node))
    && (forall i :: 1 <= i < |p| ==> Linked(g, kinds, p[i - 1], p[i]))
  }

  datatype Item = Item(id: Id, path: seq<Step>)

  /** The queue holds paths from the source, shorter ones first, and lengths differ by one at most. */
  ghost predicate QueueOrdered(g: Graph, kinds: seq<Kind>, source: Id, queue: seq<Item>) {
    && (forall i :: 0 <= i < |queue| ==> IsPath(g, kinds, source, queue[i].id, queue[i].path))
    && (forall i, j :: 0 <= i < j < |queue| ==> |queue[i].path| <= |queue[j].path| <= |queue[0].path| + 1)
  }

  ghost predicate Queued(queue: seq<Item>, id: Id, most: nat) {
    exists i :: 0 <= i < |queue| && queue[i].id == id && |queue[i].path| <= most
  }

  /** What is next to a visited node is visited too or waits in the queue with a path that is short enough. */
  ghost predicate Frontier(g: Graph, kinds: seq<Kind>, source: Id, depth: map<Id, nat>, queue: seq<Item>) {
    && (source !in depth ==> Queued(queue, source, 1))
    && (forall e ::
        e in g.edges && e.source in depth && KindAllowed(e.kind, kinds) && e.target in g.nodes && e.target !in depth ==>
          Queued(queue, e.target, depth[e.source] + 1))
  }

  /** A visited node's depth is the length of a shortest path to it. */
  ghost predicate Shortest(g: Graph, kinds: seq<Kind>, source: Id, depth: map<Id, nat>) {
    forall p, id :: id in depth && IsPath(g, kinds, source, id, p) ==> depth[id] <= |p|
  }

  lemma PrefixIsPath(g: Graph, kinds: seq<Kind>, source: Id, target: Id, p: seq<Step>, k: nat)
    requires IsPath(g, kinds, source, target, p) && 1 <= k <= |p|
    ensures IsPath(g, kinds, source, p[k - 1].node.id, p[..k])
  {
  }

  /** A path to a node not yet visited leaves the visited ones somewhere, and what it enters next is in the queue. */
  lemma {:induction false} Overtaken(g: Graph, kinds: seq<Kind>, source: Id, depth: map<Id, nat>, queue: seq<Item>,
      target: Id, p: seq<Step>)
    requires Frontier(g, kinds, source, depth, queue) && Shortest(g, kinds, source, depth)
    requires IsPath(g, kinds, source, target, p) && target !in depth
    ensures exists id :: id !in depth && Queued(queue, id, |p|)
    decreases |p|
  {
    if |p| == 1 {
      assert Queued(queue, source, 1);
    } else {
      var before := p[|p| - 2].node.id;
      PrefixIsPath(g, kinds, source, target, p, |p| - 1);
      assert Linked(g, kinds, p[|p| - 2], p[|p| - 1]);
      if before in depth {
        assert depth[before] <= |p| - 1;
        var e := p[|p| - 1].edge.value;
        assert NodeOf(g, p[|p| - 1].node.id, p[|p| - 1].node);
        assert Queued(queue, e.target, depth[e.source] + 1);
        assert Queued(queue, target, |p|);
      } else {
        Overtaken(g, kinds, source, depth, queue, before, p[..|p| - 1]);
        var id :| id !in depth && Queued(queue, id, |p| - 1);
        assert Queued(queue, id, |p|);
      }
    }
  }

  /** The first of the queue is no longer than any path to a node that is not visited. */
  lemma FirstIsShortest(g: Graph, kinds: seq<Kind>, source: Id, depth: map<Id, nat>, queue: seq<Item>, target: Id)
    requires queue != [] && QueueOrdered(g, kinds, source, queue) && target !in depth
    requires Frontier(g, kinds, source, depth, queue) && Shortest(g, kinds, source, depth)
    ensures forall p :: IsPath(g, kinds, source, target, p) ==> |queue[0].path| <= |p|
  {
    forall p: seq<Step> | IsPath(g, kinds, source, target, p) ensures |queue[0].path| <= |p| {
      Overtaken(g, kinds, source, depth, queue, target, p);
    }
  }

  lemma NothingQueued(g: Graph, kinds: seq<Kind>, source: Id, depth: map<Id, nat>, target: Id)
    requires Frontier(g, kinds, source, depth, []) && Shortest(g, kinds, source, depth) && target !in depth
    ensures forall p :: !IsPath(g, kinds, source, target, p)
  {
    forall p: seq<Step> ensures !IsPath(g, kinds, source, target, p) {
      if IsPath(g, kinds, source, target, p) {
        Overtaken(g, kinds, source, depth, [], target, p);
        assert false;
      }
    }
  }

  lemma Extended(g: Graph, kinds: seq<Kind>, source: Id, p: seq<Step>, e: Edge)
    requires Stored(g) && IsPath(g, kinds, source, e.source, p) && e in g.edges && KindAllowed(e.kind, kinds) &&
        e.target in g.nodes
    ensures IsPath(g, kinds, source, e.target, p + [Step(g.nodes[e.target], Some(e))])
  {
  }

  /** Visiting the first of the queue: its successors are queued now, and the rest of the frontier stands. */
  lemma FrontierMoves(g: Graph, kinds: seq<Kind>, source: Id, depth: map<Id, nat>, queue: seq<Item>, after: seq<Item>)
    requires queue != [] && queue[0].id !in depth && Frontier(g, kinds, source, depth, queue)
    requires queue[1..] <= after
    requires forall e ::
        e in g.edges && e.source == queue[0].id && KindAllowed(e.kind, kinds) && e.target in g.nodes &&
        e.target !in depth && e.target != queue[0].id ==>
               Queued(after, e.target, |queue[0].path| + 1)
    ensures Frontier(g, kinds, source, depth[queue[0].id := |queue[0].path|], after)
  {
    var next := depth[queue[0].id := |queue[0].path|];
    forall id, most: nat | id != queue[0].id && Queued(queue, id, most) ensures Queued(after, id, most) {
      var i :| 0 <= i < |queue| && queue[i].id == id && |queue[i].path| <= most;
      assert after[i - 1] == queue[1..][i - 1] == queue[i];
    }
  }

  lemma FrontierSkips(g: Graph, kinds: seq<Kind>, source: Id, depth: map<Id, nat>, queue: seq<Item>)
    requires queue != [] && queue[0].id in depth && Frontier(g, kinds, source, depth, queue)
    ensures Frontier(g, kinds, source, depth, queue[1..])
  {
    forall id, most: nat | id !in depth && Queued(queue, id, most) ensures Queued(queue[1..], id, most) {
      var i :| 0 <= i < |queue| && queue[i].id == id && |queue[i].path| <= most;
      assert queue[1..][i - 1] == queue[i];
    }
  }

  lemma EndsAreStored(g: Graph, kinds: seq<Kind>, source: Id, target: Id, p: seq<Step>)
    ensures IsPath(g, kinds, source, target, p) ==> source in g.nodes && target in g.nodes
  {
    if IsPath(g, kinds, source, target, p) {
      assert NodeOf(g, p[0].node.id, p[0].node) && NodeOf(g, p[|p| - 1].node.id, p[|p| - 1].node);
    }
  }

  lemma FirstAndRest(g: Graph, kinds: seq<Kind>, source: Id, queue: seq<Item>)
    requires queue != [] && QueueOrdered(g, kinds, source, queue)
    ensures IsPath(g, kinds, source, queue[0].id, queue[0].path) && queue[0].id in g.nodes
    ensures QueueOrdered(g, kinds, source, queue[1..]) && Near(queue[1..], |queue[0].path|)
  {
    EndsAreStored(g, kinds, source, queue[0].id, queue[0].path);
    hide IsPath;
    var rest := queue[1..];
    assert forall i :: 0 <= i < |rest| ==> rest[i] == queue[i + 1];
  }

  /** All paths of the queue are as long as `n` or one longer. */
  predicate Near(queue: seq<Item>, n: nat) {
    forall i :: 0 <= i < |queue| ==> n <= |queue[i].path| <= n + 1
  }

  lemma Pushed(g: Graph, kinds: seq<Kind>, source: Id, queue: seq<Item>, item: Item, n: nat)
    requires QueueOrdered(g, kinds, source, queue) && Near(queue, n)
    requires IsPath(g, kinds, source, item.id, item.path) && |item.path| == n + 1
    ensures QueueOrdered(g, kinds, source, queue + [item]) && Near(queue + [item], n)
    ensures Queued(queue + [item], item.id, n + 1)
    ensures forall id, most: nat :: Queued(queue, id, most) ==> Queued(queue + [item], id, most)
  {
    hide IsPath;
    var all := queue + [item];
    assert all[|queue|] == item;
    forall id, most: nat | Queued(queue, id, most) ensures Queued(all, id, most) {
      var i :| 0 <= i < |queue| && queue[i].id == id && |queue[i].path| <= most;
      assert all[i] == queue[i];
    }
  }

  lemma ShortestMore(g: Graph, kinds: seq<Kind>, source: Id, depth: map<Id, nat>, id: Id, n: nat)
    requires Shortest(g, kinds, source, depth)
    requires forall p :: IsPath(g, kinds, source, id, p) ==> n <= |p|
    ensures Shortest(g, kinds, source, depth[id := n])
  {
    hide IsPath;
  }

  /**
   Finds a path that is no longer than any other, and fails only if there is none.
   */
  method FindPath(g: Graph, source: Id, target: Id, kinds: seq<Kind>) returns (found: Option<seq<Step>>)
    requires Stored(g)
    ensures found.Some? ==> IsPath(g, kinds, source, target, found.value)
    ensures found.Some? ==> forall p :: IsPath(g, kinds, source, target, p) ==> |found.value| <= |p|
    ensures found.None? <==> forall p :: !IsPath(g, kinds, source, target, p)
  {
    if source !in g.nodes || target !in g.nodes {
      forall p: seq<Step> {
        EndsAreStored(g, kinds, source, target, p);
      }
      return None;
    }
    var visited: set<Id> := {};
    ghost var depth: map<Id, nat> := map[];
    var queue := [Item(source, [Step(g.nodes[source], None)])];
    assert Queued(queue, source, 1) by { assert queue[0].id == source; }
    assert IsPath(g, kinds, source, source, queue[0].path);
    hide IsPath, Frontier, Shortest;
    assert Frontier(g, kinds, source, depth, queue) && Shortest(g, kinds, source, depth) by {
      NothingVisited(g, kinds, source, queue);
    }
    assert QueueOrdered(g, kinds, source, queue);
    hide QueueOrdered;
    while queue != []
      invariant visited == depth.Keys && visited <= g.nodes.Keys && target !in visited
      invariant QueueOrdered(g, kinds, source, queue)
      invariant Frontier(g, kinds, source, depth, queue) && Shortest(g, kinds, source, depth)
      decreases g.nodes.Keys - visited, |queue|
    {
      var item, rest := queue[0], queue[1..];
      FirstAndRest(g, kinds, source, queue);
      if item.id == target {
        FirstIsShortest(g, kinds, source, depth, queue, target);
        return Some(item.path);
      }
      if item.id in visited {
        FrontierSkips(g, kinds, source, depth, queue);
        queue := rest;
        continue;
      }
      FirstIsShortest(g, kinds, source, depth, queue, item.id);
      ShortestMore(g, kinds, source, depth, item.id, |item.path|);
      visited := visited + {item.id};
      var next := QueueSuccessors(g, kinds, source, visited, item, rest);
      FrontierMoves(g, kinds, source, depth, queue, next);
      depth := depth[item.id := |item.path|];
      queue := next;
    }
    NothingQueued(g, kinds, source, depth, target);
    return None;
  }

  lemma NothingVisited(g: Graph, kinds: seq<Kind>, source: Id, queue: seq<Item>)
    requires Queued(queue, source, 1)
    ensures Frontier(g, kinds, source, map[], queue) && Shortest(g, kinds, source, map[])
  {
  }

  /** Queues the stored successors of a node that are not visited, each with the path that leads to it. */
  method QueueSuccessors(g: Graph, kinds: seq<Kind>, source: Id, visited: set<Id>, item: Item, rest: seq<Item>)
    returns (queue: seq<Item>)
    requires Stored(g) && IsPath(g, kinds, source, item.id, item.path)
    requires QueueOrdered(g, kinds, source, rest) && Near(rest, |item.path|)
    ensures rest <= queue && QueueOrdered(g, kinds, source, queue)
    ensures forall e ::
        e in g.edges && e.source == item.id && KindAllowed(e.kind, kinds) && e.target in g.nodes &&
        e.target !in visited ==>
              Queued(queue, e.target, |item.path| + 1)
  {
    hide IsPath, QueueOrdered, Near, Queued;
    var outgoing := Outgoing(g.edges, item.id, kinds);
    queue := rest;
    for k := 0 to |outgoing|
      invariant rest <= queue && QueueOrdered(g, kinds, source, queue) && Near(queue, |item.path|)
      invariant forall j :: 0 <= j < k && outgoing[j].target in g.nodes && outgoing[j].target !in visited ==>
          Queued(queue, outgoing[j].target, |item.path| + 1)
    {
      var e := outgoing[k];
      assert e in outgoing;
      if e.target !in visited && e.target in g.nodes {
        Extended(g, kinds, source, item.path, e);
        var one := Item(e.target, item.path + [Step(g.nodes[e.target], Some(e))]);
        Pushed(g, kinds, source, queue, one, |item.path|);
        queue := queue + [one];
      }
    }
  }
}
