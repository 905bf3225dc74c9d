/**
 Breadth-first traversal. Unless the limit cuts it short it returns exactly the nodes
 within the given number of hops, and a spanning tree of shortest paths.
 */
module GraphBall {
  import opened Options
  import opened GraphStore

  datatype Direction = Forward | Backward | Both

  /** `maxDepth` is absent when unbounded; no kinds at all means every kind. */
  datatype Traversal = Traversal(
    maxDepth: Option<nat>, edgeKinds: seq<Kind>, nodeKinds: seq<Kind>, direction: Direction, limit: int,
        includeStart: bool)

  datatype Subgraph = Subgraph(nodes: map<Id, Node>, edges: seq<Edge>, roots: seq<Id>)

  function Adjacent(g: Graph, o: Traversal, id: Id): seq<Edge> {
    match o.direction
    case Forward => Outgoing(g.edges, id, o.edgeKinds)
    case Backward => Incoming(g.edges, id, o.edgeKinds)
    case Both => Outgoing(g.edges, id, o.edgeKinds) + Incoming(g.edges, id, o.edgeKinds)
  }

  /** The other end of an edge. */
  function Across(e: Edge, id: Id): Id {
    if e.source == id then e.target else e.source
  }

  function Rank(e: Edge): nat {
    if e.kind == "contains" then 0 else if e.kind == "calls" then 1 else 2
  }

  function OfRank(edges: seq<Edge>, rank: nat): (r: seq<Edge>)
    ensures forall e :: e in r <==> e in edges && Rank(e) == rank
  {
    if edges == [] then []
    else (if Rank(edges[0]) == rank then [edges[0]] else []) + OfRank(edges[1..], rank)
  }

  /** Structural edges first, and otherwise the order the store gives. */
  function ByPriority(edges: seq<Edge>): (r: seq<Edge>)
    ensures forall e :: e in r <==> e in edges
  {
    OfRank(edges, 0) + OfRank(edges, 1) + OfRank(edges, 2)
  }

  lemma {:induction false} OfRankJoin(a: seq<Edge>, b: seq<Edge>, rank: nat)
    ensures OfRank(a + b, rank) == OfRank(a, rank) + OfRank(b, rank)
  {
    if a == [] {
      assert a + b == b;
    } else {
      assert (a + b)[0] == a[0] && (a + b)[1..] == a[1..] + b;
      OfRankJoin(a[1..], b, rank);
    }
  }

  lemma {:induction false} OfOneRank(edges: seq<Edge>, rank: nat, other: nat)
    requires forall e :: e in edges ==> Rank(e) == rank
    ensures OfRank(edges, other) == if rank == other then edges else []
  {
    hide Rank;
    if edges != [] {
      assert edges[0] in edges && forall e :: e in edges[1..] ==> e in edges;
      OfOneRank(edges[1..], rank, other);
      assert [] + OfRank(edges[1..], other) == OfRank(edges[1..], other);
      assert edges == [edges[0]] + edges[1..];
    }
  }

  lemma {:induction false} RanksCount(edges: seq<Edge>)
    ensures |OfRank(edges, 0)| + |OfRank(edges, 1)| + |OfRank(edges, 2)| == |edges|
  {
    if edges != [] {
      RanksCount(edges[1..]);
    }
  }

  /** Sorting by priority is stable: edges of one rank keep their order, and no edge is lost or doubled. */
  lemma PriorityIsStable(edges: seq<Edge>, rank: nat)
    ensures OfRank(ByPriority(edges), rank) == OfRank(edges, rank)
    ensures |ByPriority(edges)| == |edges|
  {
    var a, b, c := OfRank(edges, 0), OfRank(edges, 1), OfRank(edges, 2);
    OfRankJoin(a + b, c, rank);
    OfRankJoin(a, b, rank);
    OfOneRank(a, 0, rank);
    OfOneRank(b, 1, rank);
    OfOneRank(c, 2, rank);
    RanksCount(edges);
    hide OfRank, Rank;
    if rank > 2 {
      NoSuchRank(edges, rank);
    }
  }

  lemma {:induction false} NoSuchRank(edges: seq<Edge>, rank: nat)
    requires rank > 2
    ensures OfRank(edges, rank) == []
  {
    if edges != [] {
      NoSuchRank(edges[1..], rank);
    }
  }

  lemma PriorityIsSorted(edges: seq<Edge>)
    ensures forall i, j :: 0 <= i < j < |ByPriority(edges)| ==> Rank(ByPriority(edges)[i]) <= Rank(ByPriority(edges)[j])
  {
    hide OfRank, Rank;
    var a, b, c := OfRank(edges, 0), OfRank(edges, 1), OfRank(edges, 2);
    forall i, j | 0 <= i < j < |ByPriority(edges)|
      ensures Rank(ByPriority(edges)[i]) <= Rank(ByPriority(edges)[j])
    {
      RankAt(a, b, c, i);
      RankAt(a, b, c, j);
    }
  }

  lemma RankAt(a: seq<Edge>, b: seq<Edge>, c: seq<Edge>, k: nat)
    requires k < |a + b + c|
    requires (forall e :: e in a ==> Rank(e) == 0) && (forall e :: e in b ==> Rank(e) == 1) &&
        forall e :: e in c ==> Rank(e) == 2
    ensures Rank((a + b + c)[k]) == if k < |a| then 0 else if k < |a| + |b| then 1 else 2
  {
    hide Rank;
    var s := a + b + c;
    if k < |a| {
      assert s[k] == a[k];
    } else if k < |a| + |b| {
      assert s[k] == b[k - |a|];
    } else {
      assert s[k] == c[k - |a| - |b|];
    }
  }

  /** Before an edge of containment there are only such edges, and before a call only calls and those. */
  lemma StructuralFirst(edges: seq<Edge>, i: nat, j: nat)
    requires i < j < |ByPriority(edges)|
    ensures var first, second := ByPriority(edges)[i].kind, ByPriority(edges)[j].kind;
            && (second == "contains" ==> first == "contains")
            && (second == "calls" ==> first == "contains" || first == "calls")
  {
    PriorityIsSorted(edges);
    hide ByPriority;
    assert Rank(ByPriority(edges)[i]) <= Rank(ByPriority(edges)[j]);
  }

  // ---------------------------------------------------------------- walks

  /** Edge `e` leads from `a` to the stored node `b`, and all kinds are allowed. */
  predicate Reaches(g: Graph, o: Traversal, e: Edge, a: Id, b: Id) {
    e in Adjacent(g, o, a) && Across(e, a) == b && b in g.nodes && KindAllowed(g.nodes[b].kind, o.nodeKinds)
  }

  ghost predicate Hop(g: Graph, o: Traversal, a: Id, b: Id) {
    exists e :: Reaches(g, o, e, a, b)
  }

  /** An edge of an allowed kind leads in an allowed direction from `a` to `b`, a stored node of an allowed kind. */
  predicate Leads(g: Graph, o: Traversal, e: Edge, a: Id, b: Id) {
    && e in g.edges && (o.edgeKinds == [] || e.kind in o.edgeKinds)
    && b in g.nodes && (o.nodeKinds == [] || g.nodes[b].kind in o.nodeKinds)
    && ((!o.direction.Backward? && e.source == a && e.target == b) ||
        (!o.direction.Forward? && e.target == a && e.source == b))
  }

  /** Such an edge, and nothing else, is what a hop takes. */
  lemma HopIsAnEdge(g: Graph, o: Traversal, a: Id, b: Id)
    ensures Hop(g, o, a, b) <==> exists e :: Leads(g, o, e, a, b)
  {
    if Hop(g, o, a, b) {
      var e :| Reaches(g, o, e, a, b);
      assert Leads(g, o, e, a, b);
    }
    if e :| Leads(g, o, e, a, b) {
      assert Reaches(g, o, e, a, b);
    }
  }

  ghost predicate IsWalk(g: Graph, o: Traversal, start: Id, id: Id, w: seq<Id>) {
    |w| >= 1 && w[0] == start && w[|w| - 1] == id && forall i :: 1 <= i < |w| ==> Hop(g, o, w[i - 1], w[i])
  }

  predicate Within(o: Traversal, hops: nat) {
    o.maxDepth.Some? ==> hops <= o.maxDepth.value
  }

  /** The nodes within the allowed number of hops. */
  ghost predicate InBall(g: Graph, o: Traversal, start: Id, id: Id) {
    exists w :: IsWalk(g, o, start, id, w) && Within(o, |w| - 1)
  }

  /** The number of hops of a shortest walk. */
  ghost predicate IsDistance(g: Graph, o: Traversal, start: Id, id: Id, hops: nat) {
    && (exists w :: IsWalk(g, o, start, id, w) && |w| == hops + 1)
    && (forall w :: IsWalk(g, o, start, id, w) ==> hops + 1 <= |w|)
  }

  lemma WalkOn(g: Graph, o: Traversal, start: Id, a: Id, w: seq<Id>, b: Id)
    requires IsWalk(g, o, start, a, w) && Hop(g, o, a, b)
    ensures IsWalk(g, o, start, b, w + [b])
  {
  }

  // ---------------------------------------------------------------- the queue

  datatype Item = Item(id: Id, edge: Option<Edge>, depth: nat)

  /** An item is the start, or was reached from a visited node by its edge. */
  ghost predicate Sourced(g: Graph, o: Traversal, start: Id, depth: map<Id, nat>, item: Item) {
    if item.edge.None? then item.id == start && item.depth == 0
    else exists a :: a in depth && Reaches(g, o, item.edge.value, a, item.id) && item.depth == depth[a] + 1
  }

  ghost predicate QueueOrdered(g: Graph, o: Traversal, start: Id, depth: map<Id, nat>, queue: seq<Item>) {
    && (forall i :: 0 <= i < |queue| ==>
        Sourced(g, o, start, depth, queue[i]) && Within(o, queue[i].depth) && queue[i].id in g.nodes)
    && (forall i, j :: 0 <= i < j < |queue| ==> queue[i].depth <= queue[j].depth <= queue[0].depth + 1)
  }

  ghost predicate Queued(queue: seq<Item>, id: Id, most: nat) {
    exists i :: 0 <= i < |queue| && queue[i].id == id && queue[i].depth <= most
  }

  ghost predicate Listed(queue: seq<Item>, id: Id) {
    exists i :: 0 <= i < |queue| && queue[i].id == id
  }

  ghost predicate Frontier(g: Graph, o: Traversal, start: Id, depth: map<Id, nat>, queue: seq<Item>) {
    && (start !in depth ==> Queued(queue, start, 0))
    && (forall e, a, b :: a in depth && Within(o, depth[a] + 1) && b !in depth && Reaches(g, o, e, a, b) ==>
        Queued(queue, b, depth[a] + 1))
  }

  ghost predicate Distances(g: Graph, o: Traversal, start: Id, depth: map<Id, nat>) {
    forall id :: id in depth ==> IsDistance(g, o, start, id, depth[id]) && Within(o, depth[id])
  }

  lemma DistanceIsLeast(g: Graph, o: Traversal, start: Id, depth: map<Id, nat>, id: Id, w: seq<Id>)
    requires Distances(g, o, start, depth) && id in depth && IsWalk(g, o, start, id, w)
    ensures depth[id] + 1 <= |w|
  {
  }

  lemma WalkLess(g: Graph, o: Traversal, start: Id, id: Id, w: seq<Id>)
    requires IsWalk(g, o, start, id, w)
    ensures |w| == 1 ==> id == start
    ensures |w| > 1 ==> IsWalk(g, o, start, w[|w| - 2], w[..|w| - 1]) && Hop(g, o, w[|w| - 2], id)
    ensures |w| >= 1
  {
    hide Hop;
  }

  /** A walk to a node not yet visited leaves the visited ones somewhere, and what it enters next is in the queue. */
  lemma {:induction false} Overtaken(g: Graph, o: Traversal, start: Id, depth: map<Id, nat>, queue: seq<Item>, id: Id,
      w: seq<Id>)
    requires Frontier(g, o, start, depth, queue) && Distances(g, o, start, depth)
    requires |w| >= 1 && IsWalk(g, o, start, id, w) && Within(o, |w| - 1) && id !in depth
    ensures exists other :: other !in depth && Queued(queue, other, |w| - 1)
    decreases |w|
  {
    hide Reaches, IsWalk, Distances;
    WalkLess(g, o, start, id, w);
    if |w| == 1 {
      assert Queued(queue, start, 0);
    } else {
      var before := w[|w| - 2];
      if before in depth {
        DistanceIsLeast(g, o, start, depth, before, w[..|w| - 1]);
        var e :| Reaches(g, o, e, before, id);
        assert Queued(queue, id, depth[before] + 1);
        assert Queued(queue, id, |w| - 1);
      } else {
        Overtaken(g, o, start, depth, queue, before, w[..|w| - 1]);
        var other :| other !in depth && Queued(queue, other, |w| - 2);
        assert Queued(queue, other, |w| - 1);
      }
    }
  }

  lemma SourcedWalks(g: Graph, o: Traversal, start: Id, depth: map<Id, nat>, item: Item)
    requires Sourced(g, o, start, depth, item) && Distances(g, o, start, depth)
    ensures exists w :: IsWalk(g, o, start, item.id, w) && |w| == item.depth + 1
  {
    hide Reaches, Hop, Within;
    if item.edge.None? {
      assert IsWalk(g, o, start, item.id, [start]);
    } else {
      var a :| a in depth && Reaches(g, o, item.edge.value, a, item.id) && item.depth == depth[a] + 1;
      HopBy(g, o, item.edge.value, a, item.id);
      hide IsWalk;
      var w :| IsWalk(g, o, start, a, w) && |w| == depth[a] + 1;
      WalkOn(g, o, start, a, w, item.id);
    }
  }

  lemma HopBy(g: Graph, o: Traversal, e: Edge, a: Id, b: Id)
    requires Reaches(g, o, e, a, b)
    ensures Hop(g, o, a, b)
  {
  }

  /** The first of the queue is at its distance if it was not visited before. */
  lemma FirstIsNearest(g: Graph, o: Traversal, start: Id, depth: map<Id, nat>, queue: seq<Item>)
    requires queue != [] && QueueOrdered(g, o, start, depth, queue) && queue[0].id !in depth
    requires Frontier(g, o, start, depth, queue) && Distances(g, o, start, depth)
    ensures IsDistance(g, o, start, queue[0].id, queue[0].depth)
    ensures Distances(g, o, start, depth[queue[0].id := queue[0].depth])
  {
    hide IsWalk, Reaches, Frontier, Distances, Sourced;
    var item := queue[0];
    SourcedWalks(g, o, start, depth, item);
    forall w | IsWalk(g, o, start, item.id, w) ensures item.depth + 1 <= |w| {
      WalkLess(g, o, start, item.id, w);
      if Within(o, |w| - 1) {
        Overtaken(g, o, start, depth, queue, item.id, w);
      }
    }
    DistancesMore(g, o, start, depth, item.id, item.depth);
  }

  lemma DistancesMore(g: Graph, o: Traversal, start: Id, depth: map<Id, nat>, id: Id, hops: nat)
    requires Distances(g, o, start, depth) && IsDistance(g, o, start, id, hops) && Within(o, hops)
    ensures Distances(g, o, start, depth[id := hops])
  {
    hide IsDistance;
  }

  /** While the start is not visited it is the first of the queue. */
  lemma StartIsFirst(g: Graph, o: Traversal, start: Id, depth: map<Id, nat>, queue: seq<Item>)
    requires queue != [] && QueueOrdered(g, o, start, depth, queue) && Frontier(g, o, start, depth, queue)
    ensures start !in depth ==> queue[0].id == start
    ensures queue[0].edge.None? ==> queue[0].id == start
  {
    if start !in depth {
      var i :| 0 <= i < |queue| && queue[i].id == start && queue[i].depth <= 0;
      assert Sourced(g, o, start, depth, queue[0]);
    }
  }

  lemma FrontierSkips(g: Graph, o: Traversal, start: Id, depth: map<Id, nat>, queue: seq<Item>)
    requires queue != [] && queue[0].id in depth && Frontier(g, o, start, depth, queue)
    ensures Frontier(g, o, start, depth, queue[1..])
  {
    hide Reaches;
    forall id, most: nat | id !in depth && Queued(queue, id, most) ensures Queued(queue[1..], id, most) {
      var i :| 0 <= i < |queue| && queue[i].id == id && queue[i].depth <= most;
      assert queue[1..][i - 1] == queue[i];
    }
  }

  /** Visiting the first of the queue: what it reaches is queued now, and the rest of the frontier stands. */
  lemma FrontierMoves(g: Graph, o: Traversal, start: Id, depth: map<Id, nat>, queue: seq<Item>, after: seq<Item>)
    requires queue != [] && queue[0].id !in depth && Frontier(g, o, start, depth, queue)
    requires queue[1..] <= after
    requires Within(o, queue[0].depth + 1) ==>
        forall e, b :: b !in depth && b != queue[0].id && Reaches(g, o, e, queue[0].id, b) ==>
            Queued(after, b, queue[0].depth + 1)
    ensures Frontier(g, o, start, depth[queue[0].id := queue[0].depth], after)
  {
    hide Reaches;
    forall id, most: nat | id != queue[0].id && Queued(queue, id, most) ensures Queued(after, id, most) {
      var i :| 0 <= i < |queue| && queue[i].id == id && queue[i].depth <= most;
      assert after[i - 1] == queue[1..][i - 1] == queue[i];
    }
  }

  predicate Near(queue: seq<Item>, n: nat) {
    forall i :: 0 <= i < |queue| ==> n <= queue[i].depth <= n + 1
  }

  lemma SourcedStill(g: Graph, o: Traversal, start: Id, depth: map<Id, nat>, item: Item, id: Id, n: nat)
    requires Sourced(g, o, start, depth, item) && id !in depth
    ensures Sourced(g, o, start, depth[id := n], item)
  {
    hide Reaches;
    if item.edge.Some? {
      var a :| a in depth && Reaches(g, o, item.edge.value, a, item.id) && item.depth == depth[a] + 1;
      assert depth[id := n][a] == depth[a];
    }
  }

  lemma FirstAndRest(g: Graph, o: Traversal, start: Id, depth: map<Id, nat>, queue: seq<Item>)
    requires queue != [] && QueueOrdered(g, o, start, depth, queue)
    ensures Sourced(g, o, start, depth, queue[0]) && Within(o, queue[0].depth) && queue[0].id in g.nodes
    ensures QueueOrdered(g, o, start, depth, queue[1..]) && Near(queue[1..], queue[0].depth)
    ensures queue[0].id !in depth ==> QueueOrdered(g, o, start, depth[queue[0].id := queue[0].depth], queue[1..])
  {
    hide Sourced, Within;
    var rest := queue[1..];
    assert forall i :: 0 <= i < |rest| ==> rest[i] == queue[i + 1];
    if queue[0].id !in depth {
      forall i | 0 <= i < |rest| ensures Sourced(g, o, start, depth[queue[0].id := queue[0].depth], rest[i]) {
        SourcedStill(g, o, start, depth, rest[i], queue[0].id, queue[0].depth);
      }
    }
  }

  lemma Pushed(g: Graph, o: Traversal, start: Id, depth: map<Id, nat>, queue: seq<Item>, item: Item, n: nat)
    requires QueueOrdered(g, o, start, depth, queue) && Near(queue, n)
    requires Sourced(g, o, start, depth, item) && Within(o, n + 1) && item.depth == n + 1 && item.id in g.nodes
    ensures QueueOrdered(g, o, start, depth, queue + [item]) && Near(queue + [item], n)
    ensures Queued(queue + [item], item.id, n + 1)
    ensures forall id, most: nat :: Queued(queue, id, most) ==> Queued(queue + [item], id, most)
    ensures forall id :: Listed(queue + [item], id) <==> Listed(queue, id) || id == item.id
  {
    hide Sourced, Within;
    var all := queue + [item];
    assert all[|queue|] == item;
    forall id, most: nat | Queued(queue, id, most) ensures Queued(all, id, most) {
      var i :| 0 <= i < |queue| && queue[i].id == id && queue[i].depth <= most;
      assert all[i] == queue[i];
    }
    forall id | Listed(queue, id) ensures Listed(all, id) {
      var i :| 0 <= i < |queue| && queue[i].id == id;
      assert all[i] == queue[i];
    }
  }

  // ---------------------------------------------------------------- the tree

  /** Edge `e` leads to `b` from one of the nodes `earlier`, one hop nearer to the start. */
  ghost predicate HasParent(g: Graph, o: Traversal, start: Id, e: Edge, earlier: seq<Id>, b: Id) {
    exists a, hops: nat ::
        a in earlier && Reaches(g, o, e, a, b) && IsDistance(g, o, start, a, hops) &&
        IsDistance(g, o, start, b, hops + 1)
  }

  /**
   The nodes in the order they were visited, and for each but the first the edge that
   led to it from a node visited earlier and one hop nearer to the start.
   */
  ghost predicate ShortestTree(g: Graph, o: Traversal, start: Id, order: seq<Id>, edges: seq<Edge>) {
    && |order| >= 1 && order[0] == start && |edges| == |order| - 1
    && (forall i, j :: 0 <= i < j < |order| ==> order[i] != order[j])
    && (forall i :: 0 <= i < |edges| ==> HasParent(g, o, start, edges[i], order[..i + 1], order[i + 1]))
  }

  ghost predicate Grown(g: Graph, o: Traversal, start: Id, order: seq<Id>, edges: seq<Edge>) {
    (order == [] && edges == []) || ShortestTree(g, o, start, order, edges)
  }

  function Appended(edges: seq<Edge>, edge: Option<Edge>): seq<Edge> {
    if edge.None? then edges else edges + [edge.value]
  }

  lemma TreeGrows(g: Graph, o: Traversal, start: Id, depth: map<Id, nat>, order: seq<Id>, edges: seq<Edge>, item: Item)
    requires Grown(g, o, start, order, edges) && (forall id :: id in order <==> id in depth)
    requires Sourced(g, o, start, depth, item) && item.id !in depth &&
        (start !in depth ==> item.id == start && item.edge.None?)
    requires Distances(g, o, start, depth) && IsDistance(g, o, start, item.id, item.depth)
    ensures ShortestTree(g, o, start, order + [item.id], Appended(edges, item.edge))
  {
    hide Reaches, IsDistance;
    if order == [] {
      assert start !in depth;
    } else {
      assert order[0] in order;
      var a :| a in depth && Reaches(g, o, item.edge.value, a, item.id) && item.depth == depth[a] + 1;
      assert HasParent(g, o, start, item.edge.value, order, item.id);
      hide HasParent;
      var more, grown := order + [item.id], edges + [item.edge.value];
      forall i | 0 <= i < |grown| ensures HasParent(g, o, start, grown[i], more[..i + 1], more[i + 1]) {
        assert more[..i + 1] == order[..i + 1];
        assert order[..|order|] == order;
      }
    }
  }

  // ---------------------------------------------------------------- the limit

  /** The queue is nowhere nearer to the start than the nodes visited. */
  ghost predicate Deep(depth: map<Id, nat>, queue: seq<Item>) {
    forall a, i :: a in depth && 0 <= i < |queue| ==> depth[a] <= queue[i].depth
  }

  /** The start and the nodes next to those visited before the last one, as far as they are among `nodes`. */
  ghost function Earlier(g: Graph, o: Traversal, start: Id, order: seq<Id>, nodes: map<Id, Node>): set<Id>
    requires order != []
  {
    set id | id in nodes && (id == start || exists a :: a in order[..|order| - 1] && Hop(g, o, a, id))
  }

  /** What the nodes visited lead to is there, unless it is too far. */
  ghost predicate AllNeighbors(g: Graph, o: Traversal, start: Id, order: seq<Id>, nodes: map<Id, Node>) {
    forall a, id, hops: nat :: a in order && Hop(g, o, a, id) && IsDistance(g, o, start, a, hops) ==>
      Within(o, hops + 1) && (id != start || o.includeStart) ==> id in nodes
  }

  lemma SweepHasNeighbors(g: Graph, o: Traversal, start: Id, depth: map<Id, nat>, queue: seq<Item>,
      nodes: map<Id, Node>, order: seq<Id>, edges: seq<Edge>)
    requires Sweeping(g, o, start, depth, queue, nodes, order, edges)
    ensures AllNeighbors(g, o, start, order, nodes)
  {
    hide Reaches, QueueOrdered, Grown, IsDistance;
    forall a, id, hops: nat | a in order && Hop(g, o, a, id) && IsDistance(g, o, start, a, hops) &&
                              Within(o, hops + 1) && (id != start || o.includeStart)
      ensures id in nodes
    {
      assert IsDistance(g, o, start, a, depth[a]);
      OneDistance(g, o, start, a, hops, depth[a]);
      if id !in depth {
        var e :| Reaches(g, o, e, a, id);
        assert Queued(queue, id, depth[a] + 1);
        assert Listed(queue, id);
      }
    }
  }

  lemma OneDistance(g: Graph, o: Traversal, start: Id, id: Id, hops: nat, other: nat)
    requires IsDistance(g, o, start, id, hops) && IsDistance(g, o, start, id, other)
    ensures hops == other
  {
    hide IsWalk;
  }

  lemma DeepStays(g: Graph, o: Traversal, start: Id, depth: map<Id, nat>, before: seq<Item>, queue: seq<Item>)
    requires before != [] && Deep(depth, before) && QueueOrdered(g, o, start, depth, before)
    requires before[1..] <= queue
    requires forall i :: |before| - 1 <= i < |queue| ==> queue[i].depth == before[0].depth + 1
    ensures Deep(depth[before[0].id := before[0].depth], queue) && Deep(depth, before[1..])
  {
    hide Sourced;
    forall i | 0 <= i < |queue| ensures before[0].depth <= queue[i].depth {
      if i < |before| - 1 {
        assert queue[i] == before[1..][i] == before[i + 1];
      }
    }
  }

  /** What the nodes visited earlier lead to was collected before the next one was visited. */
  lemma EarlierIsCollected(g: Graph, o: Traversal, start: Id, depth: map<Id, nat>, queue: seq<Item>,
      nodes: map<Id, Node>, order: seq<Id>, edges: seq<Edge>, id: Id)
    requires queue != [] && Sweeping(g, o, start, depth, queue, nodes, order, edges) && Deep(depth, queue)
    requires Within(o, queue[0].depth + 1) && (id != start || o.includeStart)
    requires id == start || exists a :: a in order && Hop(g, o, a, id)
    ensures id in nodes
  {
    hide Reaches, QueueOrdered, Distances, Grown, ShortestTree;
    if id !in depth {
      if id == start {
        assert Queued(queue, start, 0);
      } else {
        var a :| a in order && Hop(g, o, a, id);
        var e :| Reaches(g, o, e, a, id);
        assert depth[a] <= queue[0].depth;
        assert Queued(queue, id, depth[a] + 1);
      }
      assert Listed(queue, id);
    }
  }

  // ---------------------------------------------------------------- the order

  /** The node from which an item was queued. */
  function Parent(item: Item): Id
    requires item.edge.Some?
  {
    Across(item.edge.value, item.id)
  }

  /** Both were queued from one node. */
  predicate Siblings(a: Item, b: Item) {
    a.edge.Some? && b.edge.Some? && Parent(a) == Parent(b)
  }

  /** What one node queues comes in the order of rank. */
  ghost predicate RankedLog(pushed: seq<Item>) {
    forall i, j :: 0 <= i < j < |pushed| && Siblings(pushed[i], pushed[j]) ==>
      Rank(pushed[i].edge.value) <= Rank(pushed[j].edge.value)
  }

  ghost predicate ParentsIn(pushed: seq<Item>, visited: set<Id>) {
    forall i :: 0 <= i < |pushed| && pushed[i].edge.Some? ==> Parent(pushed[i]) in visited
  }

  /** All items ever queued: the last of them are the queue, and those at `at` were visited, in this order. */
  ghost predicate Logged(pushed: seq<Item>, at: seq<nat>, order: seq<Id>, edges: seq<Edge>, queue: seq<Item>) {
    && |at| == |order| && |queue| <= |pushed| && pushed[|pushed| - |queue|..] == queue
    && (forall i, j :: 0 <= i < j < |at| ==> at[i] < at[j])
    && (forall i :: 0 <= i < |at| ==> at[i] < |pushed| - |queue| && pushed[at[i]].id == order[i])
    && |edges| == (if order == [] then 0 else |order| - 1)
    && (forall i :: 0 <= i < |edges| ==> pushed[at[i + 1]].edge == Some(edges[i]))
  }

  /** Nodes reached from one node are visited in the order of rank of the edges that led to them. */
  ghost predicate RankedTree(order: seq<Id>, edges: seq<Edge>) {
    |edges| == (if order == [] then 0 else |order| - 1) &&
    forall i, j :: 0 <= i < j < |edges| && Across(edges[i], order[i + 1]) == Across(edges[j], order[j + 1]) ==>
      Rank(edges[i]) <= Rank(edges[j])
  }

  lemma LogIsRanked(pushed: seq<Item>, at: seq<nat>, order: seq<Id>, edges: seq<Edge>, queue: seq<Item>)
    requires Logged(pushed, at, order, edges, queue) && RankedLog(pushed)
    ensures RankedTree(order, edges)
  {
    hide Rank, Across;
    forall i, j | 0 <= i < j < |edges| && Across(edges[i], order[i + 1]) == Across(edges[j], order[j + 1])
      ensures Rank(edges[i]) <= Rank(edges[j])
    {
      assert at[i + 1] < at[j + 1];
      assert pushed[at[i + 1]].edge == Some(edges[i]) && pushed[at[j + 1]].edge == Some(edges[j]);
    }
  }

  lemma LogSkips(pushed: seq<Item>, at: seq<nat>, order: seq<Id>, edges: seq<Edge>, queue: seq<Item>)
    requires Logged(pushed, at, order, edges, queue) && queue != []
    ensures Logged(pushed, at, order, edges, queue[1..])
  {
    assert pushed[|pushed| - |queue| + 1..] == queue[1..];
  }

  /** The first of the queue is visited and queues what it leads to. */
  lemma LogVisits(pushed: seq<Item>, at: seq<nat>, order: seq<Id>, edges: seq<Edge>, before: seq<Item>,
      queue: seq<Item>)
    requires Logged(pushed, at, order, edges, before) && before != [] && before[1..] <= queue
    requires order == [] <==> before[0].edge.None?
    ensures |before| <= |pushed|
    ensures var more := queue[|before| - 1..];
            Logged(pushed + more, at + [|pushed| - |before|], order + [before[0].id], Appended(edges, before[0].edge),
                queue)
  {
    var more, head := queue[|before| - 1..], |pushed| - |before|;
    var log, places, visits := pushed + more, at + [head], order + [before[0].id];
    assert pushed[head] == before[0] by { assert pushed[head..][0] == before[0]; }
    assert queue == before[1..] + more && |log| - |queue| == head + 1;
    assert log[head + 1..] == pushed[head + 1..] + more && pushed[head + 1..] == before[1..] by {
      assert pushed[head..][1..] == pushed[head + 1..];
    }
    forall i | 0 <= i < |places| ensures places[i] < |log| - |queue| && log[places[i]].id == visits[i] {
      if i < |at| { assert at[i] < head; }
    }
    var tree := Appended(edges, before[0].edge);
    forall i | 0 <= i < |tree| ensures log[places[i + 1]].edge == Some(tree[i]) {
      if i < |edges| {
        assert pushed[at[i + 1]].edge == Some(edges[i]);
      }
    }
  }

  lemma LogStaysRanked(pushed: seq<Item>, more: seq<Item>, visited: set<Id>, id: Id)
    requires RankedLog(pushed) && RankedLog(more) && ParentsIn(pushed, visited) && id !in visited
    requires forall k :: 0 <= k < |more| ==> more[k].edge.Some? && Parent(more[k]) == id
    ensures RankedLog(pushed + more) && ParentsIn(pushed + more, visited + {id})
  {
    hide Rank, Across;
    var all := pushed + more;
    forall i, j | 0 <= i < j < |all| && Siblings(all[i], all[j])
      ensures Rank(all[i].edge.value) <= Rank(all[j].edge.value)
    {
      if i >= |pushed| {
        assert all[i] == more[i - |pushed|] && all[j] == more[j - |pushed|];
      }
    }
  }

  /** The edge leads back to where it came from. */
  lemma AcrossAgain(g: Graph, o: Traversal, e: Edge, a: Id)
    requires e in Adjacent(g, o, a) && Across(e, a) != a
    ensures Across(e, Across(e, a)) == a
  {
  }

  // ---------------------------------------------------------------- the traversal

  /** The nodes collected so far: those visited and those in the queue, the start only if it is wanted. */
  ghost predicate Collected(g: Graph, o: Traversal, start: Id, depth: map<Id, nat>, queue: seq<Item>,
      nodes: map<Id, Node>) {
    && (forall id :: id in nodes <==> (id in depth || Listed(queue, id)) && (id != start || o.includeStart))
    && (forall id :: id in nodes ==> id in g.nodes && nodes[id] == g.nodes[id])
  }

  lemma CollectedMoves(g: Graph, o: Traversal, start: Id, depth: map<Id, nat>, queue: seq<Item>, nodes: map<Id, Node>,
      n: nat)
    requires queue != [] && Collected(g, o, start, depth, queue, nodes)
    ensures queue[0].id in depth ==> Collected(g, o, start, depth, queue[1..], nodes)
    ensures Collected(g, o, start, depth[queue[0].id := n], queue[1..], nodes)
  {
    var rest := queue[1..];
    forall id ensures Listed(queue, id) <==> Listed(rest, id) || id == queue[0].id {
      if Listed(queue, id) && id != queue[0].id {
        var i :| 0 <= i < |queue| && queue[i].id == id;
        assert rest[i - 1] == queue[i];
      }
      if Listed(rest, id) {
        var i :| 0 <= i < |rest| && rest[i].id == id;
        assert queue[i + 1] == rest[i];
      }
    }
    hide Listed;
  }

  /** What is collected lies in the ball, and once the queue is empty the ball is exhausted. */
  lemma CollectedInBall(g: Graph, o: Traversal, start: Id, depth: map<Id, nat>, queue: seq<Item>, nodes: map<Id, Node>)
    requires Collected(g, o, start, depth, queue, nodes) && QueueOrdered(g, o, start, depth, queue) &&
        Distances(g, o, start, depth)
    ensures forall id :: id in nodes || id in depth ==> InBall(g, o, start, id)
  {
    hide IsWalk, Sourced;
    forall id | id in nodes || id in depth ensures InBall(g, o, start, id) {
      if id !in depth {
        var i :| 0 <= i < |queue| && queue[i].id == id;
        SourcedWalks(g, o, start, depth, queue[i]);
      }
    }
  }

  lemma BallExhausted(g: Graph, o: Traversal, start: Id, depth: map<Id, nat>)
    requires Frontier(g, o, start, depth, []) && Distances(g, o, start, depth)
    ensures forall id :: InBall(g, o, start, id) ==> id in depth
  {
    hide Hop, Frontier, Distances;
    forall id | InBall(g, o, start, id) ensures id in depth {
      var w :| IsWalk(g, o, start, id, w) && Within(o, |w| - 1);
      WalkLess(g, o, start, id, w);
      if id !in depth {
        Overtaken(g, o, start, depth, [], id, w);
        assert false;
      }
    }
  }

  /**
   Returns nodes of the ball only, and all of it unless the limit is reached. The edges
   form a tree of shortest walks over the nodes visited, given by `order`. When the last of
   them was visited the limit was not reached: fewer nodes than that were collected by then.
   What a visited node leads to is returned whether or not that exceeds the limit.
   Of the nodes that one node leads to, those by edges of smaller rank are visited first.
   */
  method TraverseBFS(g: Graph, start: Id, o: Traversal) returns (r: Subgraph, ghost order: seq<Id>)
    requires Stored(g)
    ensures start !in g.nodes ==> r == Subgraph(map[], [], [])
    ensures start in g.nodes ==> r.roots == [start]
    ensures forall id :: id in r.nodes ==> id in g.nodes && r.nodes[id] == g.nodes[id] && InBall(g, o, start, id)
    ensures start in g.nodes && |r.nodes| < o.limit ==>
              && (forall id :: id in r.nodes <==> InBall(g, o, start, id) && (id != start || o.includeStart))
              && (forall id :: id in order <==> InBall(g, o, start, id))
    ensures if order == [] then r.edges == [] else ShortestTree(g, o, start, order, r.edges)
    ensures order != [] ==> |Earlier(g, o, start, order, r.nodes)| < o.limit
    ensures RankedTree(order, r.edges)
    ensures AllNeighbors(g, o, start, order, r.nodes)
  {
    hide AllNeighbors;
    hide Earlier, Deep, Logged, RankedLog, ParentsIn, RankedTree, Appended, Hop;
    hide Sweeping, Expanding, NeighborsQueued, InBall, ShortestTree, Near, Within, Stored, Reaches, Adjacent,
         KindAllowed, Frontier, Distances, QueueOrdered, Collected, Grown;
    order := [];
    if start !in g.nodes {
      NothingRanked(g, o, start);
      return Subgraph(map[], [], []), [];
    }
    var nodes: map<Id, Node> := map[];
    var edges: seq<Edge> := [];
    var visited: set<Id> := {};
    ghost var depth: map<Id, nat> := map[];
    var queue := [Item(start, None, 0)];
    if o.includeStart {
      nodes := nodes[start := g.nodes[start]];
    }
    NothingVisited(g, o, start, nodes);
    ghost var pushed: seq<Item>, at: seq<nat> := queue, [];
    assert Deep(depth, queue) && Logged(pushed, at, order, edges, queue) && RankedLog(pushed)
           && ParentsIn(pushed, visited) by { StartIsLogged(start); }
    while queue != [] && |nodes| < o.limit
      invariant visited == depth.Keys && visited <= g.nodes.Keys
      invariant Sweeping(g, o, start, depth, queue, nodes, order, edges)
      invariant Deep(depth, queue) && (order != [] ==> |Earlier(g, o, start, order, nodes)| < o.limit)
      invariant Logged(pushed, at, order, edges, queue) && RankedLog(pushed) && ParentsIn(pushed, visited)
      decreases g.nodes.Keys - visited, |queue|
    {
      var item, rest := queue[0], queue[1..];
      if item.id in visited {
        SweepSkips(g, o, start, depth, queue, nodes, order, edges);
        DeepSkips(depth, queue);
        LogSkips(pushed, at, order, edges, queue);
        queue := rest;
        continue;
      }
      ghost var before, collected, visits, tree := queue, nodes, order, edges;
      FirstEdge(g, o, start, depth, queue, nodes, order, edges);
      ghost var depth0 := depth;
      visited, queue, nodes, edges, depth, order := VisitFirst(g, start, o, visited, queue, nodes, edges, depth, order);
      FewerThanLimit(g, o, start, order, nodes, collected);
      ghost var more := queue[|before| - 1..];
      SweepDeepens(g, o, start, depth0, before, collected, visits, tree, queue);
      LogVisits(pushed, at, visits, tree, before, queue);
      PushedFrom(before, queue, more);
      LogStaysRanked(pushed, more, visited - {item.id}, item.id);
      assert visited - {item.id} + {item.id} == visited;
      ghost var head: nat := |pushed| - |before|;
      at, pushed := at + [head], pushed + more;
    }
    LogIsRanked(pushed, at, order, edges, queue);
    SweepHasNeighbors(g, o, start, depth, queue, nodes, order, edges);
    SweepIsSound(g, o, start, depth, queue, nodes, order, edges);
    r := Subgraph(nodes, edges, [start]);
  }

  /** Visits the first of the queue, which was not visited before, and queues its neighbours unless it is too far. */
  method VisitFirst(g: Graph, start: Id, o: Traversal, visited0: set<Id>, queue0: seq<Item>, nodes0: map<Id, Node>,
      edges0: seq<Edge>, ghost depth0: map<Id, nat>, ghost order0: seq<Id>)
    returns (visited: set<Id>, queue: seq<Item>, nodes: map<Id, Node>, edges: seq<Edge>, ghost depth: map<Id, nat>,
        ghost order: seq<Id>)
    requires queue0 != [] && queue0[0].id !in visited0 && visited0 == depth0.Keys && visited0 <= g.nodes.Keys
    requires Sweeping(g, o, start, depth0, queue0, nodes0, order0, edges0) && Deep(depth0, queue0)
    ensures queue0[1..] <= queue && order == order0 + [queue0[0].id] && edges == Appended(edges0, queue0[0].edge)
    ensures depth == depth0[queue0[0].id := queue0[0].depth]
    ensures forall k :: |queue0| - 1 <= k < |queue| ==> QueuedFrom(queue0[0], queue[k])
    ensures RankedLog(queue[|queue0| - 1..])
    ensures forall id :: id in Earlier(g, o, start, order, nodes) ==> id in nodes0
    ensures visited == visited0 + {queue0[0].id} && queue0[0].id in g.nodes && visited == depth.Keys
    ensures Sweeping(g, o, start, depth, queue, nodes, order, edges)
  {
    hide Sweeping, Expanding, NeighborsQueued, Near, Within, Deepened, Deep, Earlier, RankedLog, QueuedFrom;
    var item, rest := queue0[0], queue0[1..];
    FirstIsVisited(g, o, start, depth0, queue0, nodes0, order0, edges0);
    visited := visited0 + {item.id};
    depth := depth0[item.id := item.depth];
    order := order0 + [item.id];
    edges := edges0;
    if item.edge.Some? {
      edges := edges + [item.edge.value];
    }
    assert edges == Appended(edges0, item.edge);
    hide Appended;
    queue, nodes := rest, nodes0;
    if o.maxDepth.Some? && item.depth >= o.maxDepth.value {
      TooFar(o, item.depth);
      NothingPushed();
      assert queue[|queue0| - 1..] == [];
      EarlierIsAmong(g, o, start, order, nodes);
    } else {
      NotTooFar(o, item.depth);
      queue, nodes := QueueNeighbors(g, o, start, visited, depth0, queue0, nodes0, order, edges);
      AllEarlierCollected(g, o, start, depth0, queue0, nodes0, order0, edges0, queue, nodes, order, edges);
    }
    SweepGoesOn(g, o, start, depth0, queue0, queue, nodes, order, edges);
  }

  lemma NothingRanked(g: Graph, o: Traversal, start: Id)
    ensures RankedTree([], []) && AllNeighbors(g, o, start, [], map[])
  {
  }

  lemma NothingPushed()
    ensures RankedLog([])
  {
  }

  lemma EarlierIsAmong(g: Graph, o: Traversal, start: Id, order: seq<Id>, nodes: map<Id, Node>)
    requires order != []
    ensures forall id :: id in Earlier(g, o, start, order, nodes) ==> id in nodes
  {
    hide Hop;
  }

  lemma FewerThanLimit(g: Graph, o: Traversal, start: Id, order: seq<Id>, nodes: map<Id, Node>,
      collected: map<Id, Node>)
    requires order != [] && |collected| < o.limit
    requires forall id :: id in Earlier(g, o, start, order, nodes) ==> id in collected
    ensures |Earlier(g, o, start, order, nodes)| < o.limit
  {
    hide Earlier;
    assert |collected.Keys| == |collected|;
    Fewer(Earlier(g, o, start, order, nodes), collected.Keys);
  }

  lemma Fewer(a: set<Id>, b: set<Id>)
    requires a <= b
    ensures |a| <= |b|
  {
    assert a + (b - a) == b;
  }

  lemma AllEarlierCollected(g: Graph, o: Traversal, start: Id, depth: map<Id, nat>, before: seq<Item>,
      nodes0: map<Id, Node>, order0: seq<Id>, edges0: seq<Edge>, queue: seq<Item>, nodes: map<Id, Node>, order: seq<Id>,
      edges: seq<Edge>)
    requires before != [] && Sweeping(g, o, start, depth, before, nodes0, order0, edges0) && Deep(depth, before)
    requires Within(o, before[0].depth + 1) && order == order0 + [before[0].id]
    requires Expanding(g, o, start, depth, before, queue, nodes, order, edges)
    ensures forall id :: id in Earlier(g, o, start, order, nodes) ==> id in nodes0
  {
    hide Sweeping, Deep, Within, Hop;
    assert order[..|order| - 1] == order0;
    forall id | id in Earlier(g, o, start, order, nodes) ensures id in nodes0 {
      StartIsWanted(g, o, start, depth, before, queue, nodes, order, edges, id);
      EarlierIsCollected(g, o, start, depth, before, nodes0, order0, edges0, id);
    }
  }

  lemma StartIsWanted(g: Graph, o: Traversal, start: Id, depth: map<Id, nat>, before: seq<Item>, queue: seq<Item>,
      nodes: map<Id, Node>, order: seq<Id>, edges: seq<Edge>, id: Id)
    requires Expanding(g, o, start, depth, before, queue, nodes, order, edges) && id in nodes
    ensures id != start || o.includeStart
  {
    hide QueueOrdered, Frontier, Distances, ShortestTree, Listed;
  }

  lemma FirstEdge(g: Graph, o: Traversal, start: Id, depth: map<Id, nat>, queue: seq<Item>, nodes: map<Id, Node>,
      order: seq<Id>, edges: seq<Edge>)
    requires queue != [] && Sweeping(g, o, start, depth, queue, nodes, order, edges) && queue[0].id !in depth
    ensures order == [] <==> queue[0].edge.None?
  {
    hide Reaches, IsDistance, HasParent, Distances, Collected;
    StartHasNoEdge(g, o, start, depth, queue);
    StartIsFirst(g, o, start, depth, queue);
    hide QueueOrdered, Frontier;
    if order == [] {
      assert start !in depth;
    } else {
      assert order[0] in order;
    }
  }

  lemma SweepDeepens(g: Graph, o: Traversal, start: Id, depth: map<Id, nat>, before: seq<Item>, nodes: map<Id, Node>,
      order: seq<Id>, edges: seq<Edge>, queue: seq<Item>)
    requires Sweeping(g, o, start, depth, before, nodes, order, edges) && before != [] && Deep(depth, before)
    requires before[1..] <= queue
    requires forall k :: |before| - 1 <= k < |queue| ==> QueuedFrom(before[0], queue[k])
    ensures Deep(depth[before[0].id := before[0].depth], queue)
  {
    hide QueueOrdered, Frontier, Distances, Collected, Grown, Deep, Across;
    DeepStays(g, o, start, depth, before, queue);
  }

  lemma PushedFrom(before: seq<Item>, queue: seq<Item>, more: seq<Item>)
    requires before != [] && |before| - 1 <= |queue| && more == queue[|before| - 1..]
    requires forall k :: |before| - 1 <= k < |queue| ==> QueuedFrom(before[0], queue[k])
    ensures forall k :: 0 <= k < |more| ==> more[k].edge.Some? && Parent(more[k]) == before[0].id
  {
    hide Across;
    forall k | 0 <= k < |more| ensures QueuedFrom(before[0], more[k]) {
      assert more[k] == queue[|before| - 1 + k];
    }
  }

  lemma DeepSkips(depth: map<Id, nat>, queue: seq<Item>)
    requires queue != [] && Deep(depth, queue)
    ensures Deep(depth, queue[1..])
  {
  }

  lemma StartIsLogged(start: Id)
    ensures var queue := [Item(start, None, 0)];
            Deep(map[], queue) && Logged(queue, [], [], [], queue) && RankedLog(queue) && ParentsIn(queue, {})
  {
    var queue := [Item(start, None, 0)];
    assert queue[0..] == queue;
  }

  /** The item was queued from this one, one hop further. */
  ghost predicate QueuedFrom(from: Item, item: Item) {
    item.edge.Some? && Parent(item) == from.id && item.depth == from.depth + 1
  }

  /** What holds before each round of the traversal. */
  ghost predicate Sweeping(g: Graph, o: Traversal, start: Id, depth: map<Id, nat>, queue: seq<Item>,
      nodes: map<Id, Node>, order: seq<Id>, edges: seq<Edge>) {
    && (forall id :: id in order <==> id in depth)
    && QueueOrdered(g, o, start, depth, queue) && Frontier(g, o, start, depth, queue) && Distances(g, o, start, depth)
    && Collected(g, o, start, depth, queue, nodes) && Grown(g, o, start, order, edges)
  }

  lemma NothingVisited(g: Graph, o: Traversal, start: Id, nodes: map<Id, Node>)
    requires start in g.nodes && nodes == if o.includeStart then map[start := g.nodes[start]] else map[]
    ensures Sweeping(g, o, start, map[], [Item(start, None, 0)], nodes, [], [])
  {
    var queue := [Item(start, None, 0)];
    assert queue[0].id == start;
    assert Queued(queue, start, 0);
    assert forall id :: Listed(queue, id) <==> id == start;
    hide Reaches, IsDistance, Listed;
  }

  lemma TooFar(o: Traversal, hops: nat)
    requires o.maxDepth.Some? && hops >= o.maxDepth.value
    ensures !Within(o, hops + 1)
  {
  }

  lemma NotTooFar(o: Traversal, hops: nat)
    requires !(o.maxDepth.Some? && hops >= o.maxDepth.value)
    ensures Within(o, hops + 1)
  {
  }

  lemma SweepSkips(g: Graph, o: Traversal, start: Id, depth: map<Id, nat>, queue: seq<Item>, nodes: map<Id, Node>,
      order: seq<Id>, edges: seq<Edge>)
    requires queue != [] && Sweeping(g, o, start, depth, queue, nodes, order, edges) && queue[0].id in depth
    ensures Sweeping(g, o, start, depth, queue[1..], nodes, order, edges)
  {
    hide QueueOrdered, Frontier, Distances, Collected, Grown;
    FirstAndRest(g, o, start, depth, queue);
    CollectedMoves(g, o, start, depth, queue, nodes, queue[0].depth);
    FrontierSkips(g, o, start, depth, queue);
  }

  /** The depths once the first of the queue is visited. */
  ghost function Deepened(depth: map<Id, nat>, queue: seq<Item>): map<Id, nat>
    requires queue != []
  {
    depth[queue[0].id := queue[0].depth]
  }

  /** What holds once the first of the queue `before` is visited and while its neighbours are queued. */
  ghost predicate Expanding(g: Graph, o: Traversal, start: Id, depth: map<Id, nat>, before: seq<Item>, queue: seq<Item>,
      nodes: map<Id, Node>, order: seq<Id>, edges: seq<Edge>) {
    && before != [] && before[0].id !in depth && before[1..] <= queue && Frontier(g, o, start, depth, before)
    && QueueOrdered(g, o, start, Deepened(depth, before), queue) && Distances(g, o, start, Deepened(depth, before))
    && Collected(g, o, start, Deepened(depth, before), queue, nodes) && ShortestTree(g, o, start, order, edges)
    && start in Deepened(depth, before) && (forall id :: id in order <==> id in Deepened(depth, before))
  }

  /** The neighbours of the first of the queue `before` are visited or queued. */
  ghost predicate NeighborsQueued(g: Graph, o: Traversal, depth: map<Id, nat>, before: seq<Item>, queue: seq<Item>)
    requires before != []
  {
    forall e, b :: b !in Deepened(depth, before) && Reaches(g, o, e, before[0].id, b) ==>
        Queued(queue, b, before[0].depth + 1)
  }

  lemma FirstIsVisited(g: Graph, o: Traversal, start: Id, depth: map<Id, nat>, queue: seq<Item>, nodes: map<Id, Node>,
      order: seq<Id>, edges: seq<Edge>)
    requires queue != [] && Sweeping(g, o, start, depth, queue, nodes, order, edges) && queue[0].id !in depth
    ensures queue[0].id in g.nodes && Near(queue[1..], queue[0].depth)
    ensures Expanding(g, o, start, depth, queue, queue[1..], nodes, order + [queue[0].id],
        Appended(edges, queue[0].edge))
  {
    hide Reaches, QueueOrdered, Frontier, Distances, Collected, Grown, ShortestTree, Sourced, IsDistance, Near;
    FirstAndRest(g, o, start, depth, queue);
    CollectedMoves(g, o, start, depth, queue, nodes, queue[0].depth);
    FirstIsNearest(g, o, start, depth, queue);
    StartHasNoEdge(g, o, start, depth, queue);
    TreeGrows(g, o, start, depth, order, edges, queue[0]);
  }

  /** The next round begins once the neighbours of the visited node are queued. */
  lemma SweepGoesOn(g: Graph, o: Traversal, start: Id, depth: map<Id, nat>, before: seq<Item>, queue: seq<Item>,
      nodes: map<Id, Node>, order: seq<Id>, edges: seq<Edge>)
    requires Expanding(g, o, start, depth, before, queue, nodes, order, edges)
    requires before != [] && (Within(o, before[0].depth + 1) ==> NeighborsQueued(g, o, depth, before, queue))
    ensures Sweeping(g, o, start, depth[before[0].id := before[0].depth], queue, nodes, order, edges)
  {
    hide QueueOrdered, Frontier, Distances, Collected, ShortestTree, Reaches, Queued;
    FrontierMoves(g, o, start, depth, before, queue);
  }

  lemma SweepIsSound(g: Graph, o: Traversal, start: Id, depth: map<Id, nat>, queue: seq<Item>, nodes: map<Id, Node>,
      order: seq<Id>, edges: seq<Edge>)
    requires Sweeping(g, o, start, depth, queue, nodes, order, edges)
    ensures forall id :: id in nodes ==> id in g.nodes && nodes[id] == g.nodes[id] && InBall(g, o, start, id)
    ensures queue == [] ==> forall id :: id in nodes <==> InBall(g, o, start, id) && (id != start || o.includeStart)
    ensures queue == [] ==> forall id :: id in order <==> InBall(g, o, start, id)
    ensures if order == [] then edges == [] else ShortestTree(g, o, start, order, edges)
  {
    hide QueueOrdered, Frontier, Distances, HasParent, InBall, Listed;
    CollectedInBall(g, o, start, depth, queue, nodes);
    if queue == [] {
      BallExhausted(g, o, start, depth);
      NothingListed(g, o, start, depth, nodes);
    }
  }

  lemma NothingListed(g: Graph, o: Traversal, start: Id, depth: map<Id, nat>, nodes: map<Id, Node>)
    requires Collected(g, o, start, depth, [], nodes)
    ensures forall id :: id in nodes <==> id in depth && (id != start || o.includeStart)
  {
  }

  /** Until the start is visited, the first of the queue is the start itself and comes by no edge. */
  lemma StartHasNoEdge(g: Graph, o: Traversal, start: Id, depth: map<Id, nat>, queue: seq<Item>)
    requires queue != [] && QueueOrdered(g, o, start, depth, queue) && Frontier(g, o, start, depth, queue)
    ensures start !in depth ==> queue[0].id == start && queue[0].edge.None?
  {
    StartIsFirst(g, o, start, depth, queue);
    assert Sourced(g, o, start, depth, queue[0]);
    if start !in depth {
      var i :| 0 <= i < |queue| && queue[i].id == start && queue[i].depth <= 0;
      assert queue[0].depth <= queue[i].depth;
    }
  }

  /** Collects and queues the allowed neighbours, not yet visited, of the first of the queue. */
  method QueueNeighbors(g: Graph, o: Traversal, start: Id, visited: set<Id>, ghost depth: map<Id, nat>,
      before: seq<Item>, collected: map<Id, Node>, ghost order: seq<Id>, ghost edges: seq<Edge>)
    returns (queue: seq<Item>, nodes: map<Id, Node>)
    requires before != [] && Expanding(g, o, start, depth, before, before[1..], collected, order, edges)
    requires visited == depth.Keys + {before[0].id} && Near(before[1..], before[0].depth) &&
        Within(o, before[0].depth + 1)
    ensures Expanding(g, o, start, depth, before, queue, nodes, order, edges) &&
        NeighborsQueued(g, o, depth, before, queue)
    ensures before[1..] <= queue && forall k :: |before| - 1 <= k < |queue| ==> QueuedFrom(before[0], queue[k])
    ensures RankedLog(queue[|before| - 1..])
  {
    hide Near, Queued, Within, Expanding, ByPriority, Adjacent, Reaches, Rank, Across, RankedLog, QueuedFrom;
    ghost var more: seq<Item> := [];
    NothingPushed();
    var item := before[0];
    assert visited == Deepened(depth, before).Keys;
    var adjacent := ByPriority(Adjacent(g, o, item.id));
    PriorityIsSorted(Adjacent(g, o, item.id));
    queue, nodes := before[1..], collected;
    assert before[1..] + more == before[1..];
    for k := 0 to |adjacent|
      invariant queue == before[1..] + more && RankedLog(more)
      invariant forall m :: 0 <= m < |more| ==> QueuedFrom(item, more[m])
      invariant forall m, n :: 0 <= m < |more| && k <= n < |adjacent| && more[m].edge.Some? ==>
          Rank(more[m].edge.value) <= Rank(adjacent[n])
      invariant Expanding(g, o, start, depth, before, queue, nodes, order, edges) && Near(queue, item.depth)
      invariant forall j, b :: 0 <= j < k && b !in visited && Reaches(g, o, adjacent[j], item.id, b) ==>
          Queued(queue, b, item.depth + 1)
    {
      var e := adjacent[k];
      ReachesAcross(g, o, e, item.id);
      assert e in adjacent;
      var next := Across(e, item.id);
      if next !in visited && next in g.nodes && KindAllowed(g.nodes[next].kind, o.nodeKinds) {
        var one := Item(next, Some(e), item.depth + 1);
        assert Reaches(g, o, e, item.id, next);
        ExpandsBy(g, o, start, depth, before, queue, nodes, order, edges, one);
        nodes := nodes[next := g.nodes[next]];
        AcrossAgain(g, o, e, item.id);
        MoreRanked(item, more, one);
        assert before[1..] + (more + [one]) == before[1..] + more + [one];
        queue, more := queue + [one], more + [one];
      }
    }
    assert queue[|before| - 1..] == more;
    forall k | |before| - 1 <= k < |queue| ensures QueuedFrom(item, queue[k]) {
      assert queue[k] == more[k - (|before| - 1)];
    }
    forall e, b | b !in visited && Reaches(g, o, e, item.id, b) ensures Queued(queue, b, item.depth + 1) {
      ReachesAcross(g, o, e, item.id);
      var j :| 0 <= j < |adjacent| && adjacent[j] == e;
      assert Reaches(g, o, adjacent[j], item.id, b);
    }
  }

  lemma MoreRanked(from: Item, more: seq<Item>, one: Item)
    requires RankedLog(more) && (forall m :: 0 <= m < |more| ==> QueuedFrom(from, more[m]))
    requires one.edge.Some? && one.depth == from.depth + 1 && Parent(one) == from.id
    requires forall m :: 0 <= m < |more| && more[m].edge.Some? ==>
        Rank(more[m].edge.value) <= Rank(one.edge.value)
    ensures RankedLog(more + [one]) && forall m :: 0 <= m < |more + [one]| ==> QueuedFrom(from, (more + [one])[m])
  {
    hide Rank, Across;
  }

  lemma ReachesAcross(g: Graph, o: Traversal, e: Edge, a: Id)
    ensures forall b :: Reaches(g, o, e, a, b) <==>
        e in Adjacent(g, o, a) && b == Across(e, a) && b in g.nodes && KindAllowed(g.nodes[b].kind, o.nodeKinds)
  {
  }

  lemma ExpandsBy(g: Graph, o: Traversal, start: Id, depth: map<Id, nat>, before: seq<Item>, queue: seq<Item>,
      nodes: map<Id, Node>, order: seq<Id>, edges: seq<Edge>, item: Item)
    requires Expanding(g, o, start, depth, before, queue, nodes, order, edges) && Near(queue, before[0].depth)
    requires item.edge.Some? && Reaches(g, o, item.edge.value, before[0].id, item.id) &&
        item.depth == before[0].depth + 1
    requires item.id !in Deepened(depth, before) && Within(o, item.depth)
    ensures Expanding(g, o, start, depth, before, queue + [item], nodes[item.id := g.nodes[item.id]], order, edges)
    ensures Near(queue + [item], before[0].depth) && Queued(queue + [item], item.id, item.depth)
    ensures forall id, most: nat :: Queued(queue, id, most) ==> Queued(queue + [item], id, most)
  {
    hide QueueOrdered, Frontier, Distances, ShortestTree, Listed, Within, Near, Queued, Sourced;
    BySource(g, o, start, Deepened(depth, before), item, before[0].id);
    Pushed(g, o, start, Deepened(depth, before), queue, item, before[0].depth);
  }

  lemma BySource(g: Graph, o: Traversal, start: Id, depth: map<Id, nat>, item: Item, a: Id)
    requires item.edge.Some? && a in depth && Reaches(g, o, item.edge.value, a, item.id) && item.depth == depth[a] + 1
    ensures Sourced(g, o, start, depth, item)
  {
    hide Reaches;
  }
}
