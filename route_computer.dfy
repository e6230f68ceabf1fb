/** The route search (ch.epfl.javelo.routing.RouteComputer): a best-first
    search in the style of A* over the graph, from a start node to an end
    node. Tentative distances and predecessors live in two arrays indexed by
    node; the frontier is a priority queue of (node, priority) pairs, the
    priority being the tentative distance plus the straight-line distance to
    the end. A node is settled (its distance set to UNREACHABLE) once its
    out-edges have been relaxed, and the route is rebuilt by walking the
    predecessors back from the end. Line numbers in the comments below are
    those of src/ch/epfl/javelo/routing/RouteComputer.java. */
module RouteComputer {
  import opened Wrappers
  import opened Math2
  import opened PointCh
  import opened GraphNodes
  import opened GraphEdges
  import opened Graph
  import E = Edge
  import S = SingleRoute
  import R = Routes

  /** costFactor(nodeId, edgeId) of a CostFunction: the factor by which the
      edge's length is multiplied, at least 1 as the interface documents; None
      stands for an infinite factor, an edge the cost function forbids. */
  type CostFn = f: (int, int) -> Option<real> | forall nodeId, edgeId :: f(nodeId, edgeId).Some? ==> f(nodeId, edgeId).value >= 1.0
    witness (nodeId: int, edgeId: int) => Some(1.0)

  /** An out-edge of a well-formed graph: its record and its elevation
      profile can be read (edgeProfile accepts it) and its target is a node. */
  predicate OutEdgeOk(g: Graph, u: int, i: int)
    requires IsNode(g.nodes, u) && 0 <= i < NodeOutDegree(g, u)
  {
    var edgeId := NodeOutEdgeId(g, u, i);
    IsEdge(g.edges, edgeId) && ProfileReadable(g.edges, edgeId) && EdgeProfile(g, edgeId).Some?
      && IsNode(g.nodes, EdgeTargetNodeId(g, edgeId))
  }

  /** A node with a valid point whose out-edges are all well formed. */
  predicate NodeRoutable(g: Graph, u: int)
    requires IsNode(g.nodes, u)
  {
    NodeOk(g, u) && forall i | 0 <= i < NodeOutDegree(g, u) :: OutEdgeOk(g, u, i)
  }

  /** A graph the search can run on: every node is routable. */
  predicate Routable(g: Graph)
  {
    forall u | 0 <= u < NodeCount(g) :: NodeRoutable(g, u)
  }

  lemma NodeOkIn(g: Graph, u: int)
    requires Routable(g) && IsNode(g.nodes, u)
    ensures NodeOk(g, u)
  {
    assert NodeRoutable(g, u);
  }

  lemma OutEdgeOkIn(g: Graph, u: int, i: int)
    requires Routable(g) && IsNode(g.nodes, u) && 0 <= i < NodeOutDegree(g, u)
    ensures NodeOk(g, u) && OutEdgeOk(g, u, i)
  {
    assert NodeRoutable(g, u);
  }

  /** The target node of the i-th out-edge of u. */
  function Target(g: Graph, u: int, i: int): (v: int)
    requires Routable(g) && IsNode(g.nodes, u) && 0 <= i < NodeOutDegree(g, u)
    ensures IsNode(g.nodes, v)
  {
    OutEdgeOkIn(g, u, i);
    EdgeTargetNodeId(g, NodeOutEdgeId(g, u, i))
  }

  /** An out-edge the search may take: the cost factor the code asks for,
      with the edge's target node as first argument, is finite. */
  predicate Usable(g: Graph, cost: CostFn, u: int, i: int)
    requires Routable(g) && IsNode(g.nodes, u) && 0 <= i < NodeOutDegree(g, u)
  {
    cost(Target(g, u, i), NodeOutEdgeId(g, u, i)).Some?
  }

  // ---------------------------------------------------------------------
  // Reachability, the specification of the search

  /** An out-edge as the search sees it: its target node and whether its
      cost factor is finite. */
  datatype Arc = Arc(target: int, usable: bool)

  /** The out-edges of every node, in the graph's order. */
  function Arcs(g: Graph, cost: CostFn): (adj: seq<seq<Arc>>)
    requires Routable(g)
    ensures |adj| == NodeCount(g)
  {
    seq(NodeCount(g), u requires 0 <= u < NodeCount(g) =>
      seq(NodeOutDegree(g, u), i requires 0 <= i < NodeOutDegree(g, u) => Arc(Target(g, u, i), Usable(g, cost, u, i))))
  }

  lemma ArcsOfNode(g: Graph, cost: CostFn, u: int)
    requires Routable(g) && IsNode(g.nodes, u)
    ensures |Arcs(g, cost)[u]| == NodeOutDegree(g, u)
  {
  }

  lemma ArcAt(g: Graph, cost: CostFn, u: int, i: int)
    requires Routable(g) && IsNode(g.nodes, u) && 0 <= i < NodeOutDegree(g, u)
    ensures |Arcs(g, cost)[u]| == NodeOutDegree(g, u)
    ensures Arcs(g, cost)[u][i] == Arc(Target(g, u, i), Usable(g, cost, u, i))
  {
  }

  /** Every arc leads to a node. */
  predicate ArcsOk(adj: seq<seq<Arc>>)
  {
    forall u, j | 0 <= u < |adj| && 0 <= j < |adj[u]| :: 0 <= adj[u][j].target < |adj|
  }

  lemma ArcsOkOf(g: Graph, cost: CostFn)
    requires Routable(g)
    ensures ArcsOk(Arcs(g, cost))
  {
    var adj: seq<seq<Arc>> := Arcs(g, cost);
    forall u: int, j: int | 0 <= u < |adj| && 0 <= j < |adj[u]|
      ensures 0 <= adj[u][j].target < |adj|
    {
      ArcsOfNode(g, cost, u);
      ArcAt(g, cost, u, j);
    }
  }

  /** v is the target of a usable out-edge of u. */
  ghost predicate Step(adj: seq<seq<Arc>>, u: int, v: int)
  {
    0 <= u < |adj| && exists j | 0 <= j < |adj[u]| :: adj[u][j].target == v && adj[u][j].usable
  }

  /** Consecutive nodes are joined by usable edges. */
  ghost predicate Path(adj: seq<seq<Arc>>, nodes: seq<int>)
  {
    forall k | 0 <= k < |nodes| - 1 :: Step(adj, nodes[k], nodes[k + 1])
  }

  /** Some path leads from a to b. */
  ghost predicate Connected(adj: seq<seq<Arc>>, a: int, b: int)
  {
    exists nodes: seq<int> :: |nodes| > 0 && nodes[0] == a && nodes[|nodes| - 1] == b && Path(adj, nodes)
  }

  /** Some path of edges with a finite cost leads from a to b in the graph. */
  ghost predicate Reachable(g: Graph, cost: CostFn, a: int, b: int)
    requires Routable(g)
  {
    Connected(Arcs(g, cost), a, b)
  }

  // ---------------------------------------------------------------------
  // The state of the search

  /** An entry of the distance array: +infinity before the node is reached,
      the best distance found so far, and UNREACHABLE (-infinity), which marks
      a settled node. */
  datatype Distance = Infinity | Finite(value: real) | Unreachable

  /** The frontier's entries (the local record WeightedNode), ordered by
      their priority. */
  datatype WeightedNode = WeightedNode(nodeId: int, distance: real)

  /** The distance and predecessor arrays and the frontier. */
  datatype Search = Search(distance: seq<Distance>, predecessor: seq<int>, exploring: seq<WeightedNode>)

  /** `x < distance[v]` for a float x and an entry that is not UNREACHABLE. */
  predicate Below(x: real, d: Distance)
  {
    d.Infinity? || (d.Finite? && x < d.value)
  }

  /** The straight-line distance from a node to the end node. */
  function ToEnd(g: Graph, sqrt: SqrtFn, v: int, endNodeId: int): real
    requires Routable(g) && IsNode(g.nodes, v) && IsNode(g.nodes, endNodeId)
  {
    NodeOkIn(g, v);
    NodeOkIn(g, endNodeId);
    DistanceTo(sqrt, NodePoint(g, v), NodePoint(g, endNodeId))
  }

  /** `distance[currentNode] + cost * edgeLength`: never below the distance
      it starts from, since the factor is at least 1 and the length is not
      negative. */
  function Candidate(d: real, factor: real, length: real): (c: real)
    requires factor >= 1.0 && length >= 0.0
    ensures c >= d
  {
    d + factor * length
  }

  /** What one turn of the relaxation loop reads from the graph about an
      out-edge: its id, its target node, its cost factor (None when
      infinite), its length and the straight-line distance from its target
      to the end node. */
  datatype OutEdge = OutEdge(edgeId: int, target: int, factor: Option<real>, length: real, toEnd: real)

  /** An out-edge that leads to one of n nodes, with a length that is not
      negative and a cost factor of at least 1. */
  predicate Fits(o: OutEdge, n: int)
  {
    0 <= o.target < n && o.length >= 0.0 && (o.factor.Some? ==> o.factor.value >= 1.0)
  }

  predicate AllFit(outs: seq<OutEdge>, n: int)
  {
    forall k | 0 <= k < |outs| :: Fits(outs[k], n)
  }

  /** Lines 83-97: what the loop reads about the i-th out-edge of cur. */
  function OutEdgeAt(g: Graph, cost: CostFn, sqrt: SqrtFn, endNodeId: int, cur: int, i: int): (o: OutEdge)
    requires Routable(g) && IsNode(g.nodes, cur) && IsNode(g.nodes, endNodeId) && 0 <= i < NodeOutDegree(g, cur)
    ensures Fits(o, NodeCount(g))
  {
    var edgeId := NodeOutEdgeId(g, cur, i);
    var out := Target(g, cur, i);
    OutEdgeOkIn(g, cur, i);
    OutEdge(edgeId, out, cost(out, edgeId), EdgeLength(g, edgeId), ToEnd(g, sqrt, out, endNodeId))
  }

  /** The out-edges of cur, in the graph's order. */
  function OutEdges(g: Graph, cost: CostFn, sqrt: SqrtFn, endNodeId: int, cur: int): (outs: seq<OutEdge>)
    requires Routable(g) && IsNode(g.nodes, cur) && IsNode(g.nodes, endNodeId)
    ensures |outs| == NodeOutDegree(g, cur) && AllFit(outs, NodeCount(g))
  {
    seq(NodeOutDegree(g, cur), i requires 0 <= i < NodeOutDegree(g, cur) => OutEdgeAt(g, cost, sqrt, endNodeId, cur, i))
  }

  /** One turn of the relaxation loop (lines 87-102) on an out-edge of cur:
      an edge into a settled node, or one whose cost factor is infinite,
      changes nothing; otherwise the candidate distance through cur replaces
      the target's distance, with cur as its predecessor and a new frontier
      entry, when it is strictly smaller. The expanded node itself never
      changes: a cost is never negative. */
  function Relax(s: Search, cur: int, o: OutEdge): (t: Search)
    requires |s.predecessor| == |s.distance| && 0 <= cur < |s.distance| && s.distance[cur].Finite?
    requires Fits(o, |s.distance|)
    ensures |t.distance| == |s.distance| && |t.predecessor| == |s.predecessor|
    ensures t.distance[cur] == s.distance[cur] && t.predecessor[cur] == s.predecessor[cur]
  {
    if s.distance[o.target].Unreachable? then s
    else
      match o.factor
      case None => s
      case Some(factor) =>
        var dist := Candidate(s.distance[cur].value, factor, o.length);
        if Below(dist, s.distance[o.target]) then
          Search(s.distance[o.target := Finite(dist)], s.predecessor[o.target := cur],
                 s.exploring + [WeightedNode(o.target, dist + o.toEnd)])
        else s
  }

  /** The relaxation loop over the first i out-edges of cur. */
  function RelaxAll(s: Search, cur: int, outs: seq<OutEdge>, i: int): (t: Search)
    requires |s.predecessor| == |s.distance| && 0 <= cur < |s.distance| && s.distance[cur].Finite?
    requires AllFit(outs, |s.distance|) && 0 <= i <= |outs|
    ensures |t.distance| == |s.distance| && |t.predecessor| == |s.predecessor|
    ensures t.distance[cur] == s.distance[cur] && t.predecessor[cur] == s.predecessor[cur]
    decreases i
  {
    if i == 0 then s else Relax(RelaxAll(s, cur, outs, i - 1), cur, outs[i - 1])
  }

  /** The loop over the out-edges of the node just popped (lines 79-103). */
  method Expand(g: Graph, cost: CostFn, sqrt: SqrtFn, endNodeId: int, distance: array<Distance>,
                predecessor: array<int>, currentNode: int, exploring: seq<WeightedNode>)
      returns (exploring': seq<WeightedNode>)
    requires Routable(g) && IsNode(g.nodes, currentNode) && IsNode(g.nodes, endNodeId)
    requires distance.Length == NodeCount(g) && predecessor.Length == NodeCount(g)
    requires distance[currentNode].Finite?
    modifies distance, predecessor
    ensures Search(distance[..], predecessor[..], exploring') ==
      RelaxAll(Search(old(distance[..]), old(predecessor[..]), exploring), currentNode,
               OutEdges(g, cost, sqrt, endNodeId, currentNode), NodeOutDegree(g, currentNode))
  {
    ghost var s0 := Search(distance[..], predecessor[..], exploring);
    ghost var outs := OutEdges(g, cost, sqrt, endNodeId, currentNode);
    var outEdges := NodeOutDegree(g, currentNode);
    exploring' := exploring;
    for i := 0 to outEdges
      invariant Search(distance[..], predecessor[..], exploring') == RelaxAll(s0, currentNode, outs, i)
    {
      exploring' := RelaxOutEdge(g, cost, sqrt, endNodeId, distance, predecessor, currentNode, exploring', i);
      assert outs[i] == OutEdgeAt(g, cost, sqrt, endNodeId, currentNode, i);
    }
  }

  /** One turn of that loop, on the i-th out-edge of the current node. */
  method RelaxOutEdge(g: Graph, cost: CostFn, sqrt: SqrtFn, endNodeId: int, distance: array<Distance>,
                      predecessor: array<int>, currentNode: int, exploring: seq<WeightedNode>, i: int)
      returns (exploring': seq<WeightedNode>)
    requires Routable(g) && IsNode(g.nodes, currentNode) && IsNode(g.nodes, endNodeId)
    requires distance.Length == NodeCount(g) && predecessor.Length == NodeCount(g)
    requires distance[currentNode].Finite? && 0 <= i < NodeOutDegree(g, currentNode)
    modifies distance, predecessor
    ensures Search(distance[..], predecessor[..], exploring') ==
      Relax(Search(old(distance[..]), old(predecessor[..]), exploring), currentNode,
            OutEdgeAt(g, cost, sqrt, endNodeId, currentNode, i))
  {
    ghost var s := Search(distance[..], predecessor[..], exploring);
    var currentEdge := NodeOutEdgeId(g, currentNode, i);
    var currentEdgeOut := Target(g, currentNode, i);
    exploring' := exploring;
    if distance[currentEdgeOut].Unreachable? {
      return;
    }
    var factor := cost(currentEdgeOut, currentEdge);
    ghost var o := OutEdgeAt(g, cost, sqrt, endNodeId, currentNode, i);
    assert o.target == currentEdgeOut && o.factor == factor;
    if factor.Some? {
      OutEdgeOkIn(g, currentNode, i);
      var dist := Candidate(distance[currentNode].value, factor.value, EdgeLength(g, currentEdge));
      var volOiseau := ToEnd(g, sqrt, currentEdgeOut, endNodeId);
      assert o.length == EdgeLength(g, currentEdge) && o.toEnd == volOiseau;
      if Below(dist, distance[currentEdgeOut]) {
        distance[currentEdgeOut] := Finite(dist);
        predecessor[currentEdgeOut] := currentNode;
        exploring' := exploring' + [WeightedNode(currentEdgeOut, dist + volOiseau)];
        assert distance[..] == s.distance[currentEdgeOut := Finite(dist)];
        assert predecessor[..] == s.predecessor[currentEdgeOut := currentNode];
      }
    }
  }

  /** PriorityQueue.remove: takes out an entry of least priority (which one
      among equal priorities is left open) and keeps the others. */
  method RemoveMin(exploring: seq<WeightedNode>) returns (w: WeightedNode, rest: seq<WeightedNode>, ghost k: int)
    requires |exploring| > 0
    ensures 0 <= k < |exploring| && w == exploring[k] && rest == exploring[..k] + exploring[k + 1..]
    ensures forall j | 0 <= j < |exploring| :: w.distance <= exploring[j].distance
  {
    var m := 0;
    for j := 1 to |exploring|
      invariant 0 <= m < |exploring|
      invariant forall l | 0 <= l < j :: exploring[m].distance <= exploring[l].distance
    {
      if exploring[j].distance < exploring[m].distance {
        m := j;
      }
    }
    w, rest, k := exploring[m], exploring[..m] + exploring[m + 1..], m;
  }

  // ---------------------------------------------------------------------
  // Rebuilding the route

  /** The index of the first out-edge of u, from index i on, whose target is
      v. */
  function FirstIndexFrom(g: Graph, u: int, v: int, i: int): (r: Option<int>)
    requires Routable(g) && IsNode(g.nodes, u) && 0 <= i <= NodeOutDegree(g, u)
    decreases NodeOutDegree(g, u) - i
  {
    if i == NodeOutDegree(g, u) then None
    else if Target(g, u, i) == v then Some(i)
    else FirstIndexFrom(g, u, v, i + 1)
  }

  function FirstIndexTo(g: Graph, u: int, v: int): Option<int>
    requires Routable(g) && IsNode(g.nodes, u)
  {
    FirstIndexFrom(g, u, v, 0)
  }

  /** The search from index i finds the first match at or after i. */
  lemma {:induction false} FirstIndexFromFinds(g: Graph, u: int, v: int, i: int)
    requires Routable(g) && IsNode(g.nodes, u) && 0 <= i <= NodeOutDegree(g, u)
    requires FirstIndexFrom(g, u, v, i).Some?
    ensures var k := FirstIndexFrom(g, u, v, i).value;
      i <= k < NodeOutDegree(g, u) && Target(g, u, k) == v && forall j | i <= j < k :: Target(g, u, j) != v
    decreases NodeOutDegree(g, u) - i
  {
    if Target(g, u, i) != v {
      FirstIndexFromFinds(g, u, v, i + 1);
    }
  }

  /** It finds nothing exactly when no edge from index i on leads to v. */
  lemma {:induction false} FirstIndexFromNone(g: Graph, u: int, v: int, i: int)
    requires Routable(g) && IsNode(g.nodes, u) && 0 <= i <= NodeOutDegree(g, u)
    ensures FirstIndexFrom(g, u, v, i).None? <==> forall j | i <= j < NodeOutDegree(g, u) :: Target(g, u, j) != v
    decreases NodeOutDegree(g, u) - i
  {
    if i < NodeOutDegree(g, u) && Target(g, u, i) != v {
      FirstIndexFromNone(g, u, v, i + 1);
    }
  }

  /** The first out-edge of u leading to v, if there is one. */
  lemma FirstIndexToSpec(g: Graph, u: int, v: int)
    requires Routable(g) && IsNode(g.nodes, u)
    ensures var r := FirstIndexTo(g, u, v);
      (r.Some? ==>
         0 <= r.value < NodeOutDegree(g, u) && Target(g, u, r.value) == v &&
         forall j | 0 <= j < r.value :: Target(g, u, j) != v)
      && (r.None? <==> forall j | 0 <= j < NodeOutDegree(g, u) :: Target(g, u, j) != v)
  {
    if FirstIndexTo(g, u, v).Some? {
      FirstIndexFromFinds(g, u, v, 0);
    }
    FirstIndexFromNone(g, u, v, 0);
  }

  /** The inner loop of the reconstruction (lines 63-71): the index of the
      first out-edge of the predecessor whose target is the current node. */
  method OutEdgeIndexTo(g: Graph, predecesseur: int, currentNode: int) returns (index: Option<int>)
    requires Routable(g) && IsNode(g.nodes, predecesseur)
    ensures index == FirstIndexTo(g, predecesseur, currentNode)
  {
    var outEdges := NodeOutDegree(g, predecesseur);
    index := None;
    var i := 0;
    while i < outEdges
      invariant 0 <= i <= outEdges
      invariant FirstIndexFrom(g, predecesseur, currentNode, i) == FirstIndexTo(g, predecesseur, currentNode)
      decreases outEdges - i
    {
      if Target(g, predecesseur, i) == currentNode {
        index := Some(i);
        return;
      }
      i := i + 1;
    }
  }

  // ---------------------------------------------------------------------
  // What the search keeps true

  /** The node ids held by the frontier. */
  function Ids(f: seq<WeightedNode>): multiset<int>
  {
    if |f| == 0 then multiset{} else Ids(f[..|f| - 1]) + multiset{f[|f| - 1].nodeId}
  }

  lemma {:induction false} IdsAppend(a: seq<WeightedNode>, b: seq<WeightedNode>)
    ensures Ids(a + b) == Ids(a) + Ids(b)
    decreases |b|
  {
    if |b| == 0 {
      assert a + b == a;
    } else {
      assert (a + b)[..|a + b| - 1] == a + b[..|b| - 1];
      IdsAppend(a, b[..|b| - 1]);
    }
  }

  lemma IdsSingle(w: WeightedNode)
    ensures Ids([w]) == multiset{w.nodeId}
  {
    assert [w][..0] == [];
  }

  /** Taking entry k out of the frontier takes one copy of its node id out. */
  lemma IdsRemove(f: seq<WeightedNode>, k: int)
    requires 0 <= k < |f|
    ensures Ids(f) == Ids(f[..k] + f[k + 1..]) + multiset{f[k].nodeId}
  {
    var a, b := f[..k], f[k + 1..];
    assert f == (a + [f[k]]) + b;
    IdsAppend(a + [f[k]], b);
    IdsAppend(a, [f[k]]);
    IdsSingle(f[k]);
    IdsAppend(a, b);
  }

  /** One distance and one predecessor per node. */
  predicate Sized(adj: seq<seq<Arc>>, s: Search)
  {
    |s.distance| == |adj| && |s.predecessor| == |adj|
  }

  /** Every frontier entry names a node that has been reached. */
  predicate FrontierReached(adj: seq<seq<Arc>>, s: Search)
    requires Sized(adj, s)
  {
    forall j | 0 <= j < |s.exploring| ::
      0 <= s.exploring[j].nodeId < |adj| && !s.distance[s.exploring[j].nodeId].Infinity?
  }

  /** Every node with a finite distance, except the one being expanded, still
      has an entry in the frontier. */
  ghost predicate Pending(adj: seq<seq<Arc>>, s: Search, cur: int)
    requires Sized(adj, s)
  {
    forall v | 0 <= v < |adj| && v != cur && s.distance[v].Finite? :: v in Ids(s.exploring)
  }

  /** The settled nodes, those marked UNREACHABLE, each carry the rank below
      stamp at which they were settled; unsettled holds the other nodes. */
  ghost predicate Ranked(adj: seq<seq<Arc>>, s: Search, rank: map<int, int>, stamp: int, unsettled: set<int>)
    requires Sized(adj, s)
  {
    0 <= stamp
    && (forall v | v in rank :: 0 <= v < |adj| && 0 <= rank[v] < stamp)
    && (forall v | 0 <= v < |adj| :: v in rank <==> s.distance[v].Unreachable?)
    && (forall v :: v in unsettled <==> 0 <= v < |adj| && v !in rank)
  }

  /** The predecessor of v is settled (or is the node being expanded), was
      settled before v when v is settled, and reaches v by a usable edge. */
  ghost predicate PredOk(adj: seq<seq<Arc>>, pred: seq<int>, rank: map<int, int>, cur: int, v: int)
    requires |pred| == |adj| && 0 <= v < |adj|
  {
    var p := pred[v];
    0 <= p < |adj| && (p in rank || p == cur)
    && (v in rank ==> p in rank && rank[p] < rank[v])
    && Step(adj, p, v)
  }

  /** Every reached node other than the start has a good predecessor. */
  ghost predicate PredsOk(adj: seq<seq<Arc>>, startNodeId: int, s: Search, rank: map<int, int>, cur: int)
    requires Sized(adj, s)
  {
    forall v {:trigger PredOk(adj, s.predecessor, rank, cur, v)}
      | 0 <= v < |adj| && v != startNodeId && !s.distance[v].Infinity? ::
      PredOk(adj, s.predecessor, rank, cur, v)
  }

  /** The usable edges among the first i out-edges of u lead to reached
      nodes. */
  predicate ClosedAt(adj: seq<seq<Arc>>, d: seq<Distance>, u: int, i: int)
    requires ArcsOk(adj) && |d| == |adj| && 0 <= u < |adj| && 0 <= i <= |adj[u]|
  {
    forall j | 0 <= j < i :: adj[u][j].usable ==> !d[adj[u][j].target].Infinity?
  }

  /** All the usable out-edges of u lead to reached nodes. */
  predicate Closed(adj: seq<seq<Arc>>, d: seq<Distance>, u: int)
    requires ArcsOk(adj) && |d| == |adj| && 0 <= u < |adj|
  {
    ClosedAt(adj, d, u, |adj[u]|)
  }

  /** Every usable edge out of a settled node leads to a reached node. */
  ghost predicate SettledClosed(adj: seq<seq<Arc>>, d: seq<Distance>, rank: map<int, int>)
    requires ArcsOk(adj) && |d| == |adj|
  {
    forall u {:trigger Closed(adj, d, u)} | u in rank && 0 <= u < |adj| :: Closed(adj, d, u)
  }

  /** The invariant of the main loop, where cur is -1; while cur is
      expanded, the same with cur allowed as a predecessor and forgiven its
      missing frontier entry. */
  ghost predicate Invariant(adj: seq<seq<Arc>>, startNodeId: int, endNodeId: int, s: Search,
                            rank: map<int, int>, stamp: int, unsettled: set<int>, cur: int)
    requires ArcsOk(adj)
  {
    Sized(adj, s) && 0 <= startNodeId < |adj| && 0 <= endNodeId < |adj|
    && FrontierReached(adj, s) && Pending(adj, s, cur) && Ranked(adj, s, rank, stamp, unsettled)
    && !s.distance[startNodeId].Infinity? && endNodeId !in rank
    && PredsOk(adj, startNodeId, s, rank, cur) && SettledClosed(adj, s.distance, rank)
  }

  /** The state while cur, popped with a finite distance, has had its first i
      out-edges relaxed. */
  ghost predicate Expanding(adj: seq<seq<Arc>>, startNodeId: int, endNodeId: int, s: Search,
                            rank: map<int, int>, stamp: int, unsettled: set<int>, cur: int, i: int)
    requires ArcsOk(adj)
  {
    Invariant(adj, startNodeId, endNodeId, s, rank, stamp, unsettled, cur)
    && 0 <= cur < |adj| && cur != endNodeId && s.distance[cur].Finite?
    && (cur != startNodeId ==> s.predecessor[cur] in rank)
    && 0 <= i <= |adj[cur]| && ClosedAt(adj, s.distance, cur, i)
  }

  /** No reached node becomes unreached. */
  predicate Grows(d: seq<Distance>, d': seq<Distance>)
  {
    |d| == |d'| && forall v | 0 <= v < |d| :: !d[v].Infinity? ==> !d'[v].Infinity?
  }

  lemma ClosedGrows(adj: seq<seq<Arc>>, d: seq<Distance>, d': seq<Distance>, u: int, i: int)
    requires ArcsOk(adj) && |d| == |adj| && 0 <= u < |adj| && 0 <= i <= |adj[u]|
    requires ClosedAt(adj, d, u, i) && Grows(d, d')
    ensures ClosedAt(adj, d', u, i)
  {
    forall j | 0 <= j < i && adj[u][j].usable
      ensures !d'[adj[u][j].target].Infinity?
    {
      assert !d[adj[u][j].target].Infinity?;
    }
  }

  lemma SettledGrows(adj: seq<seq<Arc>>, d: seq<Distance>, d': seq<Distance>, rank: map<int, int>)
    requires ArcsOk(adj) && |d| == |adj|
    requires SettledClosed(adj, d, rank) && Grows(d, d')
    ensures SettledClosed(adj, d', rank)
  {
    forall u | u in rank && 0 <= u < |adj|
      ensures Closed(adj, d', u)
    {
      assert Closed(adj, d, u);
      ClosedGrows(adj, d, d', u, |adj[u]|);
    }
  }

  /** The node ids below n. */
  function NodesBelow(n: nat): (r: set<int>)
    ensures forall v :: v in r <==> 0 <= v < n
  {
    if n == 0 then {} else NodesBelow(n - 1) + {n - 1}
  }

  /** The search starts from the start node alone, at distance 0. */
  lemma InitialInvariant(adj: seq<seq<Arc>>, startNodeId: int, endNodeId: int, s: Search, unsettled: set<int>)
    requires ArcsOk(adj) && 0 <= startNodeId < |adj| && 0 <= endNodeId < |adj|
    requires s.distance == seq(|adj|, v => Infinity)[startNodeId := Finite(0.0)]
    requires |s.predecessor| == |adj| && s.exploring == [WeightedNode(startNodeId, 0.0)]
    requires unsettled == NodesBelow(|adj|)
    ensures Invariant(adj, startNodeId, endNodeId, s, map[], 0, unsettled, -1)
  {
    IdsSingle(WeightedNode(startNodeId, 0.0));
  }

  /** Closing one more edge. */
  lemma ClosedStep(adj: seq<seq<Arc>>, d: seq<Distance>, u: int, i: int)
    requires ArcsOk(adj) && |d| == |adj| && 0 <= u < |adj| && 0 <= i < |adj[u]|
    requires ClosedAt(adj, d, u, i)
    requires adj[u][i].usable ==> !d[adj[u][i].target].Infinity?
    ensures ClosedAt(adj, d, u, i + 1)
  {
  }

  /** Lowering the distance of out, with cur as its predecessor, keeps the
      predecessors good when cur reaches out by a usable edge. */
  lemma RelaxedPreds(adj: seq<seq<Arc>>, startNodeId: int, s: Search, rank: map<int, int>, cur: int, out: int,
                     dist: real, priority: real)
    requires Sized(adj, s) && 0 <= cur < |adj| && 0 <= out < |adj| && out !in rank && Step(adj, cur, out)
    requires PredsOk(adj, startNodeId, s, rank, cur)
    ensures PredsOk(adj, startNodeId,
                    Search(s.distance[out := Finite(dist)], s.predecessor[out := cur], s.exploring + [WeightedNode(out, priority)]),
                    rank, cur)
  {
    var t := Search(s.distance[out := Finite(dist)], s.predecessor[out := cur], s.exploring + [WeightedNode(out, priority)]);
    forall v | 0 <= v < |adj| && v != startNodeId && !t.distance[v].Infinity?
      ensures PredOk(adj, t.predecessor, rank, cur, v)
    {
      if v != out {
        assert PredOk(adj, s.predecessor, rank, cur, v);
      }
    }
  }

  /** The new frontier entry keeps out pending and every entry reached. */
  lemma RelaxedFrontier(adj: seq<seq<Arc>>, s: Search, cur: int, out: int, dist: real, priority: real)
    requires Sized(adj, s) && 0 <= out < |adj| && FrontierReached(adj, s) && Pending(adj, s, cur)
    ensures var t := Search(s.distance[out := Finite(dist)], s.predecessor[out := cur], s.exploring + [WeightedNode(out, priority)]);
      FrontierReached(adj, t) && Pending(adj, t, cur)
  {
    IdsAppend(s.exploring, [WeightedNode(out, priority)]);
    IdsSingle(WeightedNode(out, priority));
  }

  /** A turn that lowers the distance of the edge's target keeps the
      invariant: the target is reached, is pending in the frontier, and has
      the expanded node, joined to it by the edge, as its predecessor. */
  lemma RelaxedKeeps(adj: seq<seq<Arc>>, startNodeId: int, endNodeId: int, s: Search, rank: map<int, int>,
                     stamp: int, unsettled: set<int>, cur: int, i: int, dist: real, priority: real)
    requires ArcsOk(adj) && Expanding(adj, startNodeId, endNodeId, s, rank, stamp, unsettled, cur, i)
    requires i < |adj[cur]| && adj[cur][i].usable
    requires !s.distance[adj[cur][i].target].Unreachable? && Below(dist, s.distance[adj[cur][i].target])
    requires dist >= s.distance[cur].value
    ensures var out := adj[cur][i].target;
      Expanding(adj, startNodeId, endNodeId,
                Search(s.distance[out := Finite(dist)], s.predecessor[out := cur], s.exploring + [WeightedNode(out, priority)]),
                rank, stamp, unsettled, cur, i + 1)
  {
    var out := adj[cur][i].target;
    var t := Search(s.distance[out := Finite(dist)], s.predecessor[out := cur], s.exploring + [WeightedNode(out, priority)]);
    assert out != cur;
    assert Grows(s.distance, t.distance);
    SettledGrows(adj, s.distance, t.distance, rank);
    ClosedGrows(adj, s.distance, t.distance, cur, i);
    ClosedStep(adj, t.distance, cur, i);
    RelaxedFrontier(adj, s, cur, out, dist, priority);
    assert Step(adj, cur, out);
    RelaxedPreds(adj, startNodeId, s, rank, cur, out, dist, priority);
  }

  /** The out-edge records agree with the arcs: same targets, and a finite
      cost factor exactly on the usable arcs. */
  predicate Matches(arcs: seq<Arc>, outs: seq<OutEdge>)
  {
    |arcs| == |outs| &&
    forall k | 0 <= k < |outs| :: arcs[k].target == outs[k].target && arcs[k].usable == outs[k].factor.Some?
  }

  lemma OutEdgesMatch(g: Graph, cost: CostFn, sqrt: SqrtFn, endNodeId: int, cur: int)
    requires Routable(g) && IsNode(g.nodes, cur) && IsNode(g.nodes, endNodeId)
    ensures Matches(Arcs(g, cost)[cur], OutEdges(g, cost, sqrt, endNodeId, cur))
  {
    var arcs, outs := Arcs(g, cost)[cur], OutEdges(g, cost, sqrt, endNodeId, cur);
    ArcsOfNode(g, cost, cur);
    forall k | 0 <= k < |outs|
      ensures arcs[k].target == outs[k].target && arcs[k].usable == outs[k].factor.Some?
    {
      ArcAt(g, cost, cur, k);
    }
  }

  /** One turn of the relaxation loop keeps the invariant and closes the edge
      it looked at. */
  lemma RelaxKeeps(adj: seq<seq<Arc>>, startNodeId: int, endNodeId: int, s: Search, t: Search, rank: map<int, int>,
                   stamp: int, unsettled: set<int>, cur: int, outs: seq<OutEdge>, i: int)
    requires ArcsOk(adj) && 0 <= cur < |adj| && Matches(adj[cur], outs) && AllFit(outs, |adj|) && 0 <= i < |outs|
    requires Expanding(adj, startNodeId, endNodeId, s, rank, stamp, unsettled, cur, i)
    requires t == Relax(s, cur, outs[i])
    ensures Expanding(adj, startNodeId, endNodeId, t, rank, stamp, unsettled, cur, i + 1)
  {
    var o := outs[i];
    assert Fits(o, |adj|);
    if s.distance[o.target].Unreachable? || o.factor.None? {
      ClosedStep(adj, s.distance, cur, i);
    } else {
      var dist := Candidate(s.distance[cur].value, o.factor.value, o.length);
      if Below(dist, s.distance[o.target]) {
        RelaxedKeeps(adj, startNodeId, endNodeId, s, rank, stamp, unsettled, cur, i, dist, dist + o.toEnd);
      } else {
        ClosedStep(adj, s.distance, cur, i);
      }
    }
  }

  /** The whole relaxation loop keeps the invariant and closes every
      out-edge of the expanded node. */
  lemma {:induction false} RelaxAllKeeps(adj: seq<seq<Arc>>, startNodeId: int, endNodeId: int, s: Search,
                                         rank: map<int, int>, stamp: int, unsettled: set<int>, cur: int,
                                         outs: seq<OutEdge>, i: int)
    requires ArcsOk(adj) && 0 <= cur < |adj| && Matches(adj[cur], outs) && AllFit(outs, |adj|) && 0 <= i <= |outs|
    requires Expanding(adj, startNodeId, endNodeId, s, rank, stamp, unsettled, cur, 0)
    ensures Expanding(adj, startNodeId, endNodeId, RelaxAll(s, cur, outs, i), rank, stamp, unsettled, cur, i)
    decreases i
  {
    if i > 0 {
      RelaxAllKeeps(adj, startNodeId, endNodeId, s, rank, stamp, unsettled, cur, outs, i - 1);
      RelaxKeeps(adj, startNodeId, endNodeId, RelaxAll(s, cur, outs, i - 1), RelaxAll(s, cur, outs, i),
                 rank, stamp, unsettled, cur, outs, i - 1);
    }
  }

  /** Marking the expanded node UNREACHABLE settles it with the next rank. */
  lemma Settle(adj: seq<seq<Arc>>, startNodeId: int, endNodeId: int, s: Search, rank: map<int, int>,
               stamp: int, unsettled: set<int>, cur: int)
    requires ArcsOk(adj) && 0 <= cur < |adj|
    requires Expanding(adj, startNodeId, endNodeId, s, rank, stamp, unsettled, cur, |adj[cur]|)
    ensures Invariant(adj, startNodeId, endNodeId, Search(s.distance[cur := Unreachable], s.predecessor, s.exploring),
                      rank[cur := stamp], stamp + 1, unsettled - {cur}, -1)
  {
    var t := Search(s.distance[cur := Unreachable], s.predecessor, s.exploring);
    var rank' := rank[cur := stamp];
    assert Grows(s.distance, t.distance);
    SettledGrows(adj, s.distance, t.distance, rank);
    ClosedGrows(adj, s.distance, t.distance, cur, |adj[cur]|);
    assert Closed(adj, t.distance, cur);
    assert SettledClosed(adj, t.distance, rank');
    forall v | 0 <= v < |adj| && v != startNodeId && !t.distance[v].Infinity?
      ensures PredOk(adj, t.predecessor, rank', -1, v)
    {
      assert PredOk(adj, s.predecessor, rank, cur, v);
    }
  }

  /** An entry whose node is already settled is dropped, as line 55 does. */
  lemma Skip(adj: seq<seq<Arc>>, startNodeId: int, endNodeId: int, s: Search, rank: map<int, int>,
             stamp: int, unsettled: set<int>, k: int)
    requires ArcsOk(adj) && Invariant(adj, startNodeId, endNodeId, s, rank, stamp, unsettled, -1)
    requires 0 <= k < |s.exploring| && s.distance[s.exploring[k].nodeId].Unreachable?
    ensures Invariant(adj, startNodeId, endNodeId, Search(s.distance, s.predecessor, s.exploring[..k] + s.exploring[k + 1..]),
                      rank, stamp, unsettled, -1)
  {
    IdsRemove(s.exploring, k);
  }

  /** Once a node is popped it may serve as a predecessor. */
  lemma PredsWiden(adj: seq<seq<Arc>>, startNodeId: int, s: Search, t: Search, rank: map<int, int>, cur: int)
    requires Sized(adj, s) && t.distance == s.distance && t.predecessor == s.predecessor
    requires PredsOk(adj, startNodeId, s, rank, -1)
    ensures Sized(adj, t) && PredsOk(adj, startNodeId, t, rank, cur)
  {
    forall v | 0 <= v < |adj| && v != startNodeId && !t.distance[v].Infinity?
      ensures PredOk(adj, t.predecessor, rank, cur, v)
    {
      assert PredOk(adj, s.predecessor, rank, -1, v);
    }
  }

  /** A popped node that is not settled has a finite distance and is
      expanded next. */
  lemma BeginExpand(adj: seq<seq<Arc>>, startNodeId: int, endNodeId: int, s: Search, rank: map<int, int>,
                    stamp: int, unsettled: set<int>, k: int)
    requires ArcsOk(adj) && Invariant(adj, startNodeId, endNodeId, s, rank, stamp, unsettled, -1)
    requires 0 <= k < |s.exploring| && !s.distance[s.exploring[k].nodeId].Unreachable?
    requires s.exploring[k].nodeId != endNodeId
    ensures var cur := s.exploring[k].nodeId;
      0 <= cur < |adj| && s.distance[cur].Finite? &&
      Expanding(adj, startNodeId, endNodeId, Search(s.distance, s.predecessor, s.exploring[..k] + s.exploring[k + 1..]),
                rank, stamp, unsettled, cur, 0)
  {
    var cur := s.exploring[k].nodeId;
    IdsRemove(s.exploring, k);
    var t := Search(s.distance, s.predecessor, s.exploring[..k] + s.exploring[k + 1..]);
    PredsWiden(adj, startNodeId, s, t, rank, cur);
    if cur != startNodeId {
      assert PredOk(adj, s.predecessor, rank, -1, cur);
    }
  }

  /** A frontier entry names a node that has been reached. */
  lemma EntryReached(adj: seq<seq<Arc>>, startNodeId: int, endNodeId: int, s: Search, rank: map<int, int>,
                     stamp: int, unsettled: set<int>, k: int)
    requires ArcsOk(adj) && Invariant(adj, startNodeId, endNodeId, s, rank, stamp, unsettled, -1)
    requires 0 <= k < |s.exploring|
    ensures 0 <= s.exploring[k].nodeId < |adj| && !s.distance[s.exploring[k].nodeId].Infinity?
    ensures s.distance[s.exploring[k].nodeId].Unreachable? <==> s.exploring[k].nodeId !in unsettled
  {
  }

  // ---------------------------------------------------------------------
  // What the search finds

  /** The predecessor chain back from the end node: every settled node other
      than the start, and the end node itself, has a predecessor settled
      before it and joined to it by a usable edge. */
  ghost predicate Walkable(adj: seq<seq<Arc>>, pred: seq<int>, rank: map<int, int>, stamp: int,
                           startNodeId: int, endNodeId: int)
  {
    |pred| == |adj| && 0 <= startNodeId < |adj| && 0 <= endNodeId < |adj| && startNodeId != endNodeId
    && endNodeId !in rank && (forall v | v in rank :: 0 <= rank[v] < stamp)
    && forall v {:trigger PredOk(adj, pred, rank, -1, v)}
         | 0 <= v < |adj| && (v in rank || v == endNodeId) && v != startNodeId :: PredOk(adj, pred, rank, -1, v)
  }

  /** When the end node is popped, its predecessor chain can be walked. */
  lemma FoundWalkable(adj: seq<seq<Arc>>, startNodeId: int, endNodeId: int, s: Search, rank: map<int, int>,
                      stamp: int, unsettled: set<int>, k: int)
    requires ArcsOk(adj) && Invariant(adj, startNodeId, endNodeId, s, rank, stamp, unsettled, -1)
    requires 0 <= k < |s.exploring| && s.exploring[k].nodeId == endNodeId && startNodeId != endNodeId
    ensures Walkable(adj, s.predecessor, rank, stamp, startNodeId, endNodeId)
  {
    assert !s.distance[s.exploring[k].nodeId].Infinity?;
    forall v | 0 <= v < |adj| && (v in rank || v == endNodeId) && v != startNodeId
      ensures PredOk(adj, s.predecessor, rank, -1, v)
    {
      assert !s.distance[v].Infinity?;
    }
  }

  /** A path that starts at a settled node stays among the settled nodes
      when every reached node is settled. */
  lemma {:induction false} PathStaysSettled(adj: seq<seq<Arc>>, d: seq<Distance>, rank: map<int, int>, nodes: seq<int>)
    requires ArcsOk(adj) && |d| == |adj| && SettledClosed(adj, d, rank)
    requires forall v | 0 <= v < |adj| && !d[v].Infinity? :: v in rank
    requires |nodes| > 0 && 0 <= nodes[0] < |adj| && nodes[0] in rank && Path(adj, nodes)
    ensures nodes[|nodes| - 1] in rank
    decreases |nodes|
  {
    if |nodes| > 1 {
      assert Step(adj, nodes[0], nodes[1]);
      var j :| 0 <= j < |adj[nodes[0]]| && adj[nodes[0]][j].target == nodes[1] && adj[nodes[0]][j].usable;
      assert Closed(adj, d, nodes[0]);
      assert !d[nodes[1]].Infinity?;
      var rest := nodes[1..];
      forall k | 0 <= k < |rest| - 1
        ensures Step(adj, rest[k], rest[k + 1])
      {
        assert Step(adj, nodes[k + 1], nodes[k + 2]);
      }
      PathStaysSettled(adj, d, rank, rest);
    }
  }

  /** A frontier that runs empty proves the end node unreachable: every
      reached node is then settled, the usable edges out of settled nodes
      lead to settled nodes, and the end node is not settled. */
  lemma NoRouteLeft(adj: seq<seq<Arc>>, startNodeId: int, endNodeId: int, s: Search, rank: map<int, int>,
                    stamp: int, unsettled: set<int>)
    requires ArcsOk(adj) && Invariant(adj, startNodeId, endNodeId, s, rank, stamp, unsettled, -1)
    requires |s.exploring| == 0
    ensures !Connected(adj, startNodeId, endNodeId)
  {
    assert Ids(s.exploring) == multiset{};
    assert forall v | 0 <= v < |adj| && !s.distance[v].Infinity? :: v in rank;
    forall nodes: seq<int> | |nodes| > 0 && nodes[0] == startNodeId && Path(adj, nodes)
      ensures nodes[|nodes| - 1] != endNodeId
    {
      PathStaysSettled(adj, s.distance, rank, nodes);
    }
  }

  // ---------------------------------------------------------------------
  // The route that is rebuilt

  /** Edge.of on the i-th out-edge of u, whose target is v. */
  function EdgeAt(g: Graph, u: int, i: int, v: int): (e: E.Edge)
    requires Routable(g) && IsNode(g.nodes, u) && 0 <= i < NodeOutDegree(g, u) && Target(g, u, i) == v
    ensures e.fromNodeId == u && e.toNodeId == v && e.length >= 0.0
  {
    OutEdgeOkIn(g, u, i);
    NodeOkIn(g, v);
    E.Of(g, NodeOutEdgeId(g, u, i), u, v).value
  }

  /** An edge of the rebuilt route as Edge.of builds it from the first
      out-edge of its from node that leads to its to node. */
  ghost predicate BuiltEdge(g: Graph, e: E.Edge)
    requires Routable(g)
  {
    IsNode(g.nodes, e.fromNodeId) && FirstIndexTo(g, e.fromNodeId, e.toNodeId).Some?
    && (FirstIndexToSpec(g, e.fromNodeId, e.toNodeId);
        e == EdgeAt(g, e.fromNodeId, FirstIndexTo(g, e.fromNodeId, e.toNodeId).value, e.toNodeId))
  }

  /** Edges end to end, from a to b. */
  predicate Chain(edges: seq<E.Edge>, a: int, b: int)
  {
    |edges| > 0 && edges[0].fromNodeId == a && edges[|edges| - 1].toNodeId == b
    && forall k | 0 <= k < |edges| - 1 :: edges[k].toNodeId == edges[k + 1].fromNodeId
  }

  /** A usable edge joins the end nodes of every edge. */
  ghost predicate Steps(adj: seq<seq<Arc>>, edges: seq<E.Edge>)
  {
    forall k | 0 <= k < |edges| :: Step(adj, edges[k].fromNodeId, edges[k].toNodeId)
  }

  /** The rebuilt route from a to b: a chain of built edges, each of whose
      end nodes are joined by a usable edge. */
  ghost predicate RouteBetween(g: Graph, cost: CostFn, edges: seq<E.Edge>, a: int, b: int)
    requires Routable(g)
  {
    Chain(edges, a, b) && Steps(Arcs(g, cost), edges) && forall k | 0 <= k < |edges| :: BuiltEdge(g, edges[k])
  }

  /** A usable edge from p to v means some out-edge of p leads to v. */
  lemma StepHasFirst(g: Graph, cost: CostFn, p: int, v: int)
    requires Routable(g) && Step(Arcs(g, cost), p, v)
    ensures IsNode(g.nodes, p) && FirstIndexTo(g, p, v).Some?
  {
    var adj: seq<seq<Arc>> := Arcs(g, cost);
    var j :| 0 <= j < |adj[p]| && adj[p][j].target == v && adj[p][j].usable;
    ArcsOfNode(g, cost, p);
    ArcAt(g, cost, p, j);
    FirstIndexToSpec(g, p, v);
  }

  lemma ReverseSnoc<T>(s: seq<T>, x: T)
    ensures Reverse(s + [x]) == [x] + Reverse(s)
  {
    assert forall k | 0 <= k < |s| + 1 :: Reverse(s + [x])[k] == ([x] + Reverse(s))[k];
  }

  /** An edge into the start of a chain, or alone, makes a chain. */
  lemma ChainCons(e: E.Edge, edges: seq<E.Edge>, a: int, b: int)
    requires e.toNodeId == a && (edges == [] || Chain(edges, a, b)) && (edges == [] ==> a == b)
    ensures Chain([e] + edges, e.fromNodeId, b)
  {
    var r := [e] + edges;
    forall k | 0 <= k < |r| - 1
      ensures r[k].toNodeId == r[k + 1].fromNodeId
    {
      assert r[k + 1] == edges[k];
      if k > 0 {
        assert r[k] == edges[k - 1];
      }
    }
  }

  /** A built edge with a usable edge under it extends the route. */
  lemma RouteCons(g: Graph, cost: CostFn, e: E.Edge, edges: seq<E.Edge>, a: int, b: int)
    requires Routable(g) && BuiltEdge(g, e) && Step(Arcs(g, cost), e.fromNodeId, e.toNodeId) && e.toNodeId == a
    requires edges == [] || RouteBetween(g, cost, edges, a, b)
    requires edges == [] ==> a == b
    ensures RouteBetween(g, cost, [e] + edges, e.fromNodeId, b)
  {
    var r := [e] + edges;
    ChainCons(e, edges, a, b);
    forall k | 0 <= k < |r|
      ensures BuiltEdge(g, r[k]) && Step(Arcs(g, cost), r[k].fromNodeId, r[k].toNodeId)
    {
      if k > 0 {
        assert r[k] == edges[k - 1];
      }
    }
  }

  /** The reconstruction (lines 59-75): walks the predecessors back from the
      end node, adding at each step the first out-edge of the predecessor that
      leads to the current node, then reverses the list. */
  method Reconstruct(g: Graph, cost: CostFn, predecessor: array<int>, startNodeId: int, endNodeId: int,
                     ghost rank: map<int, int>, ghost stamp: int) returns (route: R.Route)
    requires Routable(g) && Walkable(Arcs(g, cost), predecessor[..], rank, stamp, startNodeId, endNodeId)
    ensures route.Single? && R.ValidRoute(route) && RouteBetween(g, cost, route.edges, startNodeId, endNodeId)
    ensures Reachable(g, cost, startNodeId, endNodeId)
  {
    ghost var adj: seq<seq<Arc>> := Arcs(g, cost);
    var reversed: seq<E.Edge> := [];
    var currentNode := endNodeId;
    while currentNode != startNodeId
      invariant 0 <= currentNode < |adj| && (currentNode in rank || currentNode == endNodeId)
      invariant currentNode == endNodeId ==> reversed == []
      invariant currentNode != endNodeId ==> RouteBetween(g, cost, Reverse(reversed), currentNode, endNodeId)
      decreases if currentNode in rank then rank[currentNode] else stamp
    {
      var predecesseur := predecessor[currentNode];
      assert PredOk(adj, predecessor[..], rank, -1, currentNode);
      StepHasFirst(g, cost, predecesseur, currentNode);
      var index := OutEdgeIndexTo(g, predecesseur, currentNode);
      FirstIndexToSpec(g, predecesseur, currentNode);
      var e := EdgeAt(g, predecesseur, index.value, currentNode);
      assert BuiltEdge(g, e);
      ReverseSnoc(reversed, e);
      RouteCons(g, cost, e, Reverse(reversed), currentNode, endNodeId);
      reversed := reversed + [e];
      currentNode := predecesseur;
    }
    var edges := Reverse(reversed);
    RouteReaches(g, cost, edges, startNodeId, endNodeId);
    RouteLengths(g, edges);
    route := R.NewSingle(edges).value;
  }

  /** A chain whose edges follow usable edges is a path from its first node
      to its last. */
  lemma ChainConnected(adj: seq<seq<Arc>>, edges: seq<E.Edge>, a: int, b: int)
    requires Chain(edges, a, b) && Steps(adj, edges)
    ensures Connected(adj, a, b)
  {
    var nodes := [a] + seq(|edges|, k requires 0 <= k < |edges| => edges[k].toNodeId);
    forall k | 0 <= k < |nodes| - 1
      ensures Step(adj, nodes[k], nodes[k + 1])
    {
      assert nodes[k + 1] == edges[k].toNodeId;
      if k > 0 {
        assert nodes[k] == edges[k - 1].toNodeId;
      }
    }
    assert nodes[|nodes| - 1] == b;
  }

  /** A rebuilt route is a path of usable edges from its first node to its
      last. */
  lemma RouteReaches(g: Graph, cost: CostFn, edges: seq<E.Edge>, a: int, b: int)
    requires Routable(g) && RouteBetween(g, cost, edges, a, b)
    ensures Reachable(g, cost, a, b)
  {
    ChainConnected(Arcs(g, cost), edges, a, b);
  }

  /** Built edges have lengths that are not negative, as SingleRoute
      demands. */
  lemma RouteLengths(g: Graph, edges: seq<E.Edge>)
    requires Routable(g) && forall k | 0 <= k < |edges| :: BuiltEdge(g, edges[k])
    ensures S.NonNegativeLengths(edges)
  {
    forall k | 0 <= k < |edges|
      ensures edges[k].length >= 0.0
    {
      assert BuiltEdge(g, edges[k]);
    }
  }

  /** Lines 79-104: the out-edges of the popped node are relaxed, then the
      node is marked UNREACHABLE; the invariant holds again with the node
      settled at the next rank. */
  method ExpandAndSettle(g: Graph, cost: CostFn, sqrt: SqrtFn, startNodeId: int, endNodeId: int,
                         distance: array<Distance>, predecessor: array<int>, currentNode: int,
                         exploring: seq<WeightedNode>, ghost rank: map<int, int>, ghost stamp: int,
                         ghost unsettled: set<int>)
      returns (exploring': seq<WeightedNode>)
    requires Routable(g) && ArcsOk(Arcs(g, cost)) && IsNode(g.nodes, currentNode) && IsNode(g.nodes, endNodeId)
    requires distance.Length == NodeCount(g) && predecessor.Length == NodeCount(g)
    requires Expanding(Arcs(g, cost), startNodeId, endNodeId, Search(distance[..], predecessor[..], exploring),
                       rank, stamp, unsettled, currentNode, 0)
    modifies distance, predecessor
    ensures Invariant(Arcs(g, cost), startNodeId, endNodeId, Search(distance[..], predecessor[..], exploring'),
                      rank[currentNode := stamp], stamp + 1, unsettled - {currentNode}, -1)
  {
    ghost var adj: seq<seq<Arc>> := Arcs(g, cost);
    ghost var e := Search(distance[..], predecessor[..], exploring);
    ghost var outs := OutEdges(g, cost, sqrt, endNodeId, currentNode);
    OutEdgesMatch(g, cost, sqrt, endNodeId, currentNode);
    RelaxAllKeeps(adj, startNodeId, endNodeId, e, rank, stamp, unsettled, currentNode, outs, |outs|);
    exploring' := Expand(g, cost, sqrt, endNodeId, distance, predecessor, currentNode, exploring);
    ghost var t := Search(distance[..], predecessor[..], exploring');
    distance[currentNode] := Unreachable;
    assert distance[..] == t.distance[currentNode := Unreachable];
    Settle(adj, startNodeId, endNodeId, t, rank, stamp, unsettled, currentNode);
  }

  // ---------------------------------------------------------------------
  // The search

  /** bestRouteBetween (lines 32-108): the route found when the end node is
      popped, rebuilt from the predecessors; None when the frontier runs
      empty first. The result is None exactly when no path of usable edges
      leads from the start node to the end node, and otherwise a single
      route along such a path. */
  method BestRouteBetween(g: Graph, cost: CostFn, sqrt: SqrtFn, startNodeId: int, endNodeId: int)
      returns (route: Option<R.Route>)
    requires Routable(g) && IsNode(g.nodes, startNodeId) && IsNode(g.nodes, endNodeId)
    requires startNodeId != endNodeId
    ensures route.None? <==> !Reachable(g, cost, startNodeId, endNodeId)
    ensures route.Some? ==>
      route.value.Single? && R.ValidRoute(route.value) && RouteBetween(g, cost, route.value.edges, startNodeId, endNodeId)
  {
    ghost var adj: seq<seq<Arc>> := Arcs(g, cost);
    ArcsOkOf(g, cost);
    var exploring := [WeightedNode(startNodeId, 0.0)];
    var nbNodes := NodeCount(g);
    var distance := new Distance[nbNodes](_ => Infinity);
    distance[startNodeId] := Finite(0.0);
    var predecessor := new int[nbNodes](_ => 0);
    ghost var unsettled := NodesBelow(nbNodes);
    assert distance[..] == seq(|adj|, v => Infinity)[startNodeId := Finite(0.0)];
    InitialInvariant(adj, startNodeId, endNodeId, Search(distance[..], predecessor[..], exploring), unsettled);
    route := Explore(g, cost, sqrt, startNodeId, endNodeId, distance, predecessor, exploring, map[], 0, unsettled);
  }

  /** The main loop (lines 52-107): pops an entry of least priority, skips
      it when its node is settled, rebuilds the route when it is the end
      node, and otherwise expands and settles it. The ghost rank, stamp and
      unsettled follow the settled nodes. */
  method Explore(g: Graph, cost: CostFn, sqrt: SqrtFn, startNodeId: int, endNodeId: int,
                 distance: array<Distance>, predecessor: array<int>, frontier: seq<WeightedNode>,
                 ghost rank0: map<int, int>, ghost stamp0: int, ghost unsettled0: set<int>)
      returns (route: Option<R.Route>)
    requires Routable(g) && ArcsOk(Arcs(g, cost)) && startNodeId != endNodeId
    requires IsNode(g.nodes, startNodeId) && IsNode(g.nodes, endNodeId)
    requires distance.Length == NodeCount(g) && predecessor.Length == NodeCount(g)
    requires Invariant(Arcs(g, cost), startNodeId, endNodeId, Search(distance[..], predecessor[..], frontier),
                       rank0, stamp0, unsettled0, -1)
    modifies distance, predecessor
    ensures route.None? <==> !Reachable(g, cost, startNodeId, endNodeId)
    ensures route.Some? ==>
      route.value.Single? && R.ValidRoute(route.value) && RouteBetween(g, cost, route.value.edges, startNodeId, endNodeId)
  {
    ghost var adj: seq<seq<Arc>> := Arcs(g, cost);
    var exploring := frontier;
    ghost var rank, stamp, unsettled := rank0, stamp0, unsettled0;
    while |exploring| > 0
      invariant Invariant(adj, startNodeId, endNodeId, Search(distance[..], predecessor[..], exploring),
                          rank, stamp, unsettled, -1)
      decreases |unsettled|, |exploring|
    {
      ghost var s := Search(distance[..], predecessor[..], exploring);
      var w, rest;
      ghost var k;
      w, rest, k := RemoveMin(exploring);
      var currentNode := w.nodeId;
      EntryReached(adj, startNodeId, endNodeId, s, rank, stamp, unsettled, k);
      if distance[currentNode] != Unreachable {
        if currentNode == endNodeId {
          FoundWalkable(adj, startNodeId, endNodeId, s, rank, stamp, unsettled, k);
          var found := Reconstruct(g, cost, predecessor, startNodeId, endNodeId, rank, stamp);
          return Some(found);
        }
        BeginExpand(adj, startNodeId, endNodeId, s, rank, stamp, unsettled, k);
        exploring := ExpandAndSettle(g, cost, sqrt, startNodeId, endNodeId, distance, predecessor, currentNode, rest,
                                     rank, stamp, unsettled);
        rank, stamp, unsettled := rank[currentNode := stamp], stamp + 1, unsettled - {currentNode};
      } else {
        Skip(adj, startNodeId, endNodeId, s, rank, stamp, unsettled, k);
        exploring := rest;
      }
    }
    NoRouteLeft(adj, startNodeId, endNodeId, Search(distance[..], predecessor[..], exploring), rank, stamp, unsettled);
    route := None;
  }
}
