/** The JaVelo graph (ch.epfl.javelo.data.Graph): nodes, sectors, edges and
    the attribute sets of the edges, with the nearest-node search. */
module Graph {
  import opened Wrappers
  import opened Bits
  import opened Math2
  import opened SwissBounds
  import opened PointCh
  import opened AttributeSet
  import opened GraphNodes
  import opened GraphEdges
  import opened GraphSectors
  import opened Functions

  datatype Graph = Graph(nodes: GraphNodes, sectors: GraphSectors, edges: GraphEdges, attributeSets: seq<AttributeSet>)

  /** A node whose coordinates make a valid PointCh (nodePoint throws
      otherwise). */
  predicate NodeOk(g: Graph, nodeId: int)
  {
    IsNode(g.nodes, nodeId) && ContainsEN(NodeE(g.nodes, nodeId), NodeN(g.nodes, nodeId))
  }

  /** Every node id listed by the sector holds a valid node. */
  predicate SectorOk(g: Graph, s: Sector)
  {
    forall nodeId | s.startNodeId <= nodeId < s.endNodeId :: NodeOk(g, nodeId)
  }

  /** A well-formed graph: all sector records are present and list valid
      nodes. Graph.loadFrom does not check this; it is assumed of the data. */
  predicate Valid(g: Graph)
  {
    Complete(g.sectors) && forall index | 0 <= index < SECTOR_COUNT :: SectorOk(g, Table(g.sectors)[index])
  }

  /** nodeCount and the other accessors below delegate to the tables. */
  function NodeCount(g: Graph): nat
  {
    Count(g.nodes)
  }

  /** nodePoint: the node's coordinates as a PointCh. */
  function NodePoint(g: Graph, nodeId: int): PointCh
    requires NodeOk(g, nodeId)
  {
    Point(NodeE(g.nodes, nodeId), NodeN(g.nodes, nodeId))
  }

  function NodeOutDegree(g: Graph, nodeId: int): Int32
    requires IsNode(g.nodes, nodeId)
  {
    OutDegree(g.nodes, nodeId)
  }

  function NodeOutEdgeId(g: Graph, nodeId: int, edgeIndex: int): Int32
    requires IsNode(g.nodes, nodeId) && 0 <= edgeIndex < OutDegree(g.nodes, nodeId)
  {
    EdgeId(g.nodes, nodeId, edgeIndex)
  }

  function EdgeTargetNodeId(g: Graph, edgeId: int): Int32
    requires IsEdge(g.edges, edgeId)
  {
    TargetNodeId(g.edges, edgeId)
  }

  predicate EdgeIsInverted(g: Graph, edgeId: int)
    requires IsEdge(g.edges, edgeId)
  {
    IsInverted(g.edges, edgeId)
  }

  function EdgeLength(g: Graph, edgeId: int): real
    requires IsEdge(g.edges, edgeId)
  {
    Length(g.edges, edgeId)
  }

  function EdgeElevationGain(g: Graph, edgeId: int): real
    requires IsEdge(g.edges, edgeId)
  {
    ElevationGain(g.edges, edgeId)
  }

  /** edgeAttributes: the attribute set the edge's attribute index names (the
      list lookup throws past its end). */
  function EdgeAttributes(g: Graph, edgeId: int): (r: AttributeSet)
    requires IsEdge(g.edges, edgeId) && AttributesIndex(g.edges, edgeId) < |g.attributeSets|
    ensures r in g.attributeSets
  {
    g.attributeSets[AttributesIndex(g.edges, edgeId)]
  }

  /** edgeProfile: NaN everywhere without a profile, otherwise the samples
      spread over the edge's length. `sampled` throws for a profiled edge of
      length 0 (it then has a single sample): None. */
  function EdgeProfile(g: Graph, edgeId: int): (r: Option<Function>)
    requires IsEdge(g.edges, edgeId) && ProfileReadable(g.edges, edgeId)
    ensures r.None? <==> HasProfile(g.edges, edgeId) && Length(g.edges, edgeId) == 0.0
  {
    if !HasProfile(g.edges, edgeId) then Some(Constant(None))
    else if Length(g.edges, edgeId) == 0.0 then None
    else
      ProfileSamplesBounds(g, edgeId);
      Some(Sampled(Profile(g.edges, edgeId), Length(g.edges, edgeId)))
  }

  /** A profiled edge of positive length has between 2 and 2049 samples. */
  lemma ProfileSamplesBounds(g: Graph, edgeId: int)
    requires IsEdge(g.edges, edgeId) && ProfileReadable(g.edges, edgeId)
    requires HasProfile(g.edges, edgeId) && Length(g.edges, edgeId) > 0.0
    ensures 1 < |Profile(g.edges, edgeId)| <= 2049
  {
    ProfileSize(g.edges, edgeId);
  }

  /** The profile function: NaN everywhere without a profile; with one, the
      first sample at 0 and before, the last from the edge's end on, and
      sample k at position k * length / (n - 1). */
  lemma EdgeProfileValues(g: Graph, edgeId: int, f: Function, x: real, k: int)
    requires IsEdge(g.edges, edgeId) && ProfileReadable(g.edges, edgeId)
    requires EdgeProfile(g, edgeId) == Some(f)
    ensures !HasProfile(g.edges, edgeId) ==> Apply(f, x) == None
    ensures HasProfile(g.edges, edgeId) ==> f == Sampled(Profile(g.edges, edgeId), Length(g.edges, edgeId))
    ensures HasProfile(g.edges, edgeId) && x <= 0.0 ==> Apply(f, x) == Some(f.samples[0])
    ensures HasProfile(g.edges, edgeId) && x >= f.xMax ==> Apply(f, x) == Some(f.samples[|f.samples| - 1])
    ensures HasProfile(g.edges, edgeId) && 0 <= k < |f.samples| ==> Apply(f, k as real * Gap(f.samples, f.xMax)) == Some(f.samples[k])
  {
    if HasProfile(g.edges, edgeId) {
      SampledClamps(f, x);
      if 0 <= k < |f.samples| {
        SampledAtSamplePoints(f, k);
      }
    }
  }

  /** The node ids from a to b excluded, in increasing order. */
  function Range(a: int, b: int): (r: seq<int>)
    ensures |r| == if a < b then b - a else 0
    ensures forall j :: 0 <= j < |r| ==> r[j] == a + j
  {
    seq(if a < b then b - a else 0, j => a + j)
  }

  lemma RangeSnoc(a: int, b: int)
    requires a <= b
    ensures Range(a, b + 1) == Range(a, b) + [b]
  {
  }

  /** The node ids of the sectors, one sector after the other. */
  function Flat(sectors: seq<Sector>): seq<int>
  {
    if sectors == [] then []
    else Flat(sectors[..|sectors| - 1]) + Range(sectors[|sectors| - 1].startNodeId, sectors[|sectors| - 1].endNodeId)
  }

  lemma FlatSnoc(sectors: seq<Sector>, i: int)
    requires 0 <= i < |sectors|
    ensures Flat(sectors[..i + 1]) == Flat(sectors[..i]) + Range(sectors[i].startNodeId, sectors[i].endNodeId)
  {
    assert sectors[..i + 1][..i] == sectors[..i];
  }

  /** Every node id of sectors that all list valid nodes is a valid node. */
  lemma {:induction false} FlatNodesOk(g: Graph, sectors: seq<Sector>)
    requires forall i | 0 <= i < |sectors| :: SectorOk(g, sectors[i])
    ensures forall id | id in Flat(sectors) :: NodeOk(g, id)
  {
    if sectors != [] {
      FlatNodesOk(g, sectors[..|sectors| - 1]);
    }
  }

  /** The sectors of sectorsInArea list valid nodes only. */
  lemma AreaSectorsOk(g: Graph, point: PointCh, searchDistance: real)
    requires Valid(g)
    ensures forall i | 0 <= i < |Area(g.sectors, point, searchDistance)| :: SectorOk(g, Area(g.sectors, point, searchDistance)[i])
  {
    var (xMin, xMax) := XRange(point, searchDistance);
    var (yMin, yMax) := YRange(point, searchDistance);
    var t := Table(g.sectors);
    ColumnsOnlyInRange(t, xMin, xMax + 1, yMin, yMax);
    forall i | 0 <= i < |Area(g.sectors, point, searchDistance)|
      ensures SectorOk(g, Area(g.sectors, point, searchDistance)[i])
    {
      assert FromRanges(Columns(t, xMin, xMax + 1, yMin, yMax)[i], t, xMin, xMax + 1, yMin, yMax);
    }
  }

  /** The nodes nodeClosestTo examines, in scanning order. */
  function Candidates(g: Graph, point: PointCh, searchDistance: real): (r: seq<int>)
    requires Valid(g)
    ensures forall id | id in r :: NodeOk(g, id)
  {
    AreaSectorsOk(g, point, searchDistance);
    FlatNodesOk(g, Area(g.sectors, point, searchDistance));
    Flat(Area(g.sectors, point, searchDistance))
  }

  function SquaredDistanceToNode(g: Graph, point: PointCh, nodeId: int): real
    requires NodeOk(g, nodeId)
  {
    SquaredDistanceTo(point, NodePoint(g, nodeId))
  }

  /** What the scan over `seen` has established when it holds `node` at
      squared distance `d`, starting from the bound d0: -1 while nothing was
      within d0; otherwise a node of `seen` within d0, no farther than any
      other, and strictly closer than every node scanned after it. */
  ghost predicate ScanState(g: Graph, point: PointCh, d0: real, seen: seq<int>, node: int, d: real, pos: int)
    requires forall k | 0 <= k < |seen| :: NodeOk(g, seen[k])
  {
    (node == -1 <==> forall k | 0 <= k < |seen| :: SquaredDistanceToNode(g, point, seen[k]) > d0) &&
    (node == -1 ==> d == d0) &&
    (node != -1 ==>
      0 <= pos < |seen| && seen[pos] == node && d == SquaredDistanceToNode(g, point, node) && d <= d0 &&
      (forall k | 0 <= k < |seen| :: d <= SquaredDistanceToNode(g, point, seen[k])) &&
      (forall k | pos < k < |seen| :: SquaredDistanceToNode(g, point, seen[k]) > d))
  }

  /** The result nodeClosestTo promises for the candidates c and the bound d0
      on the squared distance: -1 exactly when no candidate is within d0;
      otherwise a candidate within d0, no farther than any other, and the
      last one at that distance in scanning order. */
  ghost predicate Nearest(g: Graph, point: PointCh, d0: real, c: seq<int>, node: int)
    requires forall k | 0 <= k < |c| :: NodeOk(g, c[k])
  {
    (node == -1 <==> forall k | 0 <= k < |c| :: SquaredDistanceToNode(g, point, c[k]) > d0) &&
    (node != -1 ==> exists pos | 0 <= pos < |c| :: (c[pos] == node &&
      SquaredDistanceToNode(g, point, node) <= d0 &&
      (forall k | 0 <= k < |c| :: SquaredDistanceToNode(g, point, node) <= SquaredDistanceToNode(g, point, c[k])) &&
      (forall k | pos < k < |c| :: SquaredDistanceToNode(g, point, c[k]) > SquaredDistanceToNode(g, point, node))))
  }

  /** One scan step: node id is compared with `<=` against the best so far. */
  lemma ScanStep(g: Graph, point: PointCh, d0: real, seen: seq<int>, node: int, d: real, pos: int, id: int)
    requires forall k | 0 <= k < |seen| :: NodeOk(g, seen[k])
    requires NodeOk(g, id) && id >= 0
    requires ScanState(g, point, d0, seen, node, d, pos)
    ensures forall k | 0 <= k < |seen + [id]| :: NodeOk(g, (seen + [id])[k])
    ensures SquaredDistanceToNode(g, point, id) <= d ==>
      ScanState(g, point, d0, seen + [id], id, SquaredDistanceToNode(g, point, id), |seen|)
    ensures SquaredDistanceToNode(g, point, id) > d ==>
      ScanState(g, point, d0, seen + [id], node, d, pos)
  {
    var s := seen + [id];
    assert forall k | 0 <= k < |seen| :: s[k] == seen[k];
    assert s[|seen|] == id;
  }

  /** The inner loop of nodeClosestTo over the nodes of one sector: each node
      no farther than the best so far (`<=`) replaces it. */
  method ScanSector(g: Graph, point: PointCh, ghost d0: real, s: Sector, ghost seen: seq<int>, node: int, squaredDistance: real, ghost pos: int)
    returns (node': int, squaredDistance': real, ghost seen': seq<int>, ghost pos': int)
    requires SectorOk(g, s)
    requires forall k | 0 <= k < |seen| :: NodeOk(g, seen[k])
    requires ScanState(g, point, d0, seen, node, squaredDistance, pos)
    ensures seen' == seen + Range(s.startNodeId, s.endNodeId)
    ensures forall k | 0 <= k < |seen'| :: NodeOk(g, seen'[k])
    ensures ScanState(g, point, d0, seen', node', squaredDistance', pos')
  {
    node', squaredDistance', seen', pos' := node, squaredDistance, seen, pos;
    var id := s.startNodeId;
    while id < s.endNodeId
      invariant s.startNodeId <= id <= (if s.startNodeId < s.endNodeId then s.endNodeId else s.startNodeId)
      invariant seen' == seen + Range(s.startNodeId, id)
      invariant forall k | 0 <= k < |seen'| :: NodeOk(g, seen'[k])
      invariant ScanState(g, point, d0, seen', node', squaredDistance', pos')
    {
      var p := NodePoint(g, id);
      ScanStep(g, point, d0, seen', node', squaredDistance', pos', id);
      RangeSnoc(s.startNodeId, id);
      if SquaredDistanceTo(point, p) <= squaredDistance' {
        node' := id;
        squaredDistance' := SquaredDistanceTo(point, p);
        pos' := |seen'|;
      }
      seen' := seen' + [id];
      id := id + 1;
    }
    assert Range(s.startNodeId, id) == Range(s.startNodeId, s.endNodeId);
  }

  /** nodeClosestTo: the scan of the candidate sectors, node after node,
      keeping the last node at the smallest squared distance not above
      searchDistance^2; -1 when there is none. */
  method NodeClosestTo(g: Graph, point: PointCh, searchDistance: real) returns (node: int)
    requires Valid(g)
    ensures Nearest(g, point, searchDistance * searchDistance, Candidates(g, point, searchDistance), node)
  {
    node := -1;
    var squaredDistance := searchDistance * searchDistance;
    ghost var d0 := squaredDistance;
    var sectors := SectorsInArea(g.sectors, point, searchDistance);
    AreaSectorsOk(g, point, searchDistance);
    ghost var seen: seq<int> := [];
    ghost var pos := -1;
    var i := 0;
    while i < |sectors|
      invariant 0 <= i <= |sectors|
      invariant seen == Flat(sectors[..i])
      invariant forall k | 0 <= k < |seen| :: NodeOk(g, seen[k])
      invariant ScanState(g, point, d0, seen, node, squaredDistance, pos)
    {
      node, squaredDistance, seen, pos := ScanSector(g, point, d0, sectors[i], seen, node, squaredDistance, pos);
      FlatSnoc(sectors, i);
      i := i + 1;
    }
    assert sectors[..|sectors|] == sectors;
    assert seen == Candidates(g, point, searchDistance);
    ScanDone(g, point, searchDistance, seen, node, squaredDistance, pos);
  }

  /** The state at the end of the scan is the closest-node property of the
      candidates. */
  lemma ScanDone(g: Graph, point: PointCh, searchDistance: real, seen: seq<int>, node: int, d: real, pos: int)
    requires Valid(g) && seen == Candidates(g, point, searchDistance)
    requires forall k | 0 <= k < |seen| :: NodeOk(g, seen[k])
    requires ScanState(g, point, searchDistance * searchDistance, seen, node, d, pos)
    ensures Nearest(g, point, searchDistance * searchDistance, Candidates(g, point, searchDistance), node)
  {
    if node != -1 {
      assert seen[pos] == node;
    }
  }

  /** For a non-negative search distance the nodes of the point's own sector
      are always candidates. */
  lemma CenterSectorNodesAreCandidates(g: Graph, point: PointCh, searchDistance: real)
    requires Valid(g) && searchDistance >= 0.0
    ensures var s := Table(g.sectors)[CellIndex(CellOf(point).0, CellOf(point).1)];
      forall id | s.startNodeId <= id < s.endNodeId :: id in Candidates(g, point, searchDistance)
  {
    AreaCoversCenter(g.sectors, point, searchDistance);
    var s := Table(g.sectors)[CellIndex(CellOf(point).0, CellOf(point).1)];
    var area := Area(g.sectors, point, searchDistance);
    var i :| 0 <= i < |area| && area[i] == s;
    FlatContains(area, i);
  }

  /** Flattening keeps every sector's node ids. */
  lemma {:induction false} FlatContains(sectors: seq<Sector>, i: int)
    requires 0 <= i < |sectors|
    ensures forall id | sectors[i].startNodeId <= id < sectors[i].endNodeId :: id in Flat(sectors)
  {
    var last := |sectors| - 1;
    var r := Range(sectors[last].startNodeId, sectors[last].endNodeId);
    if i < last {
      FlatContains(sectors[..last], i);
    } else {
      forall id | sectors[i].startNodeId <= id < sectors[i].endNodeId
        ensures id in Flat(sectors)
      {
        assert r[id - sectors[i].startNodeId] == id;
      }
    }
  }
}
