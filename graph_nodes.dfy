/** The node table of the graph (ch.epfl.javelo.data.GraphNodes): three ints
    per node, the east and north coordinates in Q28.4 and a word packing the
    out-degree (bits 28..31) with the id of the first outgoing edge (bits 0..27). */
module GraphNodes {
  import opened Bits
  import opened Q28_4

  const OFFSET_E: nat := 0
  const OFFSET_N: nat := OFFSET_E + 1
  const OFFSET_OUT_EDGES: nat := OFFSET_N + 1
  const NODE_INTS: nat := OFFSET_OUT_EDGES + 1
  const START_OUT_EDGES: Int32 := 28
  const LENGTH_OUT_EDGES: Int32 := 4
  const START_EDGES_ID: Int32 := 0
  const LENGTH_EDGES_ID: Int32 := 28

  /** The IntBuffer of the node table, as the sequence of its words. */
  datatype GraphNodes = GraphNodes(buffer: seq<Int32>)

  /** count: the number of whole nodes in the buffer (capacity div 3). */
  function Count(g: GraphNodes): (r: nat)
    ensures r * NODE_INTS <= |g.buffer| < (r + 1) * NODE_INTS
  {
    |g.buffer| / NODE_INTS
  }

  /** A node id is valid when it is below count: its three words are in the
      buffer (reading past the buffer throws). */
  predicate IsNode(g: GraphNodes, nodeId: int)
  {
    0 <= nodeId < Count(g)
  }

  lemma NodeWordsInBuffer(g: GraphNodes, nodeId: int)
    requires IsNode(g, nodeId)
    ensures nodeId * NODE_INTS + OFFSET_OUT_EDGES < |g.buffer|
  {
  }

  /** nodeE: word 3 * id read as Q28.4. */
  function NodeE(g: GraphNodes, nodeId: int): (r: real)
    requires IsNode(g, nodeId)
    ensures r * 16.0 == g.buffer[nodeId * NODE_INTS + OFFSET_E] as real
  {
    AsDouble(g.buffer[nodeId * NODE_INTS + OFFSET_E])
  }

  /** nodeN: word 3 * id + 1 read as Q28.4. */
  function NodeN(g: GraphNodes, nodeId: int): (r: real)
    requires IsNode(g, nodeId)
    ensures r * 16.0 == g.buffer[nodeId * NODE_INTS + OFFSET_N] as real
  {
    AsDouble(g.buffer[nodeId * NODE_INTS + OFFSET_N])
  }

  function OutEdgesWord(g: GraphNodes, nodeId: int): Int32
    requires IsNode(g, nodeId)
  {
    g.buffer[nodeId * NODE_INTS + OFFSET_OUT_EDGES]
  }

  /** outDegree: the top four bits of the third word, hence at most 15. */
  function OutDegree(g: GraphNodes, nodeId: int): (r: Int32)
    requires IsNode(g, nodeId)
    ensures r == Field(OutEdgesWord(g, nodeId), 28, 4)
    ensures 0 <= r <= 15
  {
    ExtractUnsignedIsField(OutEdgesWord(g, nodeId), START_OUT_EDGES, LENGTH_OUT_EDGES);
    ExtractUnsignedRange(OutEdgesWord(g, nodeId), START_OUT_EDGES, LENGTH_OUT_EDGES);
    Pow2Values();
    ExtractUnsigned(OutEdgesWord(g, nodeId), START_OUT_EDGES, LENGTH_OUT_EDGES).value
  }

  /** edgeId: the low 28 bits of the third word plus the edge index, which the
      code asserts lies in [0, outDegree). */
  function EdgeId(g: GraphNodes, nodeId: int, edgeIndex: int): (r: Int32)
    requires IsNode(g, nodeId)
    requires 0 <= edgeIndex < OutDegree(g, nodeId)
    ensures r == Field(OutEdgesWord(g, nodeId), 0, 28) + edgeIndex
    ensures 0 <= r < 0x1000_0000 + 15
  {
    ExtractUnsignedIsField(OutEdgesWord(g, nodeId), START_EDGES_ID, LENGTH_EDGES_ID);
    ExtractUnsignedRange(OutEdgesWord(g, nodeId), START_EDGES_ID, LENGTH_EDGES_ID);
    Pow2Values();
    ExtractUnsigned(OutEdgesWord(g, nodeId), START_EDGES_ID, LENGTH_EDGES_ID).value + edgeIndex
  }

  /** A node's outgoing edges have consecutive ids, starting at its first edge. */
  lemma OutEdgesConsecutive(g: GraphNodes, nodeId: int, edgeIndex: int)
    requires IsNode(g, nodeId)
    requires 0 <= edgeIndex && edgeIndex + 1 < OutDegree(g, nodeId)
    ensures EdgeId(g, nodeId, edgeIndex + 1) == EdgeId(g, nodeId, edgeIndex) + 1
    ensures EdgeId(g, nodeId, edgeIndex) == EdgeId(g, nodeId, 0) + edgeIndex
  {
  }
}
