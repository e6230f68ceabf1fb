/** The sector table of the graph (ch.epfl.javelo.data.GraphSectors): the
    Swiss bounds cut into a 128 x 128 grid, each cell a 6-byte record holding
    the id of its first node (int) and its node count (unsigned short). */
module GraphSectors {
  import opened Bits
  import opened Math2
  import opened SwissBounds
  import opened PointCh
  import opened GraphEdges

  const NUMBER_OF_SECTOR_PER_LINE: Int32 := 128
  const INDIVIDUAL_SECTOR_WIDTH: real := WIDTH / 128.0
  const INDIVIDUAL_SECTOR_HEIGHT: real := HEIGHT / 128.0
  const OFFSET_START: nat := 0
  const OFFSET_SHORT: nat := 4
  const OFFSET_SECTOR_SIZE: nat := 6
  const SECTOR_COUNT: nat := 16384

  /** The ByteBuffer of sector records. */
  datatype GraphSectors = GraphSectors(buffer: seq<Byte>)

  /** A sector: the node ids [startNodeId, endNodeId). */
  datatype Sector = Sector(startNodeId: Int32, endNodeId: Int32)

  /** The table holds the records of all 16384 cells. */
  predicate Complete(g: GraphSectors)
  {
    |g.buffer| >= SECTOR_COUNT * OFFSET_SECTOR_SIZE
  }

  /** The id of the first node of cell `index` (an int at the record's start). */
  function StartNodeId(g: GraphSectors, index: int): Int32
    requires Complete(g) && 0 <= index < SECTOR_COUNT
  {
    GetInt(g.buffer, index * OFFSET_SECTOR_SIZE + OFFSET_START)
  }

  /** The node count of cell `index` (an unsigned short after the start id). */
  function NodeCount(g: GraphSectors, index: int): (r: nat)
    requires Complete(g) && 0 <= index < SECTOR_COUNT
    ensures r < 0x1_0000
  {
    ToUnsignedInt(GetShort(g.buffer, index * OFFSET_SECTOR_SIZE + OFFSET_SHORT))
  }

  /** The sector of cell `index`: its start id, and the start plus the count in
      wrapping int arithmetic. */
  function SectorAt(g: GraphSectors, index: int): Sector
    requires Complete(g) && 0 <= index < SECTOR_COUNT
  {
    Sector(StartNodeId(g, index), Wrap(StartNodeId(g, index) + NodeCount(g, index)))
  }

  /** Unless start + count overflows an int, a sector holds exactly the stored
      number of nodes; when it does overflow, the end wraps below the start. */
  lemma SectorSize(g: GraphSectors, index: int)
    requires Complete(g) && 0 <= index < SECTOR_COUNT
    ensures StartNodeId(g, index) + NodeCount(g, index) < TWO31 ==>
      SectorAt(g, index).endNodeId - SectorAt(g, index).startNodeId == NodeCount(g, index)
    ensures StartNodeId(g, index) + NodeCount(g, index) >= TWO31 ==>
      SectorAt(g, index).endNodeId < SectorAt(g, index).startNodeId
  {
    var sum := StartNodeId(g, index) + NodeCount(g, index);
    if sum < TWO31 {
      WrapInRange(sum);
    } else {
      assert sum % TWO32 == sum;
    }
  }

  /** The cell range [min, max] covered along one axis by [c - d, c + d], for
      a coordinate c measured from the grid's origin and cells of size `side`. */
  function CellRange(c: real, d: real, side: real): (r: (int, int))
    requires side > 0.0
    ensures 0 <= r.0 <= 127 && 0 <= r.1 <= 127
  {
    (ClampInt(0, TruncateToInt((c - d) / side), NUMBER_OF_SECTOR_PER_LINE - 1),
     ClampInt(0, TruncateToInt((c + d) / side), NUMBER_OF_SECTOR_PER_LINE - 1))
  }

  function XRange(center: PointCh, distance: real): (int, int)
  {
    CellRange(center.e - MIN_E, distance, INDIVIDUAL_SECTOR_WIDTH)
  }

  function YRange(center: PointCh, distance: real): (int, int)
  {
    CellRange(center.n - MIN_N, distance, INDIVIDUAL_SECTOR_HEIGHT)
  }

  /** Number of integers in [lo, hi]. */
  function Span(lo: int, hi: int): nat
  {
    if lo <= hi then hi - lo + 1 else 0
  }

  /** Position of cell (x, y) in the result: x in the outer loop, y inner. */
  function Slot(x: int, y: int, xMin: int, yMin: int, ny: nat): int
  {
    (x - xMin) * ny + (y - yMin)
  }

  /** The index of cell (x, y) in the table: row-major, 128 cells per line. */
  function CellIndex(x: int, y: int): int
  {
    x + NUMBER_OF_SECTOR_PER_LINE * y
  }

  /** The sectors of all 16384 cells, by index x + 128 * y. */
  function Table(g: GraphSectors): (t: seq<Sector>)
    requires Complete(g)
    ensures |t| == SECTOR_COUNT
  {
    seq(SECTOR_COUNT, index requires 0 <= index < SECTOR_COUNT => SectorAt(g, index))
  }

  /** The sectors of column x, for y from yMin up to yEnd excluded. */
  function Column(t: seq<Sector>, x: int, yMin: int, yEnd: int): seq<Sector>
    requires |t| == SECTOR_COUNT && 0 <= x <= 127 && 0 <= yMin && yEnd <= 128
  {
    seq(Span(yMin, yEnd - 1), j requires 0 <= j < Span(yMin, yEnd - 1) => t[CellIndex(x, yMin + j)])
  }

  /** A column grows by one cell at its end. */
  lemma ColumnSnoc(t: seq<Sector>, x: int, yMin: int, y: int)
    requires |t| == SECTOR_COUNT && 0 <= x <= 127 && 0 <= yMin <= y <= 127
    ensures Column(t, x, yMin, y + 1) == Column(t, x, yMin, y) + [t[CellIndex(x, y)]]
  {
  }

  /** Columns xMin up to xEnd excluded, one after the other, each for y in
      [yMin, yMax]. */
  function Columns(t: seq<Sector>, xMin: int, xEnd: int, yMin: int, yMax: int): seq<Sector>
    requires |t| == SECTOR_COUNT && 0 <= xMin && xEnd <= 128 && 0 <= yMin && yMax <= 127
    decreases xEnd - xMin
  {
    if xEnd <= xMin then [] else Columns(t, xMin, xEnd - 1, yMin, yMax) + Column(t, xEnd - 1, yMin, yMax + 1)
  }

  /** The result of sectorsInArea: the sectors of the clamped cell ranges. */
  function Area(g: GraphSectors, center: PointCh, distance: real): seq<Sector>
    requires Complete(g)
  {
    var (xMin, xMax) := XRange(center, distance);
    var (yMin, yMax) := YRange(center, distance);
    Columns(Table(g), xMin, xMax + 1, yMin, yMax)
  }

  /** sectorsInArea, with its two nested loops. */
  method SectorsInArea(g: GraphSectors, center: PointCh, distance: real) returns (sectors: seq<Sector>)
    requires Complete(g)
    ensures sectors == Area(g, center, distance)
  {
    var (xMin, xMax) := XRange(center, distance);
    var (yMin, yMax) := YRange(center, distance);
    ghost var t := Table(g);
    sectors := [];
    var x := xMin;
    while x <= xMax
      invariant xMin <= x <= xMax + 1 || (x == xMin && xMin > xMax)
      invariant sectors == Columns(t, xMin, x, yMin, yMax)
    {
      ghost var done := sectors;
      var y := yMin;
      while y <= yMax
        invariant yMin <= y <= yMax + 1 || (y == yMin && yMin > yMax)
        invariant sectors == done + Column(t, x, yMin, y)
      {
        var index := CellIndex(x, y);
        ColumnSnoc(t, x, yMin, y);
        assert t[index] == SectorAt(g, index);
        sectors := sectors + [SectorAt(g, index)];
        y := y + 1;
      }
      x := x + 1;
    }
  }

  /** Every cell (x, y) of the ranges appears exactly once, at slot
      (x - xMin) * ny + (y - yMin); there are nx * ny of them. */
  lemma {:induction false} ColumnsLayout(t: seq<Sector>, xMin: int, xEnd: int, yMin: int, yMax: int)
    requires |t| == SECTOR_COUNT && 0 <= xMin && xEnd <= 128 && 0 <= yMin && yMax <= 127
    ensures |Columns(t, xMin, xEnd, yMin, yMax)| == Span(xMin, xEnd - 1) * Span(yMin, yMax)
    ensures forall x, y | xMin <= x < xEnd && yMin <= y <= yMax ::
      0 <= Slot(x, y, xMin, yMin, Span(yMin, yMax)) < |Columns(t, xMin, xEnd, yMin, yMax)| &&
      Columns(t, xMin, xEnd, yMin, yMax)[Slot(x, y, xMin, yMin, Span(yMin, yMax))] == t[CellIndex(x, y)]
    decreases xEnd - xMin
  {
    if xEnd > xMin {
      var ny := Span(yMin, yMax);
      ColumnsLayout(t, xMin, xEnd - 1, yMin, yMax);
      var prefix := Columns(t, xMin, xEnd - 1, yMin, yMax);
      var col := Column(t, xEnd - 1, yMin, yMax + 1);
      var whole := Columns(t, xMin, xEnd, yMin, yMax);
      assert whole == prefix + col;
      MulSucc(xEnd - 1 - xMin, ny);
      forall x, y | xMin <= x < xEnd && yMin <= y <= yMax
        ensures 0 <= Slot(x, y, xMin, yMin, ny) < |whole|
        ensures whole[Slot(x, y, xMin, yMin, ny)] == t[CellIndex(x, y)]
      {
        var k := Slot(x, y, xMin, yMin, ny);
        if x == xEnd - 1 {
          assert k == |prefix| + (y - yMin);
          assert col[y - yMin] == t[CellIndex(x, yMin + (y - yMin))];
          assert whole[k] == col[y - yMin];
        } else {
          SlotBelow(x, y, xMin, yMin, yMax, xEnd - 1);
          assert whole[k] == prefix[k];
        }
      }
    }
  }

  /** The sector is the table entry of some cell of [xMin, xEnd) x [yMin, yMax]. */
  ghost predicate FromRanges(s: Sector, t: seq<Sector>, xMin: int, xEnd: int, yMin: int, yMax: int)
    requires |t| == SECTOR_COUNT
  {
    exists x, y | xMin <= x < xEnd && yMin <= y <= yMax && 0 <= CellIndex(x, y) < SECTOR_COUNT :: s == t[CellIndex(x, y)]
  }

  /** Conversely, every entry of the result is the sector of a cell of the
      ranges. */
  lemma {:induction false} ColumnsOnlyInRange(t: seq<Sector>, xMin: int, xEnd: int, yMin: int, yMax: int)
    requires |t| == SECTOR_COUNT && 0 <= xMin && xEnd <= 128 && 0 <= yMin && yMax <= 127
    ensures forall k | 0 <= k < |Columns(t, xMin, xEnd, yMin, yMax)| ::
      FromRanges(Columns(t, xMin, xEnd, yMin, yMax)[k], t, xMin, xEnd, yMin, yMax)
    decreases xEnd - xMin
  {
    if xEnd > xMin {
      ColumnsOnlyInRange(t, xMin, xEnd - 1, yMin, yMax);
      var prefix := Columns(t, xMin, xEnd - 1, yMin, yMax);
      var col := Column(t, xEnd - 1, yMin, yMax + 1);
      var whole := Columns(t, xMin, xEnd, yMin, yMax);
      assert whole == prefix + col;
      forall k | 0 <= k < |whole|
        ensures FromRanges(whole[k], t, xMin, xEnd, yMin, yMax)
      {
        if k < |prefix| {
          assert whole[k] == prefix[k];
          assert FromRanges(prefix[k], t, xMin, xEnd - 1, yMin, yMax);
          var x, y :| xMin <= x < xEnd - 1 && yMin <= y <= yMax && 0 <= CellIndex(x, y) < SECTOR_COUNT && prefix[k] == t[CellIndex(x, y)];
          assert whole[k] == t[CellIndex(x, y)];
        } else {
          var y := yMin + (k - |prefix|);
          assert whole[k] == col[k - |prefix|];
          assert whole[k] == t[CellIndex(xEnd - 1, y)];
        }
      }
    }
  }

  lemma MulSucc(a: int, b: int)
    ensures (a + 1) * b == a * b + b
  {
  }

  lemma SlotBelow(x: int, y: int, xMin: int, yMin: int, yMax: int, xLast: int)
    requires xMin <= x < xLast && yMin <= y <= yMax
    ensures 0 <= Slot(x, y, xMin, yMin, Span(yMin, yMax)) < (xLast - xMin) * Span(yMin, yMax)
  {
    var ny := Span(yMin, yMax);
    MulLe(x - xMin + 1, xLast - xMin, ny);
    assert (x - xMin + 1) * ny == (x - xMin) * ny + ny;
  }

  /** The grid cell holding a point, clamped to the grid. */
  function CellOf(p: PointCh): (int, int)
  {
    (ClampInt(0, TruncateToInt((p.e - MIN_E) / INDIVIDUAL_SECTOR_WIDTH), NUMBER_OF_SECTOR_PER_LINE - 1),
     ClampInt(0, TruncateToInt((p.n - MIN_N) / INDIVIDUAL_SECTOR_HEIGHT), NUMBER_OF_SECTOR_PER_LINE - 1))
  }

  /** For a non-negative distance the cell range contains the centre's cell. */
  lemma CellRangeContainsCenter(c: real, d: real, side: real)
    requires side > 0.0 && d >= 0.0
    ensures CellRange(c, d, side).0 <= ClampInt(0, TruncateToInt(c / side), 127) <= CellRange(c, d, side).1
  {
    DivideMonotone(c - d, c, side);
    DivideMonotone(c, c + d, side);
    TruncateMonotone((c - d) / side, c / side);
    TruncateMonotone(c / side, (c + d) / side);
  }

  lemma DivideMonotone(a: real, b: real, side: real)
    requires a <= b && side > 0.0
    ensures a / side <= b / side
  {
    var qa, qb := a / side, b / side;
    assert qa * side == a && qb * side == b;
    if qa > qb {
      LinearStrict(side, qb, qa, qb * side, qa * side);
    }
  }

  /** Entry i of the table is the sector read from record i. */
  lemma TableAt(g: GraphSectors, index: int)
    requires Complete(g) && 0 <= index < SECTOR_COUNT
    ensures Table(g)[index] == SectorAt(g, index)
  {
  }

  /** For a non-negative distance the centre's own sector is in the result. */
  lemma AreaCoversCenter(g: GraphSectors, center: PointCh, distance: real)
    requires Complete(g) && distance >= 0.0
    ensures Table(g)[CellIndex(CellOf(center).0, CellOf(center).1)] in Area(g, center, distance)
  {
    var (xMin, xMax) := XRange(center, distance);
    var (yMin, yMax) := YRange(center, distance);
    CellRangeContainsCenter(center.e - MIN_E, distance, INDIVIDUAL_SECTOR_WIDTH);
    CellRangeContainsCenter(center.n - MIN_N, distance, INDIVIDUAL_SECTOR_HEIGHT);
    var (cx, cy) := CellOf(center);
    ColumnsLayout(Table(g), xMin, xMax + 1, yMin, yMax);
    var k := Slot(cx, cy, xMin, yMin, Span(yMin, yMax));
    assert Area(g, center, distance)[k] == Table(g)[CellIndex(cx, cy)];
  }
}
