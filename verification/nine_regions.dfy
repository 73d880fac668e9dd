/**
 The 3x3 partition of a room (`calculate_nine_region_bounds`) and the lookup of
 the cell holding a point (`get_region`).
 */
module NineRegions {
  import opened Wrappers
  import opened Geometry

  /** Rows of cells, as the source's list of lists of bounds records. */
  type Grid = seq<seq<Region>>

  /** At least three rows of at least three cells: what `get_region` indexes. */
  predicate IsGrid(b: Grid) {
    |b| >= 3 && forall i :: 0 <= i < 3 ==> |b[i]| >= 3
  }

  /**
   Cell boundary k (0 to 3) along one axis running from s to e. Boundary 0 is s,
   boundary 3 is e, and the inner two are s plus or minus k thirds of the signed
   distance, the sign chosen by whether e is strictly beyond s. When e <= s the
   minus branch subtracts a non-positive third, so the inner boundaries fall
   beyond s on the side away from e.
   */
  function Edge(s: real, e: real, k: nat): real
    requires k <= 3
  {
    var diff := (e - s) / 3.0;
    if k == 0 then s
    else if k == 3 then e
    else if e > s then s + (k as real) * diff
    else s - (k as real) * diff
  }

  /** The cell in row `row` (along z) and column `col` (along x); its y is the start's y. */
  function Cell(start: Position, end: Position, row: nat, col: nat): Region
    requires row < 3 && col < 3
  {
    Region(Edge(start.x, end.x, col), start.y, Edge(start.z, end.z, row),
           Edge(start.x, end.x, col + 1), start.y, Edge(start.z, end.z, row + 1))
  }

  /**
   `calculate_nine_region_bounds`: three rows of three cells that share their
   edges, the first cell starting at the start position, the last column ending
   at the end's x and the last row ending at the end's z.
   */
  function NineRegionBounds(start: Position, end: Position): (b: Grid)
    ensures |b| == 3 && forall i :: 0 <= i < 3 ==> |b[i]| == 3
    ensures forall i, j :: 0 <= i < 3 && 0 <= j < 3 ==> b[i][j].startY == start.y && b[i][j].endY == start.y
    ensures b[0][0].startX == start.x && b[0][0].startZ == start.z
    ensures forall i :: 0 <= i < 3 ==> b[i][2].endX == end.x && b[i][0].startX == start.x
    ensures forall j :: 0 <= j < 3 ==> b[2][j].endZ == end.z && b[0][j].startZ == start.z
    // neighbours share an edge: across a row in x, down a column in z
    ensures forall i, j :: 0 <= i < 3 && 0 <= j < 2 ==> b[i][j].endX == b[i][j + 1].startX
    ensures forall i, j :: 0 <= i < 2 && 0 <= j < 3 ==> b[i][j].endZ == b[i + 1][j].startZ
    // a column has one x extent, a row has one z extent
    ensures forall i, j :: 0 <= i < 3 && 0 <= j < 3 ==>
      b[i][j].startX == b[0][j].startX && b[i][j].endX == b[0][j].endX
      && b[i][j].startZ == b[i][0].startZ && b[i][j].endZ == b[i][0].endZ
  {
    [[Cell(start, end, 0, 0), Cell(start, end, 0, 1), Cell(start, end, 0, 2)],
     [Cell(start, end, 1, 0), Cell(start, end, 1, 1), Cell(start, end, 1, 2)],
     [Cell(start, end, 2, 0), Cell(start, end, 2, 1), Cell(start, end, 2, 2)]]
  }

  /** Cell number k (1 to 9) in row-major order, as `get_region` numbers them. */
  function CellAt(b: Grid, k: int): Region
    requires IsGrid(b) && 1 <= k <= 9
  {
    b[(k - 1) / 3][(k - 1) % 3]
  }

  /** Scans cells k, k+1, ..., 9 and answers the number of the first that holds p. */
  function FirstFrom(p: Position, b: Grid, k: int): (r: Option<int>)
    requires IsGrid(b) && 1 <= k <= 10
    ensures r.Some? ==> k <= r.value <= 9 && IsWithinRegion(p, CellAt(b, r.value))
    ensures r.Some? ==> forall j :: k <= j < r.value ==> !IsWithinRegion(p, CellAt(b, j))
    ensures r.None? <==> forall j :: k <= j <= 9 ==> !IsWithinRegion(p, CellAt(b, j))
    decreases 10 - k
  {
    if k == 10 then None
    else if IsWithinRegion(p, CellAt(b, k)) then Some(k)
    else FirstFrom(p, b, k + 1)
  }

  /**
   `get_region`: the 1-based number of the first cell, in row-major order, that
   holds the point, or None when no cell does.
   */
  function GetRegion(p: Position, b: Grid): (r: Option<int>)
    requires IsGrid(b)
    ensures r.Some? ==> 1 <= r.value <= 9 && IsWithinRegion(p, CellAt(b, r.value))
    ensures r.Some? ==> forall j :: 1 <= j < r.value ==> !IsWithinRegion(p, CellAt(b, j))
    ensures r.None? <==> forall j :: 1 <= j <= 9 ==> !IsWithinRegion(p, CellAt(b, j))
  {
    FirstFrom(p, b, 1)
  }

  /** The point lies in the outer rectangle spanned by the start and end positions. */
  predicate InRoom(p: Position, start: Position, end: Position) {
    IsWithinRegion(p, Spanned(start, end))
  }

  /**
   The first of the three bands [Edge k, Edge k+1] along one axis that holds v,
   or 3 when none does.
   */
  function Band(s: real, e: real, v: real): (r: nat)
    ensures r <= 3
    ensures r < 3 ==> Between(v, Edge(s, e, r), Edge(s, e, r + 1))
    ensures forall k: nat :: k < r ==> !Between(v, Edge(s, e, k), Edge(s, e, k + 1))
  {
    if Between(v, Edge(s, e, 0), Edge(s, e, 1)) then 0
    else if Between(v, Edge(s, e, 1), Edge(s, e, 2)) then 1
    else if Between(v, Edge(s, e, 2), Edge(s, e, 3)) then 2
    else 3
  }

  /** A cell of the partition holds a point exactly when its column band holds x and its row band holds z. */
  lemma CellHolds(start: Position, end: Position, p: Position, k: int)
    requires 1 <= k <= 9
    ensures IsGrid(NineRegionBounds(start, end))
    ensures IsWithinRegion(p, CellAt(NineRegionBounds(start, end), k)) <==>
      Between(p.x, Edge(start.x, end.x, (k - 1) % 3), Edge(start.x, end.x, (k - 1) % 3 + 1))
      && Between(p.z, Edge(start.z, end.z, (k - 1) / 3), Edge(start.z, end.z, (k - 1) / 3 + 1))
  {
    var b := NineRegionBounds(start, end);
    assert CellAt(b, k) == Cell(start, end, (k - 1) / 3, (k - 1) % 3);
  }

  /** No cell numbered before the one the bands name holds the point. */
  lemma CellNotBeforeBands(start: Position, end: Position, p: Position, j: int)
    requires 1 <= j <= 9
    ensures IsGrid(NineRegionBounds(start, end))
    ensures IsWithinRegion(p, CellAt(NineRegionBounds(start, end), j)) ==>
      var col := Band(start.x, end.x, p.x);
      var row := Band(start.z, end.z, p.z);
      row < 3 && col < 3 && 3 * row + col + 1 <= j
  {
    var q, m := (j - 1) / 3, (j - 1) % 3;
    assert j - 1 == 3 * q + m && 0 <= q < 3 && 0 <= m < 3;
    CellHolds(start, end, p, j);
  }

  /**
   The cell `get_region` reports on a partition is found axis by axis: its row is
   the first z band holding the point and its column the first x band, and there
   is none when either axis has no band holding the point.
   */
  lemma RegionByBands(start: Position, end: Position, p: Position)
    ensures IsGrid(NineRegionBounds(start, end))
    ensures GetRegion(p, NineRegionBounds(start, end)) ==
      var col := Band(start.x, end.x, p.x);
      var row := Band(start.z, end.z, p.z);
      if col < 3 && row < 3 then Some(3 * row + col + 1) else None
  {
    var b := NineRegionBounds(start, end);
    var col := Band(start.x, end.x, p.x);
    var row := Band(start.z, end.z, p.z);
    if col < 3 && row < 3 {
      var k := 3 * row + col + 1;
      CellHolds(start, end, p, k);
      assert (k - 1) / 3 == row && (k - 1) % 3 == col;
      forall j | 1 <= j < k
        ensures !IsWithinRegion(p, CellAt(b, j))
      {
        CellNotBeforeBands(start, end, p, j);
      }
      FirstHolder(p, b, k);
    } else {
      forall j | 1 <= j <= 9
        ensures !IsWithinRegion(p, CellAt(b, j))
      {
        CellNotBeforeBands(start, end, p, j);
      }
    }
  }

  /** `get_region` answers the cell that holds the point when no earlier cell does. */
  lemma FirstHolder(p: Position, b: Grid, k: int)
    requires IsGrid(b) && 1 <= k <= 9
    requires IsWithinRegion(p, CellAt(b, k))
    requires forall j :: 1 <= j < k ==> !IsWithinRegion(p, CellAt(b, j))
    ensures GetRegion(p, b) == Some(k)
  {
  }

  /** Every point of the room lies in some band of each axis, whichever way the axis runs. */
  lemma BandCovers(s: real, e: real, v: real)
    requires Between(v, s, e)
    ensures Band(s, e, v) < 3
  {
    if s < e {
      assert Edge(s, e, 2) <= e;
    } else {
      assert Edge(s, e, 2) >= s;
    }
  }

  /**
   The nine cells cover the room: every point of the rectangle spanned by the
   start and end positions lies in some cell, for every start and end, so
   `get_region` finds it.
   */
  lemma NineRegionsCoverRoom(start: Position, end: Position, p: Position)
    requires InRoom(p, start, end)
    ensures GetRegion(p, NineRegionBounds(start, end)).Some?
  {
    BandCovers(start.x, end.x, p.x);
    BandCovers(start.z, end.z, p.z);
    RegionByBands(start, end, p);
  }

  /** On an ascending axis the four boundaries are s + k(e - s)/3, strictly increasing. */
  lemma AscendingEdges(s: real, e: real)
    requires s < e
    ensures forall k: nat :: k <= 3 ==> Edge(s, e, k) == s + (k as real) * (e - s) / 3.0
    ensures Edge(s, e, 0) < Edge(s, e, 1) < Edge(s, e, 2) < Edge(s, e, 3)
  {
  }

  /**
   On a descending (or flat) axis the inner boundaries are s + k(s - e)/3: they
   move away from e as k grows, beyond s.
   */
  lemma DescendingEdges(s: real, e: real)
    requires e <= s
    ensures forall k: nat :: 1 <= k <= 2 ==> Edge(s, e, k) == s + (k as real) * (s - e) / 3.0
    ensures Edge(s, e, 0) <= Edge(s, e, 1) <= Edge(s, e, 2)
  {
  }

  /** On an ascending axis the first band holding a point of [s, e] is the first third reaching it. */
  lemma AscendingBand(s: real, e: real, v: real)
    requires s < e && s <= v <= e
    ensures Band(s, e, v) == if v <= Edge(s, e, 1) then 0 else if v <= Edge(s, e, 2) then 1 else 2
  {
    AscendingEdges(s, e);
  }

  /**
   When the end exceeds the start on both axes, the cells' corners sit at the
   thirds of the room.
   */
  lemma AscendingCells(start: Position, end: Position)
    requires start.x < end.x && start.z < end.z
    ensures
      var b := NineRegionBounds(start, end);
      forall i, j :: 0 <= i < 3 && 0 <= j < 3 ==>
        b[i][j].startX == start.x + (j as real) * (end.x - start.x) / 3.0
        && b[i][j].endX == start.x + ((j + 1) as real) * (end.x - start.x) / 3.0
        && b[i][j].startZ == start.z + (i as real) * (end.z - start.z) / 3.0
        && b[i][j].endZ == start.z + ((i + 1) as real) * (end.z - start.z) / 3.0
  {
    AscendingEdges(start.x, end.x);
    AscendingEdges(start.z, end.z);
  }

  /**
   When the end exceeds the start on both axes, a point of the room gets the
   cell whose row and column are the first thirds reaching its z and x.
   */
  lemma AscendingRegion(start: Position, end: Position, p: Position)
    requires start.x < end.x && start.z < end.z
    requires InRoom(p, start, end)
    ensures
      var col := if p.x <= Edge(start.x, end.x, 1) then 0 else if p.x <= Edge(start.x, end.x, 2) then 1 else 2;
      var row := if p.z <= Edge(start.z, end.z, 1) then 0 else if p.z <= Edge(start.z, end.z, 2) then 1 else 2;
      GetRegion(p, NineRegionBounds(start, end)) == Some(3 * row + col + 1)
  {
    AscendingBand(start.x, end.x, p.x);
    AscendingBand(start.z, end.z, p.z);
    RegionByBands(start, end, p);
  }

  /**
   When neither axis descends, a point has a cell exactly when it lies in the
   room: the cells never reach outside the spanned rectangle.
   */
  lemma RegionIffInRoom(start: Position, end: Position, p: Position)
    requires start.x <= end.x && start.z <= end.z
    ensures GetRegion(p, NineRegionBounds(start, end)).Some? <==> InRoom(p, start, end)
  {
    RegionByBands(start, end, p);
    if InRoom(p, start, end) {
      NineRegionsCoverRoom(start, end, p);
    }
  }

  /**
   On a descending x axis the two inner column boundaries land beyond the start,
   on the side away from the end, so a room point strictly short of the start's
   x is found only in the last column: cell 3, 6 or 9.
   */
  lemma DescendingColumns(start: Position, end: Position, p: Position)
    requires end.x < start.x
    requires InRoom(p, start, end) && p.x < start.x
    ensures start.x < Edge(start.x, end.x, 1) < Edge(start.x, end.x, 2)
    ensures GetRegion(p, NineRegionBounds(start, end)) in {Some(3), Some(6), Some(9)}
  {
    BandCovers(start.z, end.z, p.z);
    RegionByBands(start, end, p);
  }

  /**
   On a descending z axis the two inner row boundaries land beyond the start,
   so a room point strictly short of the start's z is found only in the last
   row: cell 7, 8 or 9.
   */
  lemma DescendingRows(start: Position, end: Position, p: Position)
    requires end.z < start.z
    requires InRoom(p, start, end) && p.z < start.z
    ensures start.z < Edge(start.z, end.z, 1) < Edge(start.z, end.z, 2)
    ensures GetRegion(p, NineRegionBounds(start, end)) in {Some(7), Some(8), Some(9)}
  {
    BandCovers(start.x, end.x, p.x);
    RegionByBands(start, end, p);
  }

  /** Absolute value of a real. */
  function Abs(v: real): real { if v < 0.0 then -v else v }

  /**
   One formula for every room, whichever way each axis runs: the boundary k < 3
   of an axis sits k thirds of the axis's length from the start, on the side
   away from the end when the axis descends; the last boundary is the end.
   */
  lemma UniformEdges(start: Position, end: Position)
    ensures
      var b := NineRegionBounds(start, end);
      && (forall i, j :: 0 <= i < 3 && 0 <= j < 3 ==>
            b[i][j].startX == start.x + (j as real) * Abs(end.x - start.x) / 3.0
            && b[i][j].startZ == start.z + (i as real) * Abs(end.z - start.z) / 3.0)
      && (forall i, j :: 0 <= i < 3 && 0 <= j < 2 ==>
            b[i][j].endX == start.x + ((j + 1) as real) * Abs(end.x - start.x) / 3.0
            && b[j][i].endZ == start.z + ((j + 1) as real) * Abs(end.z - start.z) / 3.0)
      && (forall i :: 0 <= i < 3 ==> b[i][2].endX == end.x && b[2][i].endZ == end.z)
  {
  }

  /**
   On a descending x axis the first column still meets the room on the line
   x = start.x: a room point on that line is reported in column 0, as cell 1, 4
   or 7.
   */
  lemma DescendingStartLine(start: Position, end: Position, p: Position)
    requires end.x < start.x
    requires InRoom(p, start, end) && p.x == start.x
    ensures GetRegion(p, NineRegionBounds(start, end)) in {Some(1), Some(4), Some(7)}
  {
    BandCovers(start.z, end.z, p.z);
    RegionByBands(start, end, p);
  }

  /**
   On a descending x axis the first cell reaches outside the room: the point on
   its far x edge at the start's z is reported as cell 1 though the room does
   not hold it.
   */
  lemma DescendingCellLeavesRoom(start: Position, end: Position)
    requires end.x < start.x
    ensures
      var q := Position(Edge(start.x, end.x, 1), start.y, start.z);
      GetRegion(q, NineRegionBounds(start, end)) == Some(1) && !InRoom(q, start, end)
  {
    var q := Position(Edge(start.x, end.x, 1), start.y, start.z);
    RegionByBands(start, end, q);
  }
}
