/**
 * The City builder: it fixes the cell resolution, lays out the road grid
 * and fills the flat validity grid by pushing one boolean per cell.
 *
 * The road-hit comparison `currPos >= s || currPos <= e` is given to the
 * constructor as `hits` and is not interpreted here.
 */
module CityModel {
  import opened Options
  import opened Vectors
  import opened Roads
  import opened Transforms
  import opened Layout
  import opened GridSpec

  class City {
    var roadInfo: seq<Road>
    var cellSize: real        // smaller cell size, finer grid
    var invCellSize: real     // 1 / cellSize
    var validityGrid: seq<bool>
    var roadTransfs: seq<Mat4>
    const hits: HitTest

    ghost predicate Valid()
      reads this
    {
      Reciprocal(Dimensions())
    }

    function Dimensions(): Dims
      reads this
    {
      Dims(cellSize, invCellSize)
    }

    /**
     * Without an argument the cell size is 0.5; a cell size of 0 makes the
     * grid loop run forever, so callers must not pass it.
     */
    constructor (cellSize: Option<real>, hits: HitTest)
      requires cellSize != Some(0.0)
      ensures cellSize.None? ==> this.cellSize == 0.5 && invCellSize == 2.0
      ensures cellSize.Some? ==> this.cellSize == cellSize.value && invCellSize == 1.0 / cellSize.value
      ensures Valid() && this.hits == hits
      ensures roadInfo == GridRoads
      ensures roadTransfs == [RoadBox, RoadBox, RoadBox]
      ensures validityGrid == Grid(Dimensions(), GridRoads, hits)
    {
      if cellSize.None? {
        this.cellSize := 0.5;
        invCellSize := 2.0;
      } else {
        this.cellSize := cellSize.value;
        invCellSize := 1.0 / cellSize.value;
        assert cellSize.value * (1.0 / cellSize.value) == 1.0;
      }
      this.hits := hits;
      new;
      roadInfo := [];
      roadTransfs := DrawRoadGrid();
      validityGrid := [];
      GenerateValidityGrid();
    }

    /**
     * Appends three roads from (0, 0) to (1, 1) and returns one road-box
     * transform per road, all equal. The vertical-road loop that follows
     * in the source counts i from 0 while i < 0 and so never runs.
     */
    method DrawRoadGrid() returns (transfs: seq<Mat4>)
      modifies this`roadInfo
      ensures roadInfo == old(roadInfo) + GridRoads
      ensures transfs == [RoadBox, RoadBox, RoadBox]
    {
      transfs := [];
      var m := Identity;
      m := Rotate(m, PiTimes(0.5), Vec3(0.0, 1.0, 0.0));
      m := Translate(m, Vec3(0.0, 2.5, 0.0));
      m := Scale(m, Vec3(10.0, 1.0, 0.2));

      // The three horizontal roads, each with its own copy of the transform
      for i := 0 to 3
        invariant m == RoadBox
        invariant transfs == [RoadBox, RoadBox, RoadBox][..i]
        invariant roadInfo == old(roadInfo) + GridRoads[..i]
      {
        transfs := transfs + [m];
        roadInfo := roadInfo + [NewRoad(Some(Vec2(0.0, 0.0)), Some(Vec2(1.0, 1.0)))];
      }
    }

    /**
     * Walks i, and within it j, from -50 * invCellSize to 50 * invCellSize
     * in steps of cellSize and pushes, for each pair, whether no road hits
     * the position (i * cellSize, j * cellSize).
     */
    method GenerateValidityGrid()
      requires Valid()
      modifies this`validityGrid
      ensures validityGrid == old(validityGrid) + Grid(Dimensions(), roadInfo, hits)
    {
      var c, inv := cellSize, invCellSize;
      var d := Dims(c, inv);
      assert Reciprocal(d);
      ghost var n := RowLength(c);
      ghost var cells := Cells(d, roadInfo, hits);
      ghost var a: nat := 0;
      var i := -50.0 * inv;
      while i <= 50.0 * inv
        invariant a <= n && i == LoopValue(d, a)
        invariant c < 0.0 ==> a == 0
        invariant validityGrid == old(validityGrid) + Rows(cells, n, a)
        decreases n - a
      {
        LoopGuard(d, a);
        ScanRow(d, i, a);
        assert validityGrid == old(validityGrid) + (Rows(cells, n, a) + RowPrefix(cells, a, n));
        i := i + c;
        a := a + 1;
      }
      LoopGuard(d, a);
    }

    /**
     * One pass of the outer loop of generateValidityGrid: j walks the same
     * values as i, and each step pushes the validity of (i * cellSize,
     * j * cellSize).
     */
    method ScanRow(d: Dims, i: real, ghost a: nat)
      requires Reciprocal(d) && d == Dimensions()
      requires i == LoopValue(d, a)
      modifies this`validityGrid
      ensures validityGrid == old(validityGrid) + RowPrefix(Cells(d, roadInfo, hits), a, RowLength(d.cellSize))
    {
      var c, inv := d.cellSize, d.invCellSize;
      ghost var n := RowLength(c);
      ghost var cells := Cells(d, roadInfo, hits);
      ghost var b: nat := 0;
      var j := -50.0 * inv;
      while j <= 50.0 * inv
        invariant b <= n && j == LoopValue(d, b)
        invariant c < 0.0 ==> b == 0
        invariant validityGrid == old(validityGrid) + RowPrefix(cells, a, b)
        decreases n - b
      {
        LoopGuard(d, b);
        var currPos := WorldPos(d, i, j);
        assert currPos == CellPos(d, a, b);
        var currValid := CellIsValid(currPos);
        assert currValid == cells(a, b);
        validityGrid := validityGrid + [currValid];
        j := j + c;
        b := b + 1;
      }
      LoopGuard(d, b);
    }

    /**
     * The road scan of one cell: true unless some road hits the position.
     * The scan stops at the first road that hits; the result is the same
     * as testing every road.
     */
    method CellIsValid(currPos: Vec2) returns (currValid: bool)
      ensures currValid == !Blocked(roadInfo, hits, currPos)
    {
      currValid := true;
      for k := 0 to |roadInfo|
        invariant forall t | 0 <= t < k :: !RoadHits(hits, roadInfo[t], currPos)
      {
        var r := roadInfo[k];
        // Floored end points of road k
        var s := Floor(r.start);
        var e := Floor(r.end);
        if hits(currPos, s, e) {
          assert RoadHits(hits, roadInfo[k], currPos);
          currValid := false;
          break;
        }
      }
    }

    /**
     * Reads the flat grid at p[0] + (100 * invCellSize + 1) * p[1]. Any
     * other index gives `undefined`, on which `.valueOf()` throws, so the
     * index must be a whole number inside the grid.
     */
    function GetValidityAt(p: Vec2): (v: bool)
      reads this
      requires IsIndexInto(ReaderIndex(invCellSize, p), |validityGrid|)
      ensures v == validityGrid[ReaderIndex(invCellSize, p).Floor]
    {
      validityGrid[ReaderIndex(invCellSize, p).Floor]
    }
  }
}
