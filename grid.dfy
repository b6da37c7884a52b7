/**
 * Row-major layout of a flat sequence built by two nested loops: the outer
 * loop runs a over 0 .. n-1, the inner loop runs b over 0 .. n-1, and each
 * inner pass appends cell(a, b). Nothing here depends on what a cell is.
 */
module Layout {

  /** The values appended by the first b passes of the inner loop, for outer pass a */
  function RowPrefix<T>(cell: (nat, nat) -> T, a: nat, b: nat): seq<T> {
    if b == 0 then [] else RowPrefix(cell, a, b - 1) + [cell(a, b - 1)]
  }

  /** The values appended by the first a passes of the outer loop, n per pass */
  function Rows<T>(cell: (nat, nat) -> T, n: nat, a: nat): seq<T> {
    if a == 0 then [] else Rows(cell, n, a - 1) + RowPrefix(cell, a - 1, n)
  }

  lemma {:induction false} RowPrefixAt<T>(cell: (nat, nat) -> T, a: nat, b: nat, b': nat)
    requires b' < b
    ensures |RowPrefix(cell, a, b)| == b
    ensures RowPrefix(cell, a, b)[b'] == cell(a, b')
  {
    if b' < b - 1 {
      RowPrefixAt(cell, a, b - 1, b');
    } else if b > 1 {
      RowPrefixAt(cell, a, b - 1, 0);
    }
  }

  lemma RowPrefixLength<T>(cell: (nat, nat) -> T, a: nat, b: nat)
    ensures |RowPrefix(cell, a, b)| == b
  {
    if b > 0 {
      RowPrefixAt(cell, a, b, 0);
    }
  }

  lemma {:induction false} RowsLength<T>(cell: (nat, nat) -> T, n: nat, a: nat)
    ensures |Rows(cell, n, a)| == a * n
  {
    if a > 0 {
      RowsLength(cell, n, a - 1);
      RowPrefixLength(cell, a - 1, n);
      assert (a - 1) * n + n == a * n;
    }
  }

  /** The value for outer pass a' and inner pass b sits at a' * n + b. */
  lemma {:induction false} RowsAt<T>(cell: (nat, nat) -> T, n: nat, a: nat, a': nat, b: nat)
    requires a' < a && b < n
    ensures a' * n + b < |Rows(cell, n, a)|
    ensures Rows(cell, n, a)[a' * n + b] == cell(a', b)
  {
    var prev, row := Rows(cell, n, a - 1), RowPrefix(cell, a - 1, n);
    assert Rows(cell, n, a) == prev + row;
    RowPrefixLength(cell, a - 1, n);
    if a' < a - 1 {
      RowsAt(cell, n, a - 1, a', b);
    } else {
      RowsLength(cell, n, a - 1);
      assert a' * n + b == |prev| + b;
      RowPrefixAt(cell, a - 1, n, b);
    }
  }

  /** Every appended value is the cell of some pair of passes. */
  lemma {:induction false} RowsCover<T>(cell: (nat, nat) -> T, n: nat, a: nat, k: nat)
    requires k < |Rows(cell, n, a)|
    ensures exists a': nat, b: nat :: a' < a && b < n && Rows(cell, n, a)[k] == cell(a', b)
  {
    var prev := Rows(cell, n, a - 1);
    RowPrefixLength(cell, a - 1, n);
    if k < |prev| {
      RowsCover(cell, n, a - 1, k);
    } else {
      var b := k - |prev|;
      RowPrefixAt(cell, a - 1, n, b);
      assert Rows(cell, n, a)[k] == cell(a - 1, b);
    }
  }
}

/**
 * What generateValidityGrid appends, as a function of the cell size, the
 * road list and the road-hit test, and where getValidityAt reads.
 *
 * The loop variable i starts at -50 * invCellSize and grows by cellSize
 * while it is at most 50 * invCellSize; its k-th value is LoopValue(d, k).
 * The same holds for j. The cell visited for the a-th i and the b-th j has
 * world position (i * cellSize, j * cellSize) and its entry is true when no
 * road hits that position.
 */
module GridSpec {
  import opened Vectors
  import opened Roads
  import opened Layout

  /**
   * The comparison `currPos >= s || currPos <= e` of generateValidityGrid,
   * applied to a cell position and the floored start and end of one road.
   */
  type HitTest = (Vec2, Vec2, Vec2) -> bool

  /** The cell size and the reciprocal the city stores beside it */
  datatype Dims = Dims(cellSize: real, invCellSize: real)

  /** invCellSize is 1 / cellSize */
  predicate Reciprocal(d: Dims) {
    d.cellSize * d.invCellSize == 1.0
  }

  /** The k-th value of the loop variable i (or j): it starts at -50 * invCellSize and grows by cellSize */
  function LoopValue(d: Dims, k: nat): real {
    if k == 0 then -50.0 * d.invCellSize else LoopValue(d, k - 1) + d.cellSize
  }

  /**
   * How many values i (or j) takes: 100 / cellSize^2 + 1, rounded down,
   * for a positive cell size; none for a negative one, whose start
   * already exceeds the bound.
   */
  function RowLength(cellSize: real): nat {
    if cellSize > 0.0 then
      assert cellSize * cellSize > 0.0;
      (100.0 / (cellSize * cellSize)).Floor + 1
    else
      0
  }

  /** The world position (i * cellSize, j * cellSize) */
  function WorldPos(d: Dims, i: real, j: real): Vec2 {
    Vec2(i * d.cellSize, j * d.cellSize)
  }

  /** World position of the cell for the a-th i and the b-th j */
  function CellPos(d: Dims, a: nat, b: nat): Vec2 {
    WorldPos(d, LoopValue(d, a), LoopValue(d, b))
  }

  predicate RoadHits(hits: HitTest, r: Road, pos: Vec2) {
    hits(pos, Floor(r.start), Floor(r.end))
  }

  /** Some road of the list hits the position. */
  predicate Blocked(roads: seq<Road>, hits: HitTest, pos: Vec2) {
    exists k :: 0 <= k < |roads| && RoadHits(hits, roads[k], pos)
  }

  /** The value pushed for the a-th i and the b-th j */
  function Entry(d: Dims, roads: seq<Road>, hits: HitTest, a: nat, b: nat): bool {
    !Blocked(roads, hits, CellPos(d, a, b))
  }

  function Cells(d: Dims, roads: seq<Road>, hits: HitTest): (nat, nat) -> bool {
    (a: nat, b: nat) => Entry(d, roads, hits, a, b)
  }

  /** Everything one generateValidityGrid call pushes */
  function Grid(d: Dims, roads: seq<Road>, hits: HitTest): seq<bool> {
    Rows(Cells(d, roads, hits), RowLength(d.cellSize), RowLength(d.cellSize))
  }

  /** The flat index getValidityAt computes: p[0] + (100 * invCellSize + 1) * p[1] */
  function ReaderIndex(invCellSize: real, p: Vec2): real {
    p.x + (100.0 * invCellSize + 1.0) * p.y
  }

  /** A JavaScript array index in range: a whole number from 0 below n */
  predicate IsIndexInto(r: real, n: nat) {
    IsIntegral(r) && 0.0 <= r < n as real
  }

  // ---------------------------------------------------------------------
  // The loop bound

  /** The k-th loop value in closed form */
  lemma {:induction false} LoopValueClosed(d: Dims, k: nat)
    ensures LoopValue(d, k) == -50.0 * d.invCellSize + (k as real) * d.cellSize
  {
    if k > 0 {
      LoopValueClosed(d, k - 1);
      assert (k as real) * d.cellSize == ((k - 1) as real) * d.cellSize + d.cellSize;
    }
  }

  lemma MulPositive(x: real, y: real, c: real)
    requires c > 0.0
    ensures x <= y <==> x * c <= y * c
  {
  }

  lemma DivPositive(x: real, y: real, p: real)
    requires p > 0.0
    ensures x * p <= y <==> x <= y / p
  {
    MulPositive(x, y / p, p);
    assert y / p * p == y;
  }

  /** For a positive cell size, the guard at -50 * inv + x * c is x <= 100 / c^2. */
  lemma GuardPositive(c: real, inv: real, x: real)
    requires c > 0.0 && c * inv == 1.0
    ensures -50.0 * inv + x * c <= 50.0 * inv <==> x <= 100.0 / (c * c)
  {
    MulPositive(x * c, 100.0 * inv, c);
    assert 100.0 * inv * c == 100.0;
    assert x * c * c == x * (c * c);
    DivPositive(x, 100.0, c * c);
  }

  /**
   * The guard `i <= 50 * invCellSize` holds at the k-th value of i exactly
   * when k is below RowLength. For a negative cell size only the first
   * test is ever made, and it fails.
   */
  lemma LoopGuard(d: Dims, k: nat)
    requires Reciprocal(d)
    requires d.cellSize < 0.0 ==> k == 0
    ensures LoopValue(d, k) <= 50.0 * d.invCellSize <==> k < RowLength(d.cellSize)
  {
    var c, inv := d.cellSize, d.invCellSize;
    LoopValueClosed(d, k);
    if c > 0.0 {
      GuardPositive(c, inv, k as real);
      var q := 100.0 / (c * c);
      assert k as real <= q <==> k <= q.Floor;
    } else {
      assert c < 0.0 && inv < 0.0;
    }
  }

  // ---------------------------------------------------------------------
  // Size and content of what is pushed

  /** One call pushes RowLength^2 values. */
  lemma GridLength(d: Dims, roads: seq<Road>, hits: HitTest)
    ensures |Grid(d, roads, hits)| == RowLength(d.cellSize) * RowLength(d.cellSize)
  {
    RowsLength(Cells(d, roads, hits), RowLength(d.cellSize), RowLength(d.cellSize));
  }

  /** The value for the a-th i and the b-th j sits at a * RowLength + b. */
  lemma GridEntry(d: Dims, roads: seq<Road>, hits: HitTest, a: nat, b: nat)
    requires a < RowLength(d.cellSize) && b < RowLength(d.cellSize)
    ensures a * RowLength(d.cellSize) + b < |Grid(d, roads, hits)|
    ensures Grid(d, roads, hits)[a * RowLength(d.cellSize) + b] == Entry(d, roads, hits, a, b)
  {
    RowsAt(Cells(d, roads, hits), RowLength(d.cellSize), RowLength(d.cellSize), a, b);
  }

  /**
   * The value for the a-th i and the b-th j is true exactly when no road
   * hits that cell's position.
   */
  lemma GridAt(d: Dims, roads: seq<Road>, hits: HitTest, a: nat, b: nat)
    requires a < RowLength(d.cellSize) && b < RowLength(d.cellSize)
    ensures a * RowLength(d.cellSize) + b < |Grid(d, roads, hits)|
    ensures Grid(d, roads, hits)[a * RowLength(d.cellSize) + b]
        <==> forall k | 0 <= k < |roads| :: !hits(CellPos(d, a, b), Floor(roads[k].start), Floor(roads[k].end))
  {
    GridEntry(d, roads, hits, a, b);
  }

  /** With no roads every cell is buildable. */
  lemma NoRoadsAllValid(d: Dims, hits: HitTest, k: nat)
    requires k < |Grid(d, [], hits)|
    ensures Grid(d, [], hits)[k]
  {
    RowsCover(Cells(d, [], hits), RowLength(d.cellSize), RowLength(d.cellSize), k);
  }

  /** When any one road hits every position, no cell is buildable. */
  lemma AllBlockedAllInvalid(d: Dims, roads: seq<Road>, hits: HitTest, j: nat, k: nat)
    requires j < |roads|
    requires forall pos :: RoadHits(hits, roads[j], pos)
    requires k < |Grid(d, roads, hits)|
    ensures !Grid(d, roads, hits)[k]
  {
    var n := RowLength(d.cellSize);
    RowsCover(Cells(d, roads, hits), n, n, k);
    var a': nat, b: nat :| a' < n && b < n && Grid(d, roads, hits)[k] == Cells(d, roads, hits)(a', b);
    assert RoadHits(hits, roads[j], CellPos(d, a', b));
  }

  // ---------------------------------------------------------------------
  // Where the reader looks

  /**
   * A flat index that works out to a * RowLength + b is a valid index and
   * holds the entry for the a-th i and the b-th j.
   */
  lemma IndexAt(d: Dims, roads: seq<Road>, hits: HitTest, r: real, a: nat, b: nat)
    requires a < RowLength(d.cellSize) && b < RowLength(d.cellSize)
    requires r == (a * RowLength(d.cellSize) + b) as real
    ensures IsIndexInto(r, |Grid(d, roads, hits)|)
    ensures Grid(d, roads, hits)[r.Floor] == Entry(d, roads, hits, a, b)
  {
    GridEntry(d, roads, hits, a, b);
  }

  /**
   * The reader's stride 100 * invCellSize + 1 equals the number of values
   * per row only at cell size 1.
   */
  lemma StrideOnlyAtOne(c: real, inv: real)
    requires c > 0.0 && c * inv == 1.0
    requires 100.0 * inv + 1.0 == RowLength(c) as real
    ensures c == 1.0
  {
  }

  /** At the default cell size 0.5 a row holds 401 values, but the reader strides by 201. */
  lemma DefaultWidths(d: Dims)
    requires d == Dims(0.5, 2.0)
    ensures RowLength(d.cellSize) == 401
    ensures ReaderIndex(d.invCellSize, Vec2(0.0, 1.0)) == 201.0
  {
    assert 100.0 / (d.cellSize * d.cellSize) == 400.0;
  }

  /** At cell size 1 the reader's point (b, a) is the flat index a * 101 + b. */
  lemma UnitReaderIndex(a: nat, b: nat)
    ensures ReaderIndex(1.0, Vec2(b as real, a as real)) == (a * 101 + b) as real
  {
  }

  /**
   * At cell size 1 the reader's stride equals the row length: the point
   * (b, a) reads the entry for the a-th i and the b-th j.
   */
  lemma UnitCellReaderMatches(d: Dims, roads: seq<Road>, hits: HitTest, a: nat, b: nat)
    requires d == Dims(1.0, 1.0)
    requires a < 101 && b < 101
    ensures var r := ReaderIndex(d.invCellSize, Vec2(b as real, a as real));
      && IsIndexInto(r, |Grid(d, roads, hits)|)
      && Grid(d, roads, hits)[r.Floor] == Entry(d, roads, hits, a, b)
  {
    assert RowLength(d.cellSize) == 101 by {
      assert 100.0 / (d.cellSize * d.cellSize) == 100.0;
    }
    UnitReaderIndex(a, b);
    IndexAt(d, roads, hits, ReaderIndex(d.invCellSize, Vec2(b as real, a as real)), a, b);
  }

  /**
   * At the default cell size the point (0, 1) reads the 202nd value of the
   * first row, not the first value of the second row.
   */
  lemma DefaultReaderStraysWithinRow(d: Dims, roads: seq<Road>, hits: HitTest)
    requires d == Dims(0.5, 2.0)
    ensures var r := ReaderIndex(d.invCellSize, Vec2(0.0, 1.0));
      && IsIndexInto(r, |Grid(d, roads, hits)|)
      && Grid(d, roads, hits)[r.Floor] == Entry(d, roads, hits, 0, 201)
  {
    DefaultWidths(d);
    IndexAt(d, roads, hits, ReaderIndex(d.invCellSize, Vec2(0.0, 1.0)), 0, 201);
  }

  /**
   * The cell the default reader lands on for (0, 1) has position
   * (-50, 0.25); the first cell of the second row has (-49.75, -50).
   */
  lemma DefaultStrayPositions(d: Dims)
    requires d == Dims(0.5, 2.0)
    ensures CellPos(d, 0, 201) == Vec2(-50.0, 0.25)
    ensures CellPos(d, 1, 0) == Vec2(-49.75, -50.0)
  {
    LoopValueClosed(d, 201);
    LoopValueClosed(d, 1);
  }
}
