# City validity grid, modelled in Dafny

This project models the `City` builder of a procedural-city renderer
(`src/City.ts`) and its `Road` helper. A city fixes a cell size, lays down
a grid of roads, and fills a flat boolean *validity grid* that says, cell by
cell, whether a building may stand there. A reader maps a 2D point back to
an entry of that flat grid.

Modules:

- `Options`, `Vectors` (`vectors.dfy`): optional arguments, and the
  gl-matrix `vec2`/`vec3` values as pairs and triples of reals.
- `Roads` (`roads.dfy`): the `Road` record, its constructor and
  `Road.floor`.
- `Transforms` (`transforms.dfy`): the gl-matrix `mat4` values, kept as the
  chain of gl-matrix calls that built them.
- `Layout`, `GridSpec` (`grid.dfy`): the specification of what
  `generateValidityGrid` pushes. `Layout` is the row-major order that two
  nested push loops produce. `GridSpec` covers three things:
  - the values the loop variable takes and how many there are;
  - the entry for each cell;
  - where `getValidityAt` reads.
- `CityModel` (`city.dfy`): the `City` class, with the fields the source
  assigns. Its methods push onto those fields in loops, as the source does.
  `DrawRoadGrid` is proved against the road and transform constants of
  `Roads` and `Transforms`; the grid methods are proved against the
  `GridSpec` functions.

The road-hit comparison `currPos >= s || currPos <= e` is the `hits`
parameter, of type `HitTest`. The constructor takes it and the city keeps
it as a constant. The model states every result in terms of `hits`.

The loop variable `i` (and likewise `j`) starts at `-50 * invCellSize` and
grows by `cellSize` while `i <= 50 * invCellSize`. In the model it is a real
driven exactly as in the source, with a ghost counter beside it:
- its k-th value is `LoopValue(d, k) = -50 * invCellSize + k * cellSize`;
- `LoopGuard` shows the guard holds exactly for `k < RowLength(cellSize)`;
- `RowLength(cellSize)` is `floor(100 / cellSize^2) + 1` for a positive
  cell size, which is 401 at the default 0.5.

The reader strides by `100 * invCellSize + 1`, which is 201 at the default.
The two agree only at cell size 1. The model states both as written:
- `StrideOnlyAtOne`: for a positive cell size, the reader's stride equals
  the row length only when the cell size is 1;
- `UnitCellReaderMatches`: at cell size 1, point (b, a) reads the entry of
  cell (a, b);
- `DefaultReaderStraysWithinRow`: at the default, point (0, 1) reads entry
  201 of the first row;
- `DefaultStrayPositions`: entry 201 of the first row lies at (-50, 0.25),
  and the first entry of the second row at (-49.75, -50).

`ScanRow` is the inner `j` loop of `generateValidityGrid`, written as a
method of its own. It is the same loop with the same pushes; it is
separated only so that each loop is proved with its own invariant.

A cell size of 0 is excluded: the source's loop then never ends. A negative
cell size is allowed. Then `invCellSize` is negative too, the first guard
test already fails, and no entry is pushed.

## Model

| member | source | states |
|---|---|---|
| CityModel.City.constructor | src/City.ts:10-24 | Without an argument the cell size is 0.5 and its inverse 2.0; otherwise the inverse is 1 / cellSize. In both cases cellSize * invCellSize == 1. The road list is exactly the three grid roads, the transform list three road-box matrices, and the validity grid exactly `Grid` of the cell size and those roads. |
| CityModel.City.DrawRoadGrid | src/City.ts:28-60 | Appends exactly three roads from (0, 0) to (1, 1) to the road list and leaves what was there in place. Returns three transforms, all the same road-box matrix. The vertical loop adds nothing. |
| CityModel.City.GenerateValidityGrid | src/City.ts:62-83 | Keeps the existing entries and appends exactly `Grid(cell size, roads, hits)`, i.e. the rows for every value of i, each holding the entries for every value of j, in that order. |
| CityModel.City.ScanRow | src/City.ts:64-81 | For the a-th value of i, appends one entry per value of j, in order, each the `Entry` of that cell; earlier entries are kept. |
| CityModel.City.CellIsValid | src/City.ts:66-78 | The result is true exactly when no road in the list hits the position. Stopping at the first hit gives the same answer as testing every road. |
| CityModel.City.GetValidityAt | src/City.ts:86-89 | For an index `p[0] + (100 * invCellSize + 1) * p[1]` that is a whole number inside the grid, returns the grid entry there; the grid is not changed. |
| Roads.NewRoad | src/City.ts:100-119 | A missing start or end becomes (0, 0); a given one is stored as is; start + roadVec == end. |
| Roads.RoadVecUnique | src/City.ts:117-118 | roadVec is the only vector that carries start onto end. |
| Roads.Floor | src/City.ts:135-137 | Each component of the result is a whole number f with f <= v < f + 1. |
| Roads.FloorOfIntegral | src/City.ts:135-137 | A vector with whole components is its own floor. |
| Roads.FloorIdempotent | src/City.ts:135-137 | Flooring twice gives the same as flooring once. |
| Roads.GridRoadsShape | src/City.ts:47 | The three grid roads run from (0, 0) to (1, 1) with roadVec (1, 1), and their floored ends are (0, 0) and (1, 1). |
| GridSpec.LoopValueClosed | src/City.ts:63 | The k-th value of i is -50 * invCellSize + k * cellSize. |
| GridSpec.LoopGuard | src/City.ts:63-64 | The loop guard holds at the k-th value exactly when k < RowLength(cellSize), so the loop runs RowLength times. |
| GridSpec.GridLength | src/City.ts:62-83 | One call pushes RowLength * RowLength entries. |
| GridSpec.GridEntry | src/City.ts:63-80 | The entry for the a-th i and the b-th j sits at index a * RowLength + b (j varies fastest). |
| GridSpec.GridAt | src/City.ts:65-80 | That entry is true exactly when, for every road, the hit test fails on the cell position (i * cellSize, j * cellSize) and the road's floored start and end. |
| GridSpec.NoRoadsAllValid | src/City.ts:66-80 | With no roads every pushed entry is true. |
| GridSpec.AllBlockedAllInvalid | src/City.ts:68-78 | If any one road of the list hits every position, every pushed entry is false. |
| GridSpec.IndexAt | src/City.ts:87-88 | A flat index equal to a * RowLength + b is a whole, in-range index and holds the entry for the a-th i and the b-th j. |
| GridSpec.StrideOnlyAtOne | src/City.ts:63-87 | For a positive cell size whose inverse is stored beside it, the reader's stride 100 * invCellSize + 1 equals the number of values per row only when the cell size is 1. |
| GridSpec.DefaultWidths | src/City.ts:87 | At the default cell size a row holds 401 entries, but the reader maps (0, 1) to index 201. |
| GridSpec.UnitCellReaderMatches | src/City.ts:87-88 | At cell size 1 the reader maps the point (b, a) to an in-range index that holds the entry for the a-th i and the b-th j. |
| GridSpec.DefaultReaderStraysWithinRow | src/City.ts:87-88 | At the default cell size the reader maps (0, 1) to an in-range index that holds entry 201 of the first row. |
| GridSpec.DefaultStrayPositions | src/City.ts:63-65 | At the default cell size, entry 201 of the first row lies at (-50, 0.25), and the first entry of the second row at (-49.75, -50). |

## Left out

- `src/main.ts` and `src/rendering/gl/ShaderProgram.ts`: UI, file loading, WebGL calls and GPU buffer packing, with no logic of their own to state. They are not part of this model.
- `Road.length`, `Road.inPlaneNormal` and the `outOfScreen` field: they go through gl-matrix square roots and normalisation on floats.
- The numbers inside the `mat4` transforms: gl-matrix computes them. A transform is kept as the chain of calls that built it, so only count and equality are modelled.
- The meaning of `currPos >= s || currPos <= e` in JavaScript, which compares the comma-joined strings of the two vectors: it is the `hits` parameter, and every result is stated for any `hits`.
- Floating point: every JavaScript number is an exact real, and so is every Float32 vector component. This covers the positions, the accumulated `i += cellSize` and the inverse `1.0 / cellSize`. In float64, `1.0 / cellSize` times `cellSize` need not be exactly 1 (for 49 it is 0.9999999999999999), so `cellSize * invCellSize == 1` holds in the model only. For a cell size whose steps do not add up exactly in floating point, the source may run one step more or fewer than `RowLength`.
- `DrawRoadGrid`: the vertical loop counts i from 0 while i < 0, so its body never runs. The model does not write that loop out; the contract states that it adds nothing.
- `CityModel.City.constructor`: a cell size of 0, NaN or Infinity is not modelled. With 0 the source's loop never ends, so the constructor requires a cell size other than 0.
- `GetValidityAt`: an index that is not a whole number inside the grid makes the source throw. The model has no exceptions, so it requires such an index.
- Random point generation: `src/City.ts` has only a TODO for it, so there is nothing to model.
