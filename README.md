# Jump Flooding fill over a 2D grid, modelled in Dafny

This project models the core of the C# program `JFA/Program.cs`. For every cell of a
width-by-height grid, it finds the nearest point whose classification differs from the
cell's, using the Jump Flooding Algorithm. It then fills each "outside" cell with the
value found at that point. `Buffers`, `SwapBuffers` and `JumpFlood` follow the
source's imperative form: classes with fields, arrays and loops. `JumpFloodModel` (and
the `Option` type of `Wrappers`) states the same algorithm on values. Every method is
proved against those value-level definitions.

- `Buffers`: `Buffer<T>`, a dense row-major array whose fields are never reassigned.
  `Contains` and `GetIndex` are pure functions. `Grid<T>` is a Buffer's contents as a
  value (width, height, cells, outside value). `Get` reads a cell and answers the
  outside value off the grid; `Set` writes a cell; `Copy` bulk-loads from an array.
- `SwapBuffers`: `SwapBuffer<T>`, two Buffers plus `activeIndex`. `ReadView` is the
  buffer a read sees, `(activeIndex + 1) % 2`; `WriteView` is the buffer a write changes.
  `Swap` exchanges the two roles.
- `JumpFloodModel`: the algorithm stated on values.
  - `CandidateFor` and `Candidates`: what each of the nine offsets offers a cell.
  - `Consider` and `Scan`: the strict-minimum loop over those nine candidates.
  - `CellUpdate`: one level for one cell.
  - `PartialPass` and `LevelPass`: one raster pass.
  - `RunLevels`: levels `MaxLevel` down to 0, with a swap after each.
  - `Resolve`: the resolution pass.
  - Lemmas about all of these.
- `JumpFlood`: the `JFA<T>` class.
  - `OffsetCandidate` and `ConsiderOffset` are the body of the offset loop of
    `searchNearestPixelInLevel`.
  - `SearchNearestPixelInLevel` is that loop.
  - `RasterPass` is the row/column loop of `Execute`, and `ResolvePass` is its result loop.
  - `Execute` runs the level loop, then the resolution pass.
  - These loops are factored into methods of their own only to keep each proof small.
    Their code is the source's.
  - `Fill` is the way a caller uses the driver: it constructs a `JFA` and runs
    `Execute` on it.

What is proved:

- The index functions are a bijection between the in-range cells and `[0, W*H)`.
- A write is read back, and leaves every other cell unchanged.
- A SwapBuffer write is invisible to reads until the next `Swap`. Two swaps restore the
  active index.
- The offset loop leaves in the cell the first candidate of least squared distance, or
  leaves the cell unchanged when no candidate is below the initial threshold.
- A raster pass gives the same result as updating every cell independently from the
  committed records. So the order in which cells are visited within a level does not
  matter.
- `Execute` runs exactly `MaxLevel + 1` levels, and so `MaxLevel + 1` swaps.
  `MaxLevel` is the least `k` with `2^k >= max(W, H)`.
- Every record points at a coordinate classified differently from its cell. So from
  fresh records, every result cell is either the default value or a value the
  classifier calls inside.
- Coverage, for grids of at most 256 by 256 cells: when some cell is classified
  differently from the outside value, every cell ends with a record. Then every result
  cell is classified inside, and every inside cell keeps its own value. Records spread
  along the binary digits of the offset to a boundary point, one level per digit, and
  stay within one first-level step of the grid. The squared distances then stay below
  the threshold 1000000.
- A single seed floods a grid of at most 256 by 256 cells: with exactly one cell
  classified inside and an outside value classified outside, every result cell is that
  cell's value.

Behaviour of the code worth knowing:

- A classifier that treats every cell and the outside value alike gives back all
  default values, not the input. No record is ever found, and a cell without a record
  stays at `default(T)` (`UniformGivesDefault`).
- The zero offset is not a no-op. It offers the cell its own previous-level record
  (`ZeroOffsetCarriesRecord`).
- A cell that finds no candidate keeps whatever its slot in the active buffer held. That
  is the record from two levels earlier; it is not reset to absent.
- On larger grids coverage and the single-seed flood fail for the code itself, not only
  for the proof. A candidate is taken only when its squared distance is below
  999999.9, so a cell 1000 or more cells away from every boundary point never gets a
  record and resolves to `default(T)`. On a 1001 by 1 grid whose only inside cell is
  cell 0, cell 1000 is offered only that seed, at squared distance 1000000, and its
  result is the default value (`WideSingleSeedGivesDefault`). A 709 by 709 grid with one
  seed in a corner fails the same way at the opposite corner (2 * 708^2 = 1002528).
- A record can name an off-grid coordinate. The cell then resolves to the outside value
  (`OffGridRecordExample`). Take a column-0 cell classified outside, next to an outside
  value classified inside. At level 0 it takes the off-grid point `(-1, y)` at squared
  distance 1 (offset `(-1, 0)`, tried before the zero offset), and it resolves to the
  outside value (`LeftBorderResolvesOutside`). In the 32x32 demonstration the outside
  value is -1 and the classifier calls -1 inside. So every unmarked cell of column 0,
  such as `(0, 5)`, resolves to the sentinel -1, not to one of the four corner markers.
- Records are never reset. A second `Execute` on the same driver starts from the records
  the first one left, and `Execute`'s contract states its result from whatever records
  are present when it is called.

## Model

| member | source | states |
|---|---|---|
| Buffers.Contains | JFA/Program.cs:21-24 | holds exactly when `0 <= x < width` and `0 <= y < height` |
| Buffers.GetIndex | JFA/Program.cs:26-30 | for in-range cells the index lies in `[0, width*height)`; for every other coordinate it is -1 |
| Buffers.GetIndexInjective | JFA/Program.cs:29 | two cells with `0 <= x < width` that share a row-major index are the same cell |
| Buffers.IndexRoundTrip | JFA/Program.cs:26-30 | `(i % width, i / width)` recovers the coordinate from the index of an in-range cell |
| Buffers.CoordRoundTrip | JFA/Program.cs:26-30 | every index in `[0, width*height)` is the index of exactly the in-range cell `(i % width, i / width)` |
| Buffers.IndexBound | JFA/Program.cs:29 | `y*width + x` lies in `[0, width*height)` for an in-range cell |
| Buffers.Grid.Read | JFA/Program.cs:39-43 | off the grid the outside value; on it the cell at the row-major index |
| Buffers.Grid.Write | JFA/Program.cs:44-47 | a write keeps the width, the height and the outside value, and keeps the cell count at `width*height` |
| Buffers.ReadAfterWrite | JFA/Program.cs:37-48 | after writing `v` at `(x, y)`, reading `(x, y)` gives `v` and every other coordinate, on or off the grid, reads as before |
| Buffers.WriteSame | JFA/Program.cs:44-47 | writing back a cell's own value leaves the grid unchanged |
| Buffers.WriteTwice | JFA/Program.cs:44-47 | a second write to a cell overrides the first |
| Buffers.Buffer.constructor | JFA/Program.cs:13-19 | a fresh array of `width*height` default values, and the given outside value |
| Buffers.Buffer.Copy | JFA/Program.cs:32-35 | requires at least `width*height` source elements; afterwards the store is the source's first `width*height` elements, and every in-range cell reads `values[y*width + x]` |
| Buffers.Buffer.Get | JFA/Program.cs:39-43 | returns the outside value off the grid and the stored value on it |
| Buffers.Buffer.Set | JFA/Program.cs:44-47 | requires an in-range cell; the new contents are the old contents with that one cell replaced |
| SwapBuffers.Toggle | JFA/Program.cs:67 | from 0 or 1, moves to the other one of 0 and 1 |
| SwapBuffers.ToggleTwice | JFA/Program.cs:65-68 | two swaps restore the active index |
| SwapBuffers.SwapBuffer.constructor | JFA/Program.cs:58-64 | two distinct fresh buffers of the same shape, all default, with active index 0 |
| SwapBuffers.SwapBuffer.Width | JFA/Program.cs:52 | the width of buffer 0, which is also the width of buffer 1 |
| SwapBuffers.SwapBuffer.Height | JFA/Program.cs:53 | the height of buffer 0, which is also the height of buffer 1 |
| SwapBuffers.SwapBuffer.Swap | JFA/Program.cs:65-68 | the index becomes `(i + 1) % 2` and stays in {0, 1}; the read and write roles exchange |
| SwapBuffers.SwapBuffer.Copy | JFA/Program.cs:69-72 | loads the active buffer; the read buffer is unchanged |
| SwapBuffers.SwapBuffer.Contains | JFA/Program.cs:73-76 | in range of buffer 0, which has the shape of both |
| SwapBuffers.SwapBuffer.Get | JFA/Program.cs:80-83 | reads from buffer `(activeIndex + 1) % 2`, the one not being written |
| SwapBuffers.SwapBuffer.Set | JFA/Program.cs:84-87 | writes only buffer `activeIndex`; what reads see is unchanged until the next Swap |
| JumpFloodModel.Pow2 | JFA/Program.cs:120 | `2^n` is at least 1 |
| JumpFloodModel.Pow2Monotone | JFA/Program.cs:120 | `2^a <= 2^b` whenever `a <= b` |
| JumpFloodModel.Step | JFA/Program.cs:120 | the step `ceil(2^level)` is at least 1, and is `2^level` for every level `Execute` runs |
| JumpFloodModel.StepHalves | JFA/Program.cs:120 | each level's step is twice the next one's |
| JumpFloodModel.CeilLog2 | JFA/Program.cs:164 | the least `k` with `2^k >= n` |
| JumpFloodModel.MaxLevel | JFA/Program.cs:163-164 | the least `k` with `2^k` covering both the width and the height |
| JumpFloodModel.MaxLevelStepBound | JFA/Program.cs:163-164 | on a grid of at most 256 by 256 cells the first level's step is at most 256 |
| JumpFloodModel.Length2 | JFA/Program.cs:113-116 | a squared length is non-negative, and zero exactly for `(0, 0)` |
| JumpFloodModel.CandidateFor | JFA/Program.cs:127-146 | from sound records, a present candidate names a point classified differently from the cell |
| JumpFloodModel.Candidates | JFA/Program.cs:123-130 | nine candidates, one per offset |
| JumpFloodModel.CandidateNumber | JFA/Program.cs:123-146 | offset `(nx, ny)` is candidate `(nx+1)*3 + (ny+1)`: nx outer, ny inner, each over -1..1 |
| JumpFloodModel.ZeroOffsetCarriesRecord | JFA/Program.cs:127-146 | the zero offset offers the cell's own previous-level record |
| JumpFloodModel.Consider | JFA/Program.cs:147-156 | the best distance never grows; it drops exactly when the candidate is present and strictly closer, and then the candidate and its distance are taken; otherwise the slot is kept |
| JumpFloodModel.Scan | JFA/Program.cs:123-158 | the slot ends with its own record or with one of the present candidates |
| JumpFloodModel.ScanOutcome | JFA/Program.cs:121-157 | either no present candidate is below the threshold and the slot is unchanged, or the slot holds the first candidate of least squared distance: strictly closer than every earlier candidate, no farther than every later one |
| JumpFloodModel.CellUpdate | JFA/Program.cs:118-159 | one level leaves in the cell its previous slot or one of its nine present candidates |
| JumpFloodModel.CellUpdateSome | JFA/Program.cs:118-159 | a cell offered a present candidate below the threshold by any offset ends the level with a record |
| JumpFloodModel.PartialPass | JFA/Program.cs:167-173 | a partially done raster pass keeps the record grid's shape and outside value |
| JumpFloodModel.LevelPass | JFA/Program.cs:165-174 | after a full raster pass, every cell holds its own update, computed only from the committed records and its own slot |
| JumpFloodModel.PartialPassStep | JFA/Program.cs:167-173 | processing cell `y*width + x` in raster order advances the pass by exactly that cell |
| JumpFloodModel.RunLevels | JFA/Program.cs:165-175 | levels run from the given level down to 0, a swap after each; the record grids keep their shape |
| JumpFloodModel.ResolveCell | JFA/Program.cs:182-196 | no record gives the default value; from sound records, a cell with a record resolves to a value classified inside |
| JumpFloodModel.Resolve | JFA/Program.cs:177-199 | `W*H` results: default without a record, the cell's own value when inside, otherwise the input at the record's coordinate (the outside value off the grid) |
| JumpFloodModel.CellUpdateSound | JFA/Program.cs:118-159 | one level for one cell keeps its record sound |
| JumpFloodModel.LevelPassSound | JFA/Program.cs:165-174 | a raster pass keeps the record grid sound |
| JumpFloodModel.RunLevelsSound | JFA/Program.cs:165-175 | all levels keep both record grids sound |
| JumpFloodModel.AbsentSound | JFA/Program.cs:105 | the all-absent record grid the driver starts with is sound |
| JumpFloodModel.ResolveClassified | JFA/Program.cs:177-199 | from sound records, each result is the default value (no record) or a value classified inside |
| JumpFloodModel.ExecuteClassified | JFA/Program.cs:161-199 | from absent records, every result of the whole run is default or classified inside |
| JumpFloodModel.LevelPassUniform | JFA/Program.cs:127-146 | under a uniform classifier, a pass over absent records finds nothing |
| JumpFloodModel.RunLevelsUniform | JFA/Program.cs:165-175 | under a uniform classifier, all levels leave the records absent |
| JumpFloodModel.UniformGivesDefault | JFA/Program.cs:177-199 | under a uniform classifier, every result is the default value |
| JumpFloodModel.CandidateWithinReach | JFA/Program.cs:127-146 | from records within `b` of the grid, a candidate at a step of at most `b` is within `b` of the grid |
| JumpFloodModel.CellUpdateWithinReach | JFA/Program.cs:118-159 | one cell's update at a step of at most `b` keeps its record within `b` of the grid |
| JumpFloodModel.LevelPassWithinReach | JFA/Program.cs:165-174 | a pass at a step of at most `b` keeps every record within `b` of the grid |
| JumpFloodModel.ReachDistance | JFA/Program.cs:121-148 | on a grid of at most 256 by 256 cells, a point within 256 of the grid is below the distance threshold of every cell |
| JumpFloodModel.HalfOffset | JFA/Program.cs:127-128 | a point within `2*step - 1` of a cell is one offset of `-1`, 0 or 1 times `step` away from a point within `step - 1` of it, on the grid whenever both ends are |
| JumpFloodModel.SignalOffers | JFA/Program.cs:127-146 | a point classified like the cell, one offset from a point classified unlike the cell or holding a record, is offered a present candidate by that offset |
| JumpFloodModel.SignalMoves | JFA/Program.cs:118-174 | after one pass, that point is classified unlike the cell or holds a record |
| JumpFloodModel.LeadStep | JFA/Program.cs:118-174 | one level halves the distance from a cell to the nearest point that is classified unlike it or holds a record |
| JumpFloodModel.LevelPassInformed | JFA/Program.cs:165-174 | if every cell has such a point within the level's radius, after the pass every cell has one within the next level's radius |
| JumpFloodModel.RunLevelsCover | JFA/Program.cs:165-175 | if every cell has such a point within the first level's radius, every cell of the final records holds a record |
| JumpFloodModel.Coverage | JFA/Program.cs:161-175 | on a grid of at most 256 by 256 cells with a cell classified unlike the outside value, the run from absent records leaves a record in every cell |
| JumpFloodModel.FillClassified | JFA/Program.cs:161-199 | under the same conditions, every result is classified inside and every inside cell keeps its own value |
| JumpFloodModel.SingleSeedFlood | JFA/Program.cs:161-199 | on a grid of at most 256 by 256 cells with exactly one cell classified inside and the outside value not, every result is that cell's value |
| JumpFloodModel.FarCellKeepsSlot | JFA/Program.cs:118-159 | on a 1001 by 1 grid whose only inside cell is cell 0, from sound records every level leaves cell 1000 with its slot unchanged: its only candidate is at squared distance 1000000 |
| JumpFloodModel.FarCellStaysAbsent | JFA/Program.cs:165-175 | on that grid, a run from sound records with no record at cell 1000 ends with none there |
| JumpFloodModel.WideSingleSeedGivesDefault | JFA/Program.cs:121-199 | on that grid, the run from absent records resolves cell 1000 to the default value, not the seed's value |
| JumpFloodModel.DifferentClassAway | JFA/Program.cs:133-147 | a point classified differently from a cell is not that cell, so its squared distance is positive |
| JumpFloodModel.CandidatesAway | JFA/Program.cs:127-147 | from sound records, every present candidate is at squared distance at least 1 from the cell |
| JumpFloodModel.LeftBorderCandidates | JFA/Program.cs:127-136 | at level 0 a column-0 cell classified unlike the outside value is offered `(-1, y-1)` at distance 2, then `(-1, y)` at distance 1 |
| JumpFloodModel.FirstOfClosest | JFA/Program.cs:147-156 | with candidates at distances 2, 1 and then at least 1, the strict-minimum scan keeps the second |
| JumpFloodModel.LeftBorderAtLevelZero | JFA/Program.cs:118-159 | from sound records, that cell's level-0 record is the off-grid point `(-1, y)` |
| JumpFloodModel.LeftBorderResolvesOutside | JFA/Program.cs:161-199 | a column-0 cell classified outside, next to an outside value classified inside, ends the run with record `(-1, y)` and resolves to the outside value |
| JumpFloodModel.OffGridRecordExample | JFA/Program.cs:133-136 | a record can name an off-grid coordinate, and the cell then resolves to the outside value |
| JumpFlood.JFA.constructor | JFA/Program.cs:100-106 | fresh buffers; the input buffer holds the first `W*H` values; both record buffers are all absent, reading absent off the grid |
| JumpFlood.JFA.OffsetCandidate | JFA/Program.cs:127-146 | the sample coordinate when classifications differ, otherwise the sample's committed record |
| JumpFlood.JFA.ConsiderOffset | JFA/Program.cs:147-156 | writes the candidate into the cell only when strictly closer than the best so far, which then becomes its distance |
| JumpFlood.JFA.SearchNearestPixelInLevel | JFA/Program.cs:118-159 | changes only cell `(x, y)` of the active record buffer, to the result of the strict-minimum scan over the nine candidates |
| JumpFlood.JFA.RasterPass | JFA/Program.cs:167-173 | the active record buffer becomes the level's pass; the read buffer is unchanged |
| JumpFlood.JFA.Execute | JFA/Program.cs:161-200 | runs levels `MaxLevel..0`, with `MaxLevel + 1` swaps in all, then returns the resolution of the last committed records |
| JumpFlood.JFA.ResolvePass | JFA/Program.cs:177-199 | a fresh array equal to the resolution of the committed records |
| JumpFlood.Fill | JFA/Program.cs:221-225 | constructing the driver and running it gives the resolution of the run from absent records: every result is default or classified inside, and on grids of at most 256 by 256 cells with a boundary, every result is classified inside and inside cells keep their value |

## Left out

- `Program.Main` and `Program.index`: a fixed 32x32 demonstration with console output. Its construct-and-run pattern is `Fill`; its printing is not modelled.
- `length`: a floating-point square root that nothing calls.
- Integer width: the model uses unbounded integers. No 32-bit overflow of `Width * Height`, `y * Width + x`, `x + nx * step` or `length2` is modelled, and neither is the float rounding of `length2` beyond 2^24.
- Floating point: `Math.Pow`/`Math.Ceiling` become the integer `Step`. `Math.Log2`/`Math.Ceiling` become `CeilLog2`. `minDistance = 999999.9f` becomes the integer threshold 1000000, which passes exactly the same integer distances.
- Buffers.Buffer.constructor: width and height are `nat`. Negative dimensions, which C# either rejects or multiplies into a small array, are not modelled.
- JumpFlood.JFA.constructor: requires a positive width and height, because non-positive dimensions are caller errors. This excludes the grids of width or height 0 that C# accepts. There the level loop runs over no cells and `Execute` returns an empty array (or, for 0 by 0, runs no level at all).
- `default(T)` has no Dafny counterpart, so it is an explicit constructor parameter. `Predicate<T>` is a total function `T -> bool`.
- `NearestPointInfo` objects are immutable after creation, so they are values. Their identity is not modelled.
- `SwapBuffer._buffers` is modelled as an immutable sequence of two Buffers, because the array's elements are never reassigned. The settable `Width`/`Height` properties are constants, because nothing sets them after construction.
- JumpFloodModel.Step: a negative level is mapped to 1. C# gives 1 there only for levels from -1074 up, and `Execute` never passes a negative level.
- JumpFloodModel.Coverage: proved only for grids of at most 256 by 256 cells, where every squared distance a record can reach stays below the threshold 1000000. On larger grids the property is false for the code: a cell whose nearest boundary point is at squared distance 1000000 or more never takes a record (`WideSingleSeedGivesDefault`). Larger grids on which every needed squared distance stays below 1000000 are not covered by the proof.
- Not proved: that the result is the exact nearest boundary value. The Jump Flooding Algorithm only approximates this.
