/**
 * The Jump Flooding Algorithm of class JFA<T> (JFA/Program.cs) stated on values:
 * which candidate one offset offers, which candidate a cell keeps, what one
 * level does to the whole record grid, how the levels chain, and how the
 * result is read off the final records.
 */
module JumpFloodModel {
  import opened Wrappers
  import opened Buffers

  /** A record: the coordinate of the nearest differently-classified point found so far. */
  datatype NearestPointInfo = NearestPointInfo(x: int, y: int)

  type Record = Option<NearestPointInfo>

  /**
   * The float 999999.9f that minDistance starts from. Squared distances are
   * integers, and an integer is below that float exactly when it is below 1000000.
   */
  const InitialMinDistance: int := 1000000

  /** 2^n, the value Math.Pow(2, n) takes for the levels Execute runs. */
  function Pow2(n: nat): (r: nat)
    ensures r >= 1
  {
    if n == 0 then 1 else 2 * Pow2(n - 1)
  }

  /** 2^n grows with n. */
  lemma {:induction false} Pow2Monotone(a: nat, b: nat)
    requires a <= b
    ensures Pow2(a) <= Pow2(b)
    decreases b
  {
    if a < b {
      Pow2Monotone(a, b - 1);
    }
  }

  /**
   * `(int)Math.Ceiling(Math.Pow(2, level))`. Execute passes the levels 0..MaxLevel,
   * where this is 2^level. A negative level is mapped to 1, as C# computes for
   * -1074 <= level <= 0; the int overflow of level >= 31 is not modelled.
   */
  function Step(level: int): (s: nat)
    ensures s >= 1
    ensures level >= 0 ==> s == Pow2(level)
  {
    if level <= 0 then 1 else Pow2(level)
  }

  /** Each level jumps twice as far as the next one. */
  lemma StepHalves(level: int)
    requires level > 0
    ensures Step(level) == 2 * Step(level - 1)
  {
  }

  /** `(int)Math.Ceiling(Math.Log2(n))` for n >= 1: the least k with 2^k >= n. */
  function CeilLog2(n: int): (k: nat)
    requires n >= 1
    ensures Pow2(k) >= n
    ensures k > 0 ==> Pow2(k - 1) < n
    decreases n
  {
    if n <= 1 then 0 else 1 + CeilLog2((n + 1) / 2)
  }

  /** The first level Execute runs. */
  function MaxLevel(width: int, height: int): (k: nat)
    requires width >= 1 && height >= 1
    ensures Pow2(k) >= width && Pow2(k) >= height
    ensures k > 0 ==> Pow2(k - 1) < width || Pow2(k - 1) < height
  {
    CeilLog2(if width >= height then width else height)
  }

  /** On a grid of at most 256 by 256 cells the first level's step is at most 256. */
  lemma MaxLevelStepBound(width: int, height: int)
    requires 1 <= width <= 256 && 1 <= height <= 256
    ensures Step(MaxLevel(width, height)) <= 256
  {
    var k := MaxLevel(width, height);
    assert Pow2(8) == 256;
    if k > 8 {
      Pow2Monotone(8, k - 1);
    }
    Pow2Monotone(k, 8);
  }

  /** length2: the squared Euclidean length of (dx, dy), zero only for the zero vector. */
  function Length2(dx: int, dy: int): (r: int)
    ensures r >= 0
    ensures r == 0 <==> dx == 0 && dy == 0
  {
    SquareSign(dx);
    SquareSign(dy);
    dx * dx + dy * dy
  }

  lemma SquareSign(a: int)
    ensures a * a >= 0
    ensures a != 0 ==> a * a > 0
  {
    if a < 0 {
      assert a * a == (-a) * (-a);
    }
  }

  /** A component of at most 511 in size has a square of at most 511 * 511. */
  lemma SquareBound(a: int)
    requires -511 <= a <= 511
    ensures a * a <= 511 * 511
  {
    var c := if a < 0 then -a else a;
    assert a * a == c * c;
    MulMonotone(c, 511, c);
    MulMonotone(c, 511, 511);
  }

  function Distance2(p: NearestPointInfo, x: int, y: int): int
  {
    Length2(p.x - x, p.y - y)
  }

  /** The input grid and the two record grids all have one shape. */
  ghost predicate SameShape<T, U>(a: Grid<T>, b: Grid<U>)
  {
    a.width == b.width && a.height == b.height
  }

  ghost predicate Compatible<T>(input: Grid<T>, records: Grid<Record>)
  {
    input.Valid() && records.Valid() && SameShape(input, records) && input.width > 0 && input.height > 0
  }

  /**
   * The candidate that offset (nx, ny) at distance `step` offers cell (x, y):
   * the sample coordinate itself when it is classified differently from the
   * cell, otherwise the sample's record from the previous level (absent off the grid
   * when the records' outside value is absent). From sound records, every candidate
   * names a point classified differently from the cell.
   */
  function CandidateFor<T>(input: Grid<T>, records: Grid<Record>, inside: T -> bool,
                           x: int, y: int, step: int, nx: int, ny: int): (c: Record)
    requires input.Valid() && records.Valid()
    ensures Compatible(input, records) && Sound(input, records, inside) && c.Some? ==>
      inside(input.Read(c.value.x, c.value.y)) != inside(input.Read(x, y))
  {
    var sx, sy := x + nx * step, y + ny * step;
    if inside(input.Read(x, y)) != inside(input.Read(sx, sy)) then Some(NearestPointInfo(sx, sy))
    else records.Read(sx, sy)
  }

  /** The nine candidates of one level, nx outer and ny inner, each over -1, 0, 1. */
  function Candidates<T>(input: Grid<T>, records: Grid<Record>, inside: T -> bool,
                         x: int, y: int, level: int): (cs: seq<Record>)
    requires input.Valid() && records.Valid()
    ensures |cs| == 9
  {
    seq(9, k requires 0 <= k < 9 => CandidateFor(input, records, inside, x, y, Step(level), k / 3 - 1, k % 3 - 1))
  }

  /** Offset (nx, ny) is candidate number (nx + 1) * 3 + (ny + 1). */
  lemma CandidateNumber<T>(input: Grid<T>, records: Grid<Record>, inside: T -> bool,
                           x: int, y: int, level: int, nx: int, ny: int)
    requires input.Valid() && records.Valid()
    requires -1 <= nx <= 1 && -1 <= ny <= 1
    ensures Candidates(input, records, inside, x, y, level)[(nx + 1) * 3 + (ny + 1)]
      == CandidateFor(input, records, inside, x, y, Step(level), nx, ny)
  {
    OffsetNumber(nx, ny);
  }

  lemma OffsetNumber(nx: int, ny: int)
    requires -1 <= nx <= 1 && -1 <= ny <= 1
    ensures var k := (nx + 1) * 3 + (ny + 1); 0 <= k < 9 && k / 3 - 1 == nx && k % 3 - 1 == ny
  {
    if nx == -1 {
      assert (nx + 1) * 3 == 0;
    } else if nx == 0 {
      assert (nx + 1) * 3 == 3;
    } else {
      assert (nx + 1) * 3 == 6;
    }
  }

  /**
   * One pass of the offset loop's body on (best distance so far, the cell's slot):
   * a present candidate strictly closer than the best so far becomes the slot, and
   * its distance the new best; anything else leaves both as they were.
   */
  function Consider(c: Record, x: int, y: int, minDistance: int, slot: Record): (r: (int, Record))
    ensures r.0 <= minDistance
    ensures r.0 < minDistance <==> c.Some? && Distance2(c.value, x, y) < minDistance
    ensures r.0 < minDistance ==> r == (Distance2(c.value, x, y), c)
    ensures r.0 == minDistance ==> r.1 == slot
  {
    match c
    case None => (minDistance, slot)
    case Some(p) => if Distance2(p, x, y) < minDistance then (Distance2(p, x, y), c) else (minDistance, slot)
  }

  /**
   * The effect of the offset loop on the cell's slot from candidate k on: the slot
   * either keeps its record or takes one of the present candidates.
   */
  function Scan(cands: seq<Record>, k: nat, x: int, y: int, minDistance: int, slot: Record): (r: Record)
    requires k <= |cands|
    ensures r == slot || exists i :: k <= i < |cands| && cands[i] == r && r.Some?
    decreases |cands| - k
  {
    if k == |cands| then slot
    else
      var next := Consider(cands[k], x, y, minDistance, slot);
      Scan(cands, k + 1, x, y, next.0, next.1)
  }

  /** The scan from candidate k is candidate k's step followed by the scan from k + 1. */
  lemma ScanStep(cands: seq<Record>, k: nat, x: int, y: int, minDistance: int, slot: Record)
    requires k < |cands|
    ensures var next := Consider(cands[k], x, y, minDistance, slot);
      Scan(cands, k, x, y, minDistance, slot) == Scan(cands, k + 1, x, y, next.0, next.1)
  {
  }

  /** Candidate i is below the threshold, strictly closer than every earlier one and no farther than every later one. */
  ghost predicate FirstNearest(cands: seq<Record>, k: nat, x: int, y: int, minDistance: int, i: int)
  {
    && k <= i < |cands|
    && cands[i].Some?
    && Distance2(cands[i].value, x, y) < minDistance
    && (forall j :: k <= j < i && cands[j].Some? ==> Distance2(cands[i].value, x, y) < Distance2(cands[j].value, x, y))
    && (forall j :: i < j < |cands| && cands[j].Some? ==> Distance2(cands[i].value, x, y) <= Distance2(cands[j].value, x, y))
  }

  /**
   * Strict-minimum tie-break: the slot ends up holding the first candidate of least
   * squared distance among those below the threshold, or is left as it was when no
   * candidate is below the threshold.
   */
  lemma {:induction false} ScanOutcome(cands: seq<Record>, k: nat, x: int, y: int, minDistance: int, slot: Record)
    requires k <= |cands|
    ensures
      || ((forall j :: k <= j < |cands| && cands[j].Some? ==> Distance2(cands[j].value, x, y) >= minDistance)
          && Scan(cands, k, x, y, minDistance, slot) == slot)
      || (exists i :: FirstNearest(cands, k, x, y, minDistance, i) && Scan(cands, k, x, y, minDistance, slot) == cands[i])
    decreases |cands| - k
  {
    if k == |cands| {
      return;
    }
    var r := Scan(cands, k, x, y, minDistance, slot);
    match cands[k]
    case None =>
      ScanOutcome(cands, k + 1, x, y, minDistance, slot);
      if exists i :: FirstNearest(cands, k + 1, x, y, minDistance, i) && r == cands[i] {
        var i :| FirstNearest(cands, k + 1, x, y, minDistance, i) && r == cands[i];
        assert FirstNearest(cands, k, x, y, minDistance, i);
      }
    case Some(p) =>
      var d := Distance2(p, x, y);
      if d < minDistance {
        ScanOutcome(cands, k + 1, x, y, d, cands[k]);
        if exists i :: FirstNearest(cands, k + 1, x, y, d, i) && r == cands[i] {
          var i :| FirstNearest(cands, k + 1, x, y, d, i) && r == cands[i];
          assert FirstNearest(cands, k, x, y, minDistance, i);
        } else {
          assert FirstNearest(cands, k, x, y, minDistance, k);
        }
      } else {
        ScanOutcome(cands, k + 1, x, y, minDistance, slot);
        if exists i :: FirstNearest(cands, k + 1, x, y, minDistance, i) && r == cands[i] {
          var i :| FirstNearest(cands, k + 1, x, y, minDistance, i) && r == cands[i];
          assert FirstNearest(cands, k, x, y, minDistance, i);
        }
      }
  }

  /**
   * The record one level leaves in cell (x, y) whose slot held `slot` when the level
   * began: the slot's own record or one of the nine candidates.
   */
  function CellUpdate<T>(input: Grid<T>, records: Grid<Record>, inside: T -> bool,
                         x: int, y: int, level: int, slot: Record): (r: Record)
    requires input.Valid() && records.Valid()
    ensures r == slot || exists k :: 0 <= k < 9 && Candidates(input, records, inside, x, y, level)[k] == r && r.Some?
  {
    Scan(Candidates(input, records, inside, x, y, level), 0, x, y, InitialMinDistance, slot)
  }

  /** A cell offered a present candidate below the threshold by any offset ends the level with a record. */
  lemma CellUpdateSome<T>(input: Grid<T>, records: Grid<Record>, inside: T -> bool,
                          x: int, y: int, level: int, slot: Record, nx: int, ny: int)
    requires input.Valid() && records.Valid()
    requires -1 <= nx <= 1 && -1 <= ny <= 1
    requires var c := CandidateFor(input, records, inside, x, y, Step(level), nx, ny);
      c.Some? && Distance2(c.value, x, y) < InitialMinDistance
    ensures CellUpdate(input, records, inside, x, y, level, slot).Some?
  {
    var cands := Candidates(input, records, inside, x, y, level);
    CandidateNumber(input, records, inside, x, y, level, nx, ny);
    OffsetNumber(nx, ny);
    ScanOutcome(cands, 0, x, y, InitialMinDistance, slot);
  }

  /** The zero offset offers the cell's own previous-level record. */
  lemma ZeroOffsetCarriesRecord<T>(input: Grid<T>, records: Grid<Record>, inside: T -> bool, x: int, y: int, level: int)
    requires input.Valid() && records.Valid()
    ensures Candidates(input, records, inside, x, y, level)[4] == records.Read(x, y)
  {
    var step := Step(level);
    assert 4 / 3 - 1 == 0 && 4 % 3 - 1 == 0;
    assert x + 0 * step == x && y + 0 * step == y;
  }

  /**
   * The record grid after the first n cells (in raster order) of one level have been
   * processed: those cells are updated from `read`, the rest still hold `write`'s slots.
   */
  function PartialPass<T>(input: Grid<T>, read: Grid<Record>, write: Grid<Record>, inside: T -> bool,
                          level: int, n: int): (g: Grid<Record>)
    requires Compatible(input, read) && Compatible(input, write)
    ensures g.Valid() && SameShape(g, write) && g.outside == write.outside
  {
    var w := write.width;
    write.(cells := seq(|write.cells|, j requires 0 <= j < |write.cells| =>
      if j < n then CellUpdate(input, read, inside, j % w, j / w, level, write.cells[j]) else write.cells[j]))
  }

  /** One full raster pass of one level: every cell computed from the committed `read` grid. */
  function LevelPass<T>(input: Grid<T>, read: Grid<Record>, write: Grid<Record>, inside: T -> bool,
                        level: int): (g: Grid<Record>)
    requires Compatible(input, read) && Compatible(input, write)
    ensures g.Valid() && SameShape(g, write) && g.outside == write.outside
    ensures forall x, y :: Contains(write.width, write.height, x, y) ==>
      g.Read(x, y) == CellUpdate(input, read, inside, x, y, level, write.Read(x, y))
  {
    var g := PartialPass(input, read, write, inside, level, |write.cells|);
    assert forall x, y :: Contains(write.width, write.height, x, y) ==>
      g.Read(x, y) == CellUpdate(input, read, inside, x, y, level, write.Read(x, y)) by {
      forall x, y | Contains(write.width, write.height, x, y)
        ensures g.Read(x, y) == CellUpdate(input, read, inside, x, y, level, write.Read(x, y))
      {
        IndexRoundTrip(write.width, write.height, x, y);
      }
    }
    g
  }

  /** Processing cell n = y*width + x advances a partial pass by one cell. */
  lemma PartialPassStep<T>(input: Grid<T>, read: Grid<Record>, write: Grid<Record>, inside: T -> bool,
                           level: int, x: int, y: int, n: int, before: Grid<Record>, after: Grid<Record>)
    requires Compatible(input, read) && Compatible(input, write)
    requires Contains(write.width, write.height, x, y) && n == y * write.width + x
    requires before == PartialPass(input, read, write, inside, level, n)
    requires after == before.Write(x, y, CellUpdate(input, read, inside, x, y, level, before.Read(x, y)))
    ensures after == PartialPass(input, read, write, inside, level, n + 1)
  {
    IndexRoundTrip(write.width, write.height, x, y);
  }

  /**
   * Levels `level` down to 0, each a full pass followed by a swap: the new read grid is
   * the one just written, and the next level writes over the grid read before.
   * The result is the (read, write) pair after the last swap.
   */
  function RunLevels<T>(input: Grid<T>, read: Grid<Record>, write: Grid<Record>, inside: T -> bool,
                        level: int): (rw: (Grid<Record>, Grid<Record>))
    requires Compatible(input, read) && Compatible(input, write)
    ensures Compatible(input, rw.0) && Compatible(input, rw.1)
    decreases if level < 0 then 0 else level + 1
  {
    if level < 0 then (read, write)
    else RunLevels(input, LevelPass(input, read, write, inside, level), read, inside, level - 1)
  }

  /** A run from a level of at least 0 is that level's pass, the swap, and the run from the next level. */
  lemma RunLevelsStep<T>(input: Grid<T>, read: Grid<Record>, write: Grid<Record>, inside: T -> bool, level: int)
    requires Compatible(input, read) && Compatible(input, write) && level >= 0
    ensures RunLevels(input, read, write, inside, level)
      == RunLevels(input, LevelPass(input, read, write, inside, level), read, inside, level - 1)
  {
  }

  /**
   * The resolution pass for cell j: no record gives the default value, an inside cell
   * keeps its value, an outside cell takes the value at its record. From sound
   * records, a cell with a record always resolves to a value classified inside.
   */
  function ResolveCell<T>(input: Grid<T>, records: Grid<Record>, inside: T -> bool, zero: T, j: int): (r: T)
    requires input.Valid() && records.Valid() && |records.cells| == |input.cells|
    requires 0 <= j < |input.cells|
    ensures records.cells[j].None? ==> r == zero
    ensures records.cells[j].Some? && Compatible(input, records) && Sound(input, records, inside) ==> inside(r)
  {
    match records.cells[j]
    case None => zero
    case Some(p) => if inside(input.cells[j]) then input.cells[j] else input.Read(p.x, p.y)
  }

  function Resolve<T>(input: Grid<T>, records: Grid<Record>, inside: T -> bool, zero: T): (res: seq<T>)
    requires input.Valid() && records.Valid() && |records.cells| == |input.cells|
    ensures |res| == input.width * input.height
    ensures forall j :: 0 <= j < |res| && records.cells[j].None? ==> res[j] == zero
    ensures forall j :: 0 <= j < |res| && records.cells[j].Some? && inside(input.cells[j]) ==> res[j] == input.cells[j]
    ensures forall j :: 0 <= j < |res| && records.cells[j].Some? && !inside(input.cells[j]) ==>
      res[j] == input.Read(records.cells[j].value.x, records.cells[j].value.y)
  {
    seq(|input.cells|, j requires 0 <= j < |input.cells| => ResolveCell(input, records, inside, zero, j))
  }

  // ---------------------------------------------------------------------------
  // Soundness: every record points at a point of the other classification.

  /**
   * Each present record of cell j names a coordinate whose input value (the outside
   * value when it is off the grid) is classified differently from cell j, and the
   * grid answers "absent" off the grid.
   */
  ghost predicate Sound<T>(input: Grid<T>, records: Grid<Record>, inside: T -> bool)
    requires Compatible(input, records)
  {
    && records.outside == None
    && forall j :: 0 <= j < |records.cells| && records.cells[j].Some? ==>
         inside(input.Read(records.cells[j].value.x, records.cells[j].value.y)) != inside(input.cells[j])
  }

  /** A grid with no records at all, on the grid or off it. */
  ghost predicate Absent(records: Grid<Record>)
  {
    records.outside == None && forall j :: 0 <= j < |records.cells| ==> records.cells[j] == None
  }

  lemma CellUpdateSound<T>(input: Grid<T>, read: Grid<Record>, inside: T -> bool,
                           x: int, y: int, level: int, slot: Record)
    requires Compatible(input, read) && Sound(input, read, inside)
    requires slot.Some? ==> inside(input.Read(slot.value.x, slot.value.y)) != inside(input.Read(x, y))
    ensures var r := CellUpdate(input, read, inside, x, y, level, slot);
      r.Some? ==> inside(input.Read(r.value.x, r.value.y)) != inside(input.Read(x, y))
  {
    var cands := Candidates(input, read, inside, x, y, level);
    var r := CellUpdate(input, read, inside, x, y, level, slot);
    if r != slot {
      var k :| 0 <= k < 9 && cands[k] == r && r.Some?;
      assert cands[k] == CandidateFor(input, read, inside, x, y, Step(level), k / 3 - 1, k % 3 - 1);
    }
  }

  /** A level pass keeps both record grids sound. */
  lemma LevelPassSound<T>(input: Grid<T>, read: Grid<Record>, write: Grid<Record>, inside: T -> bool, level: int)
    requires Compatible(input, read) && Compatible(input, write)
    requires Sound(input, read, inside) && Sound(input, write, inside)
    ensures Sound(input, LevelPass(input, read, write, inside, level), inside)
  {
    var g := LevelPass(input, read, write, inside, level);
    var w := write.width;
    forall j | 0 <= j < |g.cells| && g.cells[j].Some?
      ensures inside(input.Read(g.cells[j].value.x, g.cells[j].value.y)) != inside(input.cells[j])
    {
      var x, y := j % w, j / w;
      CoordRoundTrip(w, write.height, j);
      CellUpdateSound(input, read, inside, x, y, level, write.cells[j]);
      assert g.Read(x, y) == g.cells[j];
    }
  }

  lemma {:induction false} RunLevelsSound<T>(input: Grid<T>, read: Grid<Record>, write: Grid<Record>, inside: T -> bool, level: int)
    requires Compatible(input, read) && Compatible(input, write)
    requires Sound(input, read, inside) && Sound(input, write, inside)
    ensures var rw := RunLevels(input, read, write, inside, level);
      Sound(input, rw.0, inside) && Sound(input, rw.1, inside)
    decreases if level < 0 then 0 else level + 1
  {
    if level >= 0 {
      LevelPassSound(input, read, write, inside, level);
      RunLevelsSound(input, LevelPass(input, read, write, inside, level), read, inside, level - 1);
    }
  }

  /** An empty record grid is sound. */
  lemma AbsentSound<T>(input: Grid<T>, records: Grid<Record>, inside: T -> bool)
    requires Compatible(input, records) && Absent(records)
    ensures Sound(input, records, inside)
  {
  }

  /**
   * From sound records, every result cell is either the default value (the cell has
   * no record) or a value the classifier puts inside.
   */
  lemma ResolveClassified<T>(input: Grid<T>, records: Grid<Record>, inside: T -> bool, zero: T)
    requires Compatible(input, records) && Sound(input, records, inside)
    ensures var res := Resolve(input, records, inside, zero);
      forall j :: 0 <= j < |res| ==> (records.cells[j].None? && res[j] == zero) || (records.cells[j].Some? && inside(res[j]))
  {
  }

  /** The whole run from empty record grids yields only default or inside-classified values. */
  lemma ExecuteClassified<T>(input: Grid<T>, read: Grid<Record>, write: Grid<Record>, inside: T -> bool, zero: T, level: int)
    requires Compatible(input, read) && Compatible(input, write) && Absent(read) && Absent(write)
    ensures var res := Resolve(input, RunLevels(input, read, write, inside, level).0, inside, zero);
      forall j :: 0 <= j < |res| ==> res[j] == zero || inside(res[j])
  {
    AbsentSound(input, read, inside);
    AbsentSound(input, write, inside);
    RunLevelsSound(input, read, write, inside, level);
    ResolveClassified(input, RunLevels(input, read, write, inside, level).0, inside, zero);
  }

  // ---------------------------------------------------------------------------
  // Uniform classification: nothing is ever recorded.

  /** The classifier says the same of every cell and of the outside value. */
  ghost predicate Uniform<T>(input: Grid<T>, inside: T -> bool)
    requires input.Valid()
  {
    forall j :: 0 <= j < |input.cells| ==> inside(input.cells[j]) == inside(input.outside)
  }

  lemma LevelPassUniform<T>(input: Grid<T>, read: Grid<Record>, write: Grid<Record>, inside: T -> bool, level: int)
    requires Compatible(input, read) && Compatible(input, write) && Absent(read) && Absent(write)
    requires Uniform(input, inside)
    ensures Absent(LevelPass(input, read, write, inside, level))
  {
    var g := LevelPass(input, read, write, inside, level);
    var w := write.width;
    forall j | 0 <= j < |g.cells|
      ensures g.cells[j] == None
    {
      var x, y := j % w, j / w;
      CoordRoundTrip(w, write.height, j);
      var cands := Candidates(input, read, inside, x, y, level);
      forall k | 0 <= k < 9
        ensures cands[k] == None
      {
        var sx, sy := x + (k / 3 - 1) * Step(level), y + (k % 3 - 1) * Step(level);
        if Contains(input.width, input.height, sx, sy) {
          assert input.Read(sx, sy) == input.cells[GetIndex(input.width, input.height, sx, sy)];
          assert read.Read(sx, sy) == read.cells[GetIndex(input.width, input.height, sx, sy)];
        }
        assert input.Read(x, y) == input.cells[j];
      }
      ScanOutcome(cands, 0, x, y, InitialMinDistance, write.cells[j]);
      assert g.Read(x, y) == g.cells[j];
    }
  }

  lemma {:induction false} RunLevelsUniform<T>(input: Grid<T>, read: Grid<Record>, write: Grid<Record>, inside: T -> bool, level: int)
    requires Compatible(input, read) && Compatible(input, write) && Absent(read) && Absent(write)
    requires Uniform(input, inside)
    ensures var rw := RunLevels(input, read, write, inside, level);
      Absent(rw.0) && Absent(rw.1)
    decreases if level < 0 then 0 else level + 1
  {
    if level >= 0 {
      LevelPassUniform(input, read, write, inside, level);
      RunLevelsUniform(input, LevelPass(input, read, write, inside, level), read, inside, level - 1);
    }
  }

  /**
   * When every cell and the outside value get one classification, the run from
   * empty record grids finds no record, and every result cell is the default value.
   */
  lemma UniformGivesDefault<T>(input: Grid<T>, read: Grid<Record>, write: Grid<Record>, inside: T -> bool, zero: T, level: int)
    requires Compatible(input, read) && Compatible(input, write) && Absent(read) && Absent(write)
    requires Uniform(input, inside)
    ensures var res := Resolve(input, RunLevels(input, read, write, inside, level).0, inside, zero);
      forall j :: 0 <= j < |res| ==> res[j] == zero
  {
    RunLevelsUniform(input, read, write, inside, level);
  }

  // ---------------------------------------------------------------------------
  // Coverage: once any boundary exists, every cell ends with a record.

  /** Every present record names a point at most `b` outside the grid in each direction. */
  ghost predicate WithinReach(records: Grid<Record>, b: int)
  {
    forall j :: 0 <= j < |records.cells| && records.cells[j].Some? ==>
      && -b <= records.cells[j].value.x < records.width + b
      && -b <= records.cells[j].value.y < records.height + b
  }

  /** From records within reach `b`, a cell's candidate at a step of at most `b` is within reach `b`. */
  lemma CandidateWithinReach<T>(input: Grid<T>, records: Grid<Record>, inside: T -> bool,
                                x: int, y: int, step: int, nx: int, ny: int, b: int)
    requires Compatible(input, records) && records.outside == None && WithinReach(records, b)
    requires Contains(input.width, input.height, x, y)
    requires 0 <= step <= b && -1 <= nx <= 1 && -1 <= ny <= 1
    ensures var c := CandidateFor(input, records, inside, x, y, step, nx, ny);
      c.Some? ==> -b <= c.value.x < input.width + b && -b <= c.value.y < input.height + b
  {
    var sx, sy := x + nx * step, y + ny * step;
    assert -step <= nx * step <= step && -step <= ny * step <= step by {
      OffsetBound(nx, step);
      OffsetBound(ny, step);
    }
    if Contains(input.width, input.height, sx, sy) {
      assert records.Read(sx, sy) == records.cells[GetIndex(input.width, input.height, sx, sy)];
    }
  }

  lemma OffsetBound(n: int, step: int)
    requires -1 <= n <= 1 && step >= 0
    ensures -step <= n * step <= step
  {
  }

  /** One cell's update at a step of at most `b` keeps its record within reach `b`. */
  lemma CellUpdateWithinReach<T>(input: Grid<T>, read: Grid<Record>, inside: T -> bool,
                                 x: int, y: int, level: int, slot: Record, b: int)
    requires Compatible(input, read) && read.outside == None && WithinReach(read, b) && Step(level) <= b
    requires Contains(input.width, input.height, x, y)
    requires slot.Some? ==> -b <= slot.value.x < input.width + b && -b <= slot.value.y < input.height + b
    ensures var r := CellUpdate(input, read, inside, x, y, level, slot);
      r.Some? ==> -b <= r.value.x < input.width + b && -b <= r.value.y < input.height + b
  {
    var r := CellUpdate(input, read, inside, x, y, level, slot);
    if r != slot {
      var cands := Candidates(input, read, inside, x, y, level);
      var k :| 0 <= k < 9 && cands[k] == r && r.Some?;
      assert cands[k] == CandidateFor(input, read, inside, x, y, Step(level), k / 3 - 1, k % 3 - 1);
      CandidateWithinReach(input, read, inside, x, y, Step(level), k / 3 - 1, k % 3 - 1, b);
    }
  }

  /** A level pass at a step of at most `b` keeps the record grids within reach `b`. */
  lemma LevelPassWithinReach<T>(input: Grid<T>, read: Grid<Record>, write: Grid<Record>, inside: T -> bool,
                                level: int, b: int)
    requires Compatible(input, read) && Compatible(input, write)
    requires read.outside == None && WithinReach(read, b) && WithinReach(write, b) && Step(level) <= b
    ensures WithinReach(LevelPass(input, read, write, inside, level), b)
  {
    var g := LevelPass(input, read, write, inside, level);
    var w := write.width;
    forall j | 0 <= j < |g.cells| && g.cells[j].Some?
      ensures -b <= g.cells[j].value.x < g.width + b && -b <= g.cells[j].value.y < g.height + b
    {
      var x, y := j % w, j / w;
      CoordRoundTrip(w, write.height, j);
      assert g.Read(x, y) == g.cells[j] && write.Read(x, y) == write.cells[j];
      CellUpdateWithinReach(input, read, inside, x, y, level, write.cells[j], b);
    }
  }

  /** On a grid of at most 256 by 256 cells, every point within reach 256 is below the distance threshold. */
  lemma ReachDistance(width: int, height: int, b: int, p: NearestPointInfo, x: int, y: int)
    requires width <= 256 && height <= 256 && b <= 256
    requires 0 <= x < width && 0 <= y < height
    requires -b <= p.x < width + b && -b <= p.y < height + b
    ensures Distance2(p, x, y) < InitialMinDistance
  {
    SquareBound(p.x - x);
    SquareBound(p.y - y);
  }

  /** Point (tx, ty) tells cell (x, y) of a boundary: it is classified differently, or it has a record. */
  ghost predicate Signal<T>(input: Grid<T>, records: Grid<Record>, inside: T -> bool, x: int, y: int, tx: int, ty: int)
    requires input.Valid() && records.Valid()
  {
    inside(input.Read(tx, ty)) != inside(input.Read(x, y)) || records.Read(tx, ty).Some?
  }

  /** Cell (x, y) has a signalling point within `r` of it in each direction. */
  ghost predicate Lead<T>(input: Grid<T>, records: Grid<Record>, inside: T -> bool, r: int, x: int, y: int)
    requires input.Valid() && records.Valid()
  {
    exists tx, ty :: -r <= tx - x <= r && -r <= ty - y <= r && Signal(input, records, inside, x, y, tx, ty)
  }

  ghost predicate Informed<T>(input: Grid<T>, records: Grid<Record>, inside: T -> bool, r: int)
    requires input.Valid() && records.Valid()
  {
    forall x, y :: Contains(input.width, input.height, x, y) ==> Lead(input, records, inside, r, x, y)
  }

  /** How far the levels `level` down to 0 can carry a signal: 2^(level+1) - 1, and 0 after the last one. */
  function Radius(level: int): (r: int)
    ensures level >= 0 ==> r == 2 * Step(level) - 1
    ensures level < 0 ==> r == 0
  {
    if level < 0 then 0 else 2 * Step(level) - 1
  }

  /**
   * One component of a jump: for a point t within 2*step - 1 of c, u = t - e*step (e
   * the sign of t - c when it is at least step) lies within step - 1 of c, and
   * between c and t, so on [lo, hi) whenever c and t are.
   */
  lemma HalfOffset(c: int, t: int, step: int, lo: int, hi: int) returns (e: int, u: int)
    requires step >= 1 && -(2 * step - 1) <= t - c <= 2 * step - 1
    ensures -1 <= e <= 1 && u + e * step == t
    ensures -(step - 1) <= u - c <= step - 1
    ensures lo <= c < hi && lo <= t < hi ==> lo <= u < hi
  {
    if t - c >= step {
      e, u := 1, t - step;
    } else if t - c <= -step {
      e, u := -1, t + step;
    } else {
      e, u := 0, t;
    }
  }

  /**
   * A signal at t for cell (x, y) becomes, after one level, a signal at u = t - e*step
   * when u lies on the grid whenever t does: u is either classified differently from
   * the cell, or offset e offers it a present candidate and it ends the level with a record.
   */
  lemma SignalMoves<T>(input: Grid<T>, read: Grid<Record>, write: Grid<Record>, inside: T -> bool,
                       level: nat, b: int, x: int, y: int, tx: int, ty: int, ex: int, ey: int, ux: int, uy: int)
    requires Compatible(input, read) && Compatible(input, write)
    requires read.outside == None && WithinReach(read, b)
    requires input.width <= 256 && input.height <= 256 && Step(level) <= b <= 256
    requires Signal(input, read, inside, x, y, tx, ty)
    requires -1 <= ex <= 1 && -1 <= ey <= 1 && ux + ex * Step(level) == tx && uy + ey * Step(level) == ty
    requires Contains(input.width, input.height, tx, ty) ==> Contains(input.width, input.height, ux, uy)
    ensures Signal(input, LevelPass(input, read, write, inside, level), inside, x, y, ux, uy)
  {
    if !Contains(input.width, input.height, ux, uy) {
      assert input.Read(ux, uy) == input.outside == input.Read(tx, ty);
    } else if inside(input.Read(ux, uy)) == inside(input.Read(x, y)) {
      SignalOffers(input, read, inside, Step(level), x, y, tx, ty, ex, ey, ux, uy);
      var c := CandidateFor(input, read, inside, ux, uy, Step(level), ex, ey);
      CandidateWithinReach(input, read, inside, ux, uy, Step(level), ex, ey, b);
      ReachDistance(input.width, input.height, b, c.value, ux, uy);
      CellUpdateSome(input, read, inside, ux, uy, level, write.Read(ux, uy), ex, ey);
    }
  }

  /** A point u classified like cell (x, y) is offered a present candidate by the offset that reaches a signal of the cell. */
  lemma SignalOffers<T>(input: Grid<T>, read: Grid<Record>, inside: T -> bool, step: int,
                        x: int, y: int, tx: int, ty: int, ex: int, ey: int, ux: int, uy: int)
    requires input.Valid() && read.Valid()
    requires Signal(input, read, inside, x, y, tx, ty)
    requires ux + ex * step == tx && uy + ey * step == ty
    requires inside(input.Read(ux, uy)) == inside(input.Read(x, y))
    ensures CandidateFor(input, read, inside, ux, uy, step, ex, ey).Some?
  {
  }

  /** One level halves the distance from each cell to a signal. */
  lemma LeadStep<T>(input: Grid<T>, read: Grid<Record>, write: Grid<Record>, inside: T -> bool,
                    level: nat, b: int, x: int, y: int)
    requires Compatible(input, read) && Compatible(input, write)
    requires read.outside == None && WithinReach(read, b)
    requires input.width <= 256 && input.height <= 256 && Step(level) <= b <= 256
    requires Contains(input.width, input.height, x, y)
    requires Lead(input, read, inside, Radius(level), x, y)
    ensures Lead(input, LevelPass(input, read, write, inside, level), inside, Step(level) - 1, x, y)
  {
    var r := Radius(level);
    var tx, ty :| -r <= tx - x <= r && -r <= ty - y <= r && Signal(input, read, inside, x, y, tx, ty);
    var ex, ux := HalfOffset(x, tx, Step(level), 0, input.width);
    var ey, uy := HalfOffset(y, ty, Step(level), 0, input.height);
    SignalMoves(input, read, write, inside, level, b, x, y, tx, ty, ex, ey, ux, uy);
  }

  lemma LevelPassInformed<T>(input: Grid<T>, read: Grid<Record>, write: Grid<Record>, inside: T -> bool,
                             level: nat, b: int)
    requires Compatible(input, read) && Compatible(input, write)
    requires read.outside == None && WithinReach(read, b)
    requires input.width <= 256 && input.height <= 256 && Step(level) <= b <= 256
    requires Informed(input, read, inside, Radius(level))
    ensures Informed(input, LevelPass(input, read, write, inside, level), inside, Radius(level - 1))
  {
    if level > 0 {
      StepHalves(level);
    }
    forall x, y | Contains(input.width, input.height, x, y)
      ensures Lead(input, LevelPass(input, read, write, inside, level), inside, Radius(level - 1), x, y)
    {
      LeadStep(input, read, write, inside, level, b, x, y);
    }
  }

  /** If every cell has a signal within the levels' radius, every cell of the final grid holds a record. */
  lemma {:induction false} RunLevelsCover<T>(input: Grid<T>, read: Grid<Record>, write: Grid<Record>, inside: T -> bool,
                                             level: int, b: int)
    requires Compatible(input, read) && Compatible(input, write)
    requires read.outside == None && write.outside == None
    requires WithinReach(read, b) && WithinReach(write, b)
    requires input.width <= 256 && input.height <= 256 && Step(level) <= b <= 256
    requires Informed(input, read, inside, Radius(level))
    ensures var final := RunLevels(input, read, write, inside, level).0;
      forall j :: 0 <= j < |final.cells| ==> final.cells[j].Some?
    decreases if level < 0 then 0 else level + 1
  {
    if level < 0 {
      forall j | 0 <= j < |read.cells|
        ensures read.cells[j].Some?
      {
        var x, y := j % read.width, j / read.width;
        CoordRoundTrip(read.width, read.height, j);
        assert Lead(input, read, inside, 0, x, y);
        assert read.Read(x, y) == read.cells[j];
      }
    } else {
      LevelPassInformed(input, read, write, inside, level, b);
      LevelPassWithinReach(input, read, write, inside, level, b);
      if level > 0 {
        StepHalves(level);
      }
      var g := LevelPass(input, read, write, inside, level);
      RunLevelsCover(input, g, read, inside, level - 1, b);
      assert RunLevels(input, read, write, inside, level) == RunLevels(input, g, read, inside, level - 1);
    }
  }

  /**
   * Coverage: on a grid of at most 256 by 256 cells where some cell is classified
   * differently from the outside value, the run from absent records leaves a record
   * in every cell.
   */
  lemma Coverage<T>(input: Grid<T>, read: Grid<Record>, write: Grid<Record>, inside: T -> bool)
    requires Compatible(input, read) && Compatible(input, write) && Absent(read) && Absent(write)
    requires input.width <= 256 && input.height <= 256
    requires !Uniform(input, inside)
    ensures var final := RunLevels(input, read, write, inside, MaxLevel(input.width, input.height)).0;
      forall j :: 0 <= j < |final.cells| ==> final.cells[j].Some?
  {
    var m := MaxLevel(input.width, input.height);
    MaxLevelStepBound(input.width, input.height);
    var j0 :| 0 <= j0 < |input.cells| && inside(input.cells[j0]) != inside(input.outside);
    var t := CoordOf(input.width, j0);
    CoordRoundTrip(input.width, input.height, j0);
    forall x, y | Contains(input.width, input.height, x, y)
      ensures Lead(input, read, inside, Radius(m), x, y)
    {
      if inside(input.Read(x, y)) != inside(input.outside) {
        assert Signal(input, read, inside, x, y, -1, y);
      } else {
        assert Signal(input, read, inside, x, y, t.0, t.1);
      }
    }
    RunLevelsCover(input, read, write, inside, m, Step(m));
  }

  /**
   * Under the conditions of Coverage, every result cell is a value
   * the classifier puts inside, and every inside cell keeps its own value.
   */
  lemma FillClassified<T>(input: Grid<T>, read: Grid<Record>, write: Grid<Record>, inside: T -> bool, zero: T)
    requires Compatible(input, read) && Compatible(input, write) && Absent(read) && Absent(write)
    requires input.width <= 256 && input.height <= 256
    requires !Uniform(input, inside)
    ensures var res := Resolve(input, RunLevels(input, read, write, inside, MaxLevel(input.width, input.height)).0, inside, zero);
      forall j :: 0 <= j < |res| ==> inside(res[j]) && (inside(input.cells[j]) ==> res[j] == input.cells[j])
  {
    var final := RunLevels(input, read, write, inside, MaxLevel(input.width, input.height)).0;
    Coverage(input, read, write, inside);
    AbsentSound(input, read, inside);
    AbsentSound(input, write, inside);
    RunLevelsSound(input, read, write, inside, MaxLevel(input.width, input.height));
    ResolveClassified(input, final, inside, zero);
  }

  /**
   * Single-seed flood: when exactly one cell is classified inside and the outside
   * value is not, every result cell is that cell's value.
   */
  lemma SingleSeedFlood<T>(input: Grid<T>, read: Grid<Record>, write: Grid<Record>, inside: T -> bool, zero: T, m: nat)
    requires Compatible(input, read) && Compatible(input, write) && Absent(read) && Absent(write)
    requires input.width <= 256 && input.height <= 256
    requires m < |input.cells| && inside(input.cells[m]) && !inside(input.outside)
    requires forall j :: 0 <= j < |input.cells| && j != m ==> !inside(input.cells[j])
    ensures var res := Resolve(input, RunLevels(input, read, write, inside, MaxLevel(input.width, input.height)).0, inside, zero);
      forall j :: 0 <= j < |res| ==> res[j] == input.cells[m]
  {
    var final := RunLevels(input, read, write, inside, MaxLevel(input.width, input.height)).0;
    var res := Resolve(input, final, inside, zero);
    FillClassified(input, read, write, inside, zero);
    Coverage(input, read, write, inside);
    forall j | 0 <= j < |res|
      ensures res[j] == input.cells[m]
    {
      if !inside(input.cells[j]) {
        var p := final.cells[j].value;
        if Contains(input.width, input.height, p.x, p.y) {
          assert input.Read(p.x, p.y) == input.cells[GetIndex(input.width, input.height, p.x, p.y)];
        }
      }
    }
  }

  // ---------------------------------------------------------------------------
  // Past the distance threshold: a single seed does not reach a far cell.

  /** A 1001 by 1 grid whose only cell classified inside is cell 0, with an outside value classified outside. */
  ghost predicate WideSingleSeed<T>(input: Grid<T>, inside: T -> bool)
  {
    && input.Valid() && input.width == 1001 && input.height == 1
    && inside(input.cells[0]) && !inside(input.outside)
    && forall j :: 0 < j < |input.cells| ==> !inside(input.cells[j])
  }

  /**
   * From sound records, every candidate offered to cell (1000, 0) of that grid is the
   * seed (0, 0), at squared distance 1000000, which the threshold refuses: every
   * level leaves the cell's slot as it was.
   */
  lemma FarCellKeepsSlot<T>(input: Grid<T>, records: Grid<Record>, inside: T -> bool, level: int, slot: Record)
    requires WideSingleSeed(input, inside) && Compatible(input, records) && Sound(input, records, inside)
    ensures CellUpdate(input, records, inside, 1000, 0, level, slot) == slot
  {
    var cands := Candidates(input, records, inside, 1000, 0, level);
    assert input.Read(1000, 0) == input.cells[1000];
    forall k | 0 <= k < 9 && cands[k].Some?
      ensures Distance2(cands[k].value, 1000, 0) >= InitialMinDistance
    {
      var c := CandidateFor(input, records, inside, 1000, 0, Step(level), k / 3 - 1, k % 3 - 1);
      assert cands[k] == c;
      var p := c.value;
      if Contains(input.width, input.height, p.x, p.y) {
        assert input.Read(p.x, p.y) == input.cells[p.x];
      }
      assert p == NearestPointInfo(0, 0);
    }
    ScanOutcome(cands, 0, 1000, 0, InitialMinDistance, slot);
  }

  /** On that grid, the run from sound records with no record at cell 1000 ends with none there either. */
  lemma {:induction false} FarCellStaysAbsent<T>(input: Grid<T>, read: Grid<Record>, write: Grid<Record>,
                                                 inside: T -> bool, level: int)
    requires WideSingleSeed(input, inside) && Compatible(input, read) && Compatible(input, write)
    requires Sound(input, read, inside) && Sound(input, write, inside)
    requires read.cells[1000].None? && write.cells[1000].None?
    ensures RunLevels(input, read, write, inside, level).0.cells[1000].None?
    decreases if level < 0 then 0 else level + 1
  {
    if level >= 0 {
      var g := LevelPass(input, read, write, inside, level);
      assert write.Read(1000, 0) == write.cells[1000];
      FarCellKeepsSlot(input, read, inside, level, write.Read(1000, 0));
      assert g.Read(1000, 0) == g.cells[1000];
      LevelPassSound(input, read, write, inside, level);
      FarCellStaysAbsent(input, g, read, inside, level - 1);
      assert RunLevels(input, read, write, inside, level) == RunLevels(input, g, read, inside, level - 1);
    }
  }

  /**
   * The single-seed flood fails past 256 by 256: on the 1001 by 1 grid, the run from
   * absent records resolves cell 1000 to the default value, not to the seed's value.
   */
  lemma WideSingleSeedGivesDefault<T>(input: Grid<T>, read: Grid<Record>, write: Grid<Record>, inside: T -> bool, zero: T)
    requires WideSingleSeed(input, inside)
    requires Compatible(input, read) && Compatible(input, write) && Absent(read) && Absent(write)
    ensures Resolve(input, RunLevels(input, read, write, inside, MaxLevel(1001, 1)).0, inside, zero)[1000] == zero
  {
    AbsentSound(input, read, inside);
    AbsentSound(input, write, inside);
    FarCellStaysAbsent(input, read, write, inside, MaxLevel(1001, 1));
  }

  // ---------------------------------------------------------------------------
  // Records can point off the grid.

  /** A point classified differently from cell (x, y) is not that cell, so its squared distance is positive. */
  lemma DifferentClassAway<T>(input: Grid<T>, inside: T -> bool, p: NearestPointInfo, x: int, y: int)
    requires input.Valid() && inside(input.Read(p.x, p.y)) != inside(input.Read(x, y))
    ensures Distance2(p, x, y) > 0
  {
    assert p.x != x || p.y != y;
  }

  /**
   * From sound records, none of a cell's nine candidates is the cell itself, since
   * each is classified differently from it.
   */
  lemma CandidatesAway<T>(input: Grid<T>, records: Grid<Record>, inside: T -> bool, x: int, y: int, level: int)
    requires Compatible(input, records) && Sound(input, records, inside)
    ensures var cands := Candidates(input, records, inside, x, y, level);
      forall k :: 0 <= k < 9 && cands[k].Some? ==> Distance2(cands[k].value, x, y) >= 1
  {
    var cands := Candidates(input, records, inside, x, y, level);
    forall k | 0 <= k < 9 && cands[k].Some?
      ensures Distance2(cands[k].value, x, y) >= 1
    {
      var c := CandidateFor(input, records, inside, x, y, Step(level), k / 3 - 1, k % 3 - 1);
      assert cands[k] == c;
      DifferentClassAway(input, inside, c.value, x, y);
    }
  }

  /**
   * At level 0, from sound records, a cell in column 0 classified differently from
   * the outside value records the off-grid point (-1, y) beside it: at squared
   * distance 1 it is the first of the closest candidates, since none is at distance 0.
   */
  lemma LeftBorderAtLevelZero<T>(input: Grid<T>, read: Grid<Record>, inside: T -> bool, y: int, slot: Record)
    requires Compatible(input, read) && Sound(input, read, inside)
    requires 0 <= y < input.height && inside(input.outside) != inside(input.Read(0, y))
    ensures CellUpdate(input, read, inside, 0, y, 0, slot) == Some(NearestPointInfo(-1, y))
  {
    var cands := Candidates(input, read, inside, 0, y, 0);
    LeftBorderCandidates(input, read, inside, y);
    CandidatesAway(input, read, inside, 0, y, 0);
    FirstOfClosest(cands, 0, y, slot);
  }

  /**
   * Nine candidates whose first two sit at squared distances 2 and 1 and whose others
   * sit at distance at least 1: the scan picks the second.
   */
  lemma FirstOfClosest(cands: seq<Record>, x: int, y: int, slot: Record)
    requires |cands| == 9
    requires cands[0].Some? && Distance2(cands[0].value, x, y) == 2
    requires cands[1].Some? && Distance2(cands[1].value, x, y) == 1
    requires forall k :: 2 <= k < 9 && cands[k].Some? ==> Distance2(cands[k].value, x, y) >= 1
    ensures Scan(cands, 0, x, y, InitialMinDistance, slot) == cands[1]
  {
    ScanOutcome(cands, 0, x, y, InitialMinDistance, slot);
    assert !(Distance2(cands[1].value, x, y) >= InitialMinDistance);
    var i :| FirstNearest(cands, 0, x, y, InitialMinDistance, i)
      && Scan(cands, 0, x, y, InitialMinDistance, slot) == cands[i];
  }

  /** The first two level-0 candidates of a column-0 cell classified unlike the outside value are off-grid points. */
  lemma LeftBorderCandidates<T>(input: Grid<T>, read: Grid<Record>, inside: T -> bool, y: int)
    requires input.Valid() && read.Valid()
    requires 0 <= y < input.height && inside(input.outside) != inside(input.Read(0, y))
    ensures var cands := Candidates(input, read, inside, 0, y, 0);
      && cands[0] == Some(NearestPointInfo(-1, y - 1)) && Distance2(cands[0].value, 0, y) == 2
      && cands[1] == Some(NearestPointInfo(-1, y)) && Distance2(cands[1].value, 0, y) == 1
  {
    CandidateNumber(input, read, inside, 0, y, 0, -1, -1);
    CandidateNumber(input, read, inside, 0, y, 0, -1, 0);
  }

  /**
   * In the whole run from sound records, a column-0 cell classified outside beside
   * an outside value classified inside ends with the record (-1, y), and so its
   * result is the outside value.
   */
  lemma {:induction false} LeftBorderResolvesOutside<T>(input: Grid<T>, read: Grid<Record>, write: Grid<Record>,
                                                        inside: T -> bool, zero: T, level: nat, y: int)
    requires Compatible(input, read) && Compatible(input, write)
    requires Sound(input, read, inside) && Sound(input, write, inside)
    requires 0 <= y < input.height && inside(input.outside) && !inside(input.Read(0, y))
    ensures var final := RunLevels(input, read, write, inside, level).0;
      final.Read(0, y) == Some(NearestPointInfo(-1, y))
      && Resolve(input, final, inside, zero)[y * input.width] == input.outside
    decreases level
  {
    IndexBound(input.width, input.height, 0, y);
    if level == 0 {
      LeftBorderAtLevelZero(input, read, inside, y, write.Read(0, y));
    } else {
      LevelPassSound(input, read, write, inside, level);
      LeftBorderResolvesOutside(input, LevelPass(input, read, write, inside, level), read, inside, zero, level - 1, y);
    }
  }

  /**
   * A one-cell grid holding 0 whose outside value 5 is classified differently: at
   * level 0 the cell's record becomes the off-grid coordinate (-1, 0), and the cell
   * resolves to the outside value.
   */
  lemma OffGridRecordExample()
    ensures var input := Grid(1, 1, [0], 5);
      var records := Grid(1, 1, [None], None);
      var inside := (v: int) => v != 0;
      && CellUpdate(input, records, inside, 0, 0, 0, None) == Some(NearestPointInfo(-1, 0))
      && Resolve(input, Grid(1, 1, [Some(NearestPointInfo(-1, 0))], None), inside, 0) == [5]
  {
    var input := Grid(1, 1, [0], 5);
    var records := Grid(1, 1, [None], None);
    var inside := (v: int) => v != 0;
    assert Sound(input, records, inside);
    LeftBorderAtLevelZero(input, records, inside, 0, None);
  }
}
