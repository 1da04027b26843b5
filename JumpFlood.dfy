/**
 * The JFA<T> driver of JFA/Program.cs: an input Buffer and a SwapBuffer of
 * nearest-point records, a per-cell search over nine offsets, and Execute,
 * which runs the levels from MaxLevel down to 0 and then resolves the result.
 * Each method is proved against the value-level definitions of JumpFloodModel.
 */
module JumpFlood {
  import opened Wrappers
  import opened Buffers
  import opened SwapBuffers
  import opened JumpFloodModel

  class JFA<T> {
    const buffer: Buffer<T>
    const nearestPoints: SwapBuffer<Record>
    /** default(T): what the result holds for a cell that never found a record. */
    const defaultValue: T

    ghost predicate Valid()
      reads nearestPoints
    {
      && buffer.Valid() && nearestPoints.Valid()
      && buffer.width > 0 && buffer.height > 0
      && nearestPoints.Width() == buffer.width && nearestPoints.Height() == buffer.height
      && nearestPoints.buffers[0].outsideValue == None
      && buffer.values as object != nearestPoints.buffers[0].values as object
      && buffer.values as object != nearestPoints.buffers[1].values as object
    }

    constructor (width: int, height: int, values: array<T>, outsideValue: T, defaultValue: T)
      requires width > 0 && height > 0 && values.Length >= width * height
      ensures Valid() && nearestPoints.activeIndex == 0
      ensures fresh(buffer.values) && fresh(nearestPoints)
      ensures fresh(nearestPoints.buffers[0].values) && fresh(nearestPoints.buffers[1].values)
      ensures buffer.View() == Grid(width, height, old(values[..width * height]), outsideValue)
      ensures Absent(nearestPoints.ReadView()) && Absent(nearestPoints.WriteView())
      ensures this.defaultValue == defaultValue
    {
      var b := new Buffer(width, height, outsideValue, defaultValue);
      b.Copy(values);
      buffer := b;
      nearestPoints := new SwapBuffer(width, height, None, None);
      this.defaultValue := defaultValue;
    }

    /**
     * The candidate that offset (nx, ny) at distance `step` offers cell (x, y), whose
     * value is `currentPixel`: read from the input and from the committed records.
     */
    method OffsetCandidate(x: int, y: int, step: int, nx: int, ny: int, currentPixel: T, inside: T -> bool)
      returns (c: Record)
      requires Valid() && currentPixel == buffer.View().Read(x, y)
      ensures c == CandidateFor(buffer.View(), nearestPoints.ReadView(), inside, x, y, step, nx, ny)
    {
      var sampleX := x + nx * step;
      var sampleY := y + ny * step;
      var samplePixel := buffer.Get(sampleX, sampleY);
      var nearestPointOfSamplePixel := nearestPoints.Get(sampleX, sampleY);
      if inside(currentPixel) != inside(samplePixel) {
        c := Some(NearestPointInfo(sampleX, sampleY));
      } else {
        c := nearestPointOfSamplePixel;
      }
    }

    /**
     * The body of the offset loop for offset (nx, ny): the candidate is written into
     * cell (x, y) of the active record buffer when it is strictly closer than
     * `minDistance`, which then becomes its distance.
     */
    method ConsiderOffset(x: int, y: int, step: int, nx: int, ny: int, currentPixel: T, inside: T -> bool,
                          minDistance: int)
      returns (newMinDistance: int)
      requires Valid() && Contains(buffer.width, buffer.height, x, y)
      requires currentPixel == buffer.View().Read(x, y)
      modifies nearestPoints.buffers[nearestPoints.activeIndex].values
      ensures Valid()
      ensures nearestPoints.ReadView() == old(nearestPoints.ReadView())
      ensures var next := Consider(CandidateFor(buffer.View(), nearestPoints.ReadView(), inside, x, y, step, nx, ny),
                                   x, y, minDistance, old(nearestPoints.WriteView()).Read(x, y));
        && newMinDistance == next.0
        && nearestPoints.WriteView() == old(nearestPoints.WriteView()).Write(x, y, next.1)
    {
      ghost var w0 := nearestPoints.WriteView();
      WriteSame(w0, x, y);
      newMinDistance := minDistance;
      var nearestPixel := OffsetCandidate(x, y, step, nx, ny, currentPixel, inside);
      if nearestPixel.None? {
        return;
      }
      var sampleDistance := Length2(nearestPixel.value.x - x, nearestPixel.value.y - y);
      if sampleDistance < minDistance {
        newMinDistance := sampleDistance;
        nearestPoints.Set(x, y, nearestPixel);
      }
    }

    /**
     * One level for one cell: writes into the active record buffer at (x, y) each
     * candidate strictly closer than all before it, and nothing else.
     */
    method SearchNearestPixelInLevel(x: int, y: int, level: int, inside: T -> bool)
      requires Valid() && Contains(buffer.width, buffer.height, x, y)
      modifies nearestPoints.buffers[nearestPoints.activeIndex].values
      ensures Valid() && buffer.View() == old(buffer.View())
      ensures nearestPoints.ReadView() == old(nearestPoints.ReadView())
      ensures nearestPoints.WriteView() == old(nearestPoints.WriteView()).Write(x, y,
        CellUpdate(old(buffer.View()), old(nearestPoints.ReadView()), inside, x, y, level,
                   old(nearestPoints.WriteView()).Read(x, y)))
    {
      var step: int := Step(level);
      var minDistance := InitialMinDistance;
      var currentPixel := buffer.Get(x, y);
      ghost var input := buffer.View();
      ghost var records := nearestPoints.ReadView();
      ghost var w0 := nearestPoints.WriteView();
      ghost var cands := Candidates(input, records, inside, x, y, level);
      ghost var target := Scan(cands, 0, x, y, InitialMinDistance, w0.Read(x, y));
      ghost var slot := w0.Read(x, y);
      WriteSame(w0, x, y);
      for nx := -1 to 2
        invariant nearestPoints.ReadView() == records && buffer.View() == input
        invariant nearestPoints.WriteView() == w0.Write(x, y, slot)
        invariant Scan(cands, (nx + 1) * 3, x, y, minDistance, slot) == target
      {
        for ny := -1 to 2
          invariant nearestPoints.ReadView() == records && buffer.View() == input
          invariant nearestPoints.WriteView() == w0.Write(x, y, slot)
          invariant Scan(cands, (nx + 1) * 3 + (ny + 1), x, y, minDistance, slot) == target
        {
          ghost var k := (nx + 1) * 3 + (ny + 1);
          CandidateNumber(input, records, inside, x, y, level, nx, ny);
          ghost var next := Consider(cands[k], x, y, minDistance, slot);
          ScanStep(cands, k, x, y, minDistance, slot);
          ReadAfterWrite(w0, x, y, slot, x, y);
          minDistance := ConsiderOffset(x, y, step, nx, ny, currentPixel, inside, minDistance);
          WriteTwice(w0, x, y, slot, next.1);
          slot := next.1;
        }
      }
    }

    /**
     * One raster pass of `level` over every cell, rows outer and columns inner: the
     * active record buffer becomes the level's pass over the committed records.
     */
    method RasterPass(level: int, inside: T -> bool)
      requires Valid()
      modifies nearestPoints.buffers[nearestPoints.activeIndex].values
      ensures Valid()
      ensures nearestPoints.ReadView() == old(nearestPoints.ReadView())
      ensures nearestPoints.WriteView()
        == LevelPass(buffer.View(), nearestPoints.ReadView(), old(nearestPoints.WriteView()), inside, level)
    {
      ghost var input := buffer.View();
      ghost var read := nearestPoints.ReadView();
      ghost var write := nearestPoints.WriteView();
      for y := 0 to buffer.height
        invariant nearestPoints.ReadView() == read && buffer.View() == input
        invariant nearestPoints.WriteView() == PartialPass(input, read, write, inside, level, y * buffer.width)
      {
        ghost var row := y * buffer.width;
        for x := 0 to buffer.width
          invariant nearestPoints.ReadView() == read && buffer.View() == input
          invariant nearestPoints.WriteView() == PartialPass(input, read, write, inside, level, row + x)
        {
          ghost var before := nearestPoints.WriteView();
          SearchNearestPixelInLevel(x, y, level, inside);
          PartialPassStep(input, read, write, inside, level, x, y, row + x, before, nearestPoints.WriteView());
        }
        assert row + buffer.width == (y + 1) * buffer.width;
      }
      assert buffer.height * buffer.width == |write.cells|;
    }

    /**
     * Runs levels MaxLevel down to 0, each a raster pass over every cell followed by
     * one Swap, then builds the result from the last committed records.
     */
    method Execute(inside: T -> bool) returns (result: array<T>)
      requires Valid()
      modifies nearestPoints, nearestPoints.buffers[0].values, nearestPoints.buffers[1].values
      ensures Valid() && fresh(result)
      ensures nearestPoints.activeIndex == (old(nearestPoints.activeIndex) + MaxLevel(buffer.width, buffer.height) + 1) % 2
      ensures (nearestPoints.ReadView(), nearestPoints.WriteView())
        == RunLevels(buffer.View(), old(nearestPoints.ReadView()), old(nearestPoints.WriteView()), inside,
                     MaxLevel(buffer.width, buffer.height))
      ensures result[..] == Resolve(buffer.View(), nearestPoints.ReadView(), inside, defaultValue)
    {
      var maxLevel := MaxLevel(buffer.width, buffer.height);
      ghost var input := buffer.View();
      ghost var final := RunLevels(input, nearestPoints.ReadView(), nearestPoints.WriteView(), inside, maxLevel);
      ghost var active0 := nearestPoints.activeIndex;
      var i := maxLevel;
      while i >= 0
        invariant -1 <= i <= maxLevel
        invariant Valid() && buffer.View() == input
        invariant RunLevels(input, nearestPoints.ReadView(), nearestPoints.WriteView(), inside, i) == final
        invariant nearestPoints.activeIndex == (active0 + maxLevel - i) % 2
        decreases i + 1
      {
        ghost var read, write := nearestPoints.ReadView(), nearestPoints.WriteView();
        RasterPass(i, inside);
        nearestPoints.Swap();
        RunLevelsStep(input, read, write, inside, i);
        SwapParity(active0 + maxLevel - i);
        i := i - 1;
      }
      result := ResolvePass(inside);
    }

    /** The resolution pass: each cell's result from its committed record, row by row. */
    method ResolvePass(inside: T -> bool) returns (result: array<T>)
      requires Valid()
      ensures fresh(result)
      ensures result[..] == Resolve(buffer.View(), nearestPoints.ReadView(), inside, defaultValue)
    {
      ghost var input := buffer.View();
      ghost var records := nearestPoints.ReadView();
      var width := buffer.width;
      result := new T[buffer.width * buffer.height](_ => defaultValue);
      for y := 0 to buffer.height
        invariant y * width <= result.Length
        invariant forall j :: 0 <= j < y * width ==> result[j] == ResolveCell(input, records, inside, defaultValue, j)
        invariant forall j :: y * width <= j < result.Length ==> result[j] == defaultValue
      {
        ghost var row := y * width;
        IndexBound(width, buffer.height, width - 1, y);
        for x := 0 to buffer.width
          invariant row + x <= result.Length
          invariant forall j :: 0 <= j < row + x ==> result[j] == ResolveCell(input, records, inside, defaultValue, j)
          invariant forall j :: row + x <= j < result.Length ==> result[j] == defaultValue
        {
          ghost var j := GetIndex(width, buffer.height, x, y);
          assert j == row + x;
          var currentPixel := buffer.Get(x, y);
          var nearestPixelOfCurrentPixel := nearestPoints.Get(x, y);
          assert currentPixel == input.cells[j] && nearestPixelOfCurrentPixel == records.cells[j];
          if nearestPixelOfCurrentPixel.None? {
            continue;
          } else if inside(currentPixel) {
            result[y * width + x] := currentPixel;
          } else {
            var nearestPixel := buffer.Get(nearestPixelOfCurrentPixel.value.x, nearestPixelOfCurrentPixel.value.y);
            result[y * width + x] := nearestPixel;
          }
        }
        assert row + width == (y + 1) * width;
      }
      assert buffer.height * width == result.Length;
    }
  }

  /** A record grid of the given shape with no record on it or off it. */
  function AbsentGrid(width: nat, height: nat): (g: Grid<Record>)
    ensures g.Valid() && g.width == width && g.height == height && Absent(g)
  {
    Grid(width, height, seq(width * height, _ => None), None)
  }

  /**
   * The driver as a caller uses it: build a JFA over the first width*height values
   * and run it. The result is the resolution of the run from absent records; every
   * cell is the default value or classified inside, and on a grid of at most 256 by
   * 256 cells with any cell classified unlike the outside value, every cell is
   * classified inside and every inside cell keeps its own value.
   */
  method Fill<T>(width: int, height: int, values: array<T>, outsideValue: T, defaultValue: T, inside: T -> bool)
    returns (result: array<T>)
    requires width > 0 && height > 0 && values.Length >= width * height
    ensures var input := Grid(width, height, values[..width * height], outsideValue);
      var res := Resolve(input, RunLevels(input, AbsentGrid(width, height), AbsentGrid(width, height), inside,
                                          MaxLevel(width, height)).0, inside, defaultValue);
      && result[..] == res
      && (forall j :: 0 <= j < |res| ==> res[j] == defaultValue || inside(res[j]))
      && (width <= 256 && height <= 256 && !Uniform(input, inside) ==>
            forall j :: 0 <= j < |res| ==> inside(res[j]) && (inside(input.cells[j]) ==> res[j] == input.cells[j]))
  {
    ghost var input := Grid(width, height, values[..width * height], outsideValue);
    ghost var absent := AbsentGrid(width, height);
    var jfa := new JFA(width, height, values, outsideValue, defaultValue);
    assert jfa.nearestPoints.ReadView() == absent && jfa.nearestPoints.WriteView() == absent;
    result := jfa.Execute(inside);
    ExecuteClassified(input, absent, absent, inside, defaultValue, MaxLevel(width, height));
    if width <= 256 && height <= 256 && !Uniform(input, inside) {
      FillClassified(input, absent, absent, inside, defaultValue);
    }
  }
}
