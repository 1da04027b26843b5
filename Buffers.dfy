/**
 * A dense, row-major width-by-height grid (class Buffer<T> of JFA/Program.cs):
 * bounds-checked reads that answer a stored outside value, writes at y*width+x,
 * and a bulk load from an array.
 */
module Buffers {

  /** Buffer.Contains: whether (x, y) lies on a width-by-height grid. */
  function Contains(width: int, height: int, x: int, y: int): (r: bool)
    ensures r <==> 0 <= x < width && 0 <= y < height
  {
    !(x < 0 || x >= width || y < 0 || y >= height)
  }

  /** Buffer.GetIndex: row-major index of an in-range cell, -1 for any other coordinate. */
  function GetIndex(width: int, height: int, x: int, y: int): (i: int)
    ensures Contains(width, height, x, y) ==> 0 <= i < width * height
    ensures !Contains(width, height, x, y) ==> i == -1
  {
    if !Contains(width, height, x, y) then -1
    else
      IndexBound(width, height, x, y);
      y * width + x
  }

  lemma IndexBound(width: int, height: int, x: int, y: int)
    requires 0 <= x < width && 0 <= y < height
    ensures 0 <= y * width + x < width * height
  {
    calc {
      y * width + x;
    <
      y * width + width;
    ==
      (y + 1) * width;
    <=  { assert y + 1 <= height; }
      height * width;
    }
  }

  /** Two cells of the same row width that share an index are the same cell. */
  lemma GetIndexInjective(width: int, x1: int, y1: int, x2: int, y2: int)
    requires 0 <= x1 < width && 0 <= x2 < width
    requires y1 * width + x1 == y2 * width + x2
    ensures x1 == x2 && y1 == y2
  {
    if y1 > y2 {
      MulAtLeast(y1 - y2, width);
    } else if y1 < y2 {
      MulAtLeast(y2 - y1, width);
    }
  }

  lemma MulAtLeast(k: int, w: int)
    requires k >= 1 && w >= 0
    ensures k * w >= w
  {
    assert k * w == (k - 1) * w + w;
  }

  /** The coordinate a row-major index stands for. */
  function CoordOf(width: int, i: int): (c: (int, int))
    requires width > 0
  {
    (i % width, i / width)
  }

  /** GetIndex and CoordOf are inverse bijections between the in-range cells and [0, width*height). */
  lemma IndexRoundTrip(width: int, height: int, x: int, y: int)
    requires Contains(width, height, x, y)
    ensures CoordOf(width, GetIndex(width, height, x, y)) == (x, y)
  {
    var i := y * width + x;
    assert i == (i / width) * width + i % width;
    GetIndexInjective(width, i % width, i / width, x, y);
  }

  lemma CoordRoundTrip(width: int, height: int, i: int)
    requires width > 0 && 0 <= i < width * height
    ensures Contains(width, height, CoordOf(width, i).0, CoordOf(width, i).1)
    ensures GetIndex(width, height, CoordOf(width, i).0, CoordOf(width, i).1) == i
  {
    var q, r := i / width, i % width;
    assert i == q * width + r;
    if q >= height {
      MulMonotone(height, q, width);
    }
  }

  lemma MulMonotone(a: int, b: int, w: int)
    requires a <= b && w >= 0
    ensures a * w <= b * w
  {
    assert b * w == a * w + (b - a) * w;
  }

  /** The contents of a Buffer as a value: what a reader can observe. */
  datatype Grid<T> = Grid(width: nat, height: nat, cells: seq<T>, outside: T)
  {
    ghost predicate Valid()
    {
      |cells| == width * height
    }

    /** The indexer's getter: the outside value off the grid, the stored cell on it. */
    function Read(x: int, y: int): (r: T)
      requires Valid()
      ensures !Contains(width, height, x, y) ==> r == outside
      ensures Contains(width, height, x, y) ==> r == cells[GetIndex(width, height, x, y)]
    {
      if !Contains(width, height, x, y) then outside
      else cells[GetIndex(width, height, x, y)]
    }

    /** The indexer's setter, defined only on the grid. */
    function Write(x: int, y: int, v: T): (g: Grid<T>)
      requires Valid() && Contains(width, height, x, y)
      ensures g.Valid()
      ensures g.width == width && g.height == height && g.outside == outside
    {
      Grid(width, height, cells[GetIndex(width, height, x, y) := v], outside)
    }
  }

  /** After a write, the written cell reads back the new value and every other coordinate is unchanged. */
  lemma ReadAfterWrite<T>(g: Grid<T>, x: int, y: int, v: T, a: int, b: int)
    requires g.Valid() && Contains(g.width, g.height, x, y)
    ensures g.Write(x, y, v).Read(a, b) == if a == x && b == y then v else g.Read(a, b)
  {
    if Contains(g.width, g.height, a, b) && (a != x || b != y) {
      if b * g.width + a == y * g.width + x {
        GetIndexInjective(g.width, a, b, x, y);
      }
    }
  }

  /** Writing back the value a cell already holds leaves the grid as it was. */
  lemma WriteSame<T>(g: Grid<T>, x: int, y: int)
    requires g.Valid() && Contains(g.width, g.height, x, y)
    ensures g.Write(x, y, g.Read(x, y)) == g
  {
  }

  /** A second write to the same cell overrides the first. */
  lemma WriteTwice<T>(g: Grid<T>, x: int, y: int, u: T, v: T)
    requires g.Valid() && Contains(g.width, g.height, x, y)
    ensures g.Write(x, y, u).Write(x, y, v) == g.Write(x, y, v)
  {
  }

  class Buffer<T> {
    const width: nat
    const height: nat
    const values: array<T>
    const outsideValue: T

    ghost predicate Valid()
    {
      values.Length == width * height
    }

    ghost function View(): (g: Grid<T>)
      reads values
      requires Valid()
      ensures g.Valid() && g.width == width && g.height == height && g.outside == outsideValue
    {
      Grid(width, height, values[..], outsideValue)
    }

    /** `zero` is the element type's default value, which C# puts in every new cell. */
    constructor (width: nat, height: nat, outsideValue: T, zero: T)
      ensures Valid() && fresh(values)
      ensures View() == Grid(width, height, seq(width * height, _ => zero), outsideValue)
    {
      this.width := width;
      this.height := height;
      values := new T[width * height](_ => zero);
      this.outsideValue := outsideValue;
    }

    /** Array.Copy of the first width*height elements of `src`. */
    method Copy(src: array<T>)
      requires Valid() && src.Length >= values.Length
      modifies values
      ensures values[..] == old(src[..values.Length])
      ensures forall x, y :: Contains(width, height, x, y) ==> View().Read(x, y) == old(src[GetIndex(width, height, x, y)])
    {
      forall i | 0 <= i < values.Length {
        values[i] := src[i];
      }
    }

    method Get(x: int, y: int) returns (r: T)
      requires Valid()
      ensures r == View().Read(x, y)
    {
      if !Contains(width, height, x, y) {
        return outsideValue;
      }
      r := values[GetIndex(width, height, x, y)];
    }

    method Set(x: int, y: int, v: T)
      requires Valid() && Contains(width, height, x, y)
      modifies values
      ensures View() == old(View()).Write(x, y, v)
    {
      values[GetIndex(width, height, x, y)] := v;
    }
  }
}
