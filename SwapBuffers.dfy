/**
 * Two Buffers of identical shape and an active index (class SwapBuffer<T> of
 * JFA/Program.cs). Writes go to the active buffer, reads come from the other
 * one, and Swap exchanges the two roles.
 */
module SwapBuffers {
  import opened Buffers

  /** The index Swap moves to: `(i + 1) % 2`, the other of the two buffers. */
  function Toggle(i: int): (j: int)
    requires i == 0 || i == 1
    ensures (j == 0 || j == 1) && j != i
  {
    (i + 1) % 2
  }

  /** Two swaps bring the active index back. */
  lemma ToggleTwice(i: int)
    requires i == 0 || i == 1
    ensures Toggle(Toggle(i)) == i
  {
  }

  /** After the n-th swap from index 0 the active index is n % 2. */
  lemma SwapParity(n: int)
    ensures Toggle(n % 2) == (n + 1) % 2
  {
  }

  class SwapBuffer<T> {
    const buffers: seq<Buffer<T>>
    var activeIndex: int

    /** The two buffers: distinct arrays, the same width, height and outside value. */
    ghost predicate Shape()
    {
      && |buffers| == 2
      && buffers[0].Valid() && buffers[1].Valid()
      && buffers[0].values != buffers[1].values
      && buffers[0].width == buffers[1].width
      && buffers[0].height == buffers[1].height
      && buffers[0].outsideValue == buffers[1].outsideValue
    }

    ghost predicate Valid()
      reads this
    {
      Shape() && (activeIndex == 0 || activeIndex == 1)
    }

    /** The width of buffer 0, which both buffers share. */
    function Width(): (w: nat)
      requires |buffers| == 2
      ensures Shape() ==> w == buffers[0].width && w == buffers[1].width
    {
      buffers[0].width
    }

    /** The height of buffer 0, which both buffers share. */
    function Height(): (h: nat)
      requires |buffers| == 2
      ensures Shape() ==> h == buffers[0].height && h == buffers[1].height
    {
      buffers[0].height
    }

    /** What the indexer's getter sees: the buffer that is not active. */
    ghost function ReadView(): (g: Grid<T>)
      reads this, buffers[0].values, buffers[1].values
      requires Valid()
      ensures g.Valid() && g.width == Width() && g.height == Height()
      ensures g.outside == buffers[0].outsideValue
    {
      buffers[Toggle(activeIndex)].View()
    }

    /** What the indexer's setter changes: the active buffer. */
    ghost function WriteView(): (g: Grid<T>)
      reads this, buffers[0].values, buffers[1].values
      requires Valid()
      ensures g.Valid() && g.width == Width() && g.height == Height()
      ensures g.outside == buffers[0].outsideValue
    {
      buffers[activeIndex].View()
    }

    constructor (width: nat, height: nat, outsideValue: T, zero: T)
      ensures Valid() && activeIndex == 0
      ensures fresh(buffers[0].values) && fresh(buffers[1].values)
      ensures ReadView() == Grid(width, height, seq(width * height, _ => zero), outsideValue)
      ensures WriteView() == ReadView()
    {
      var b0 := new Buffer(width, height, outsideValue, zero);
      var b1 := new Buffer(width, height, outsideValue, zero);
      buffers := [b0, b1];
      activeIndex := 0;
    }

    /** The two roles change places; no cell moves. */
    method Swap()
      requires Valid()
      modifies this
      ensures Valid() && activeIndex == Toggle(old(activeIndex))
      ensures ReadView() == old(WriteView()) && WriteView() == old(ReadView())
    {
      activeIndex := (activeIndex + 1) % 2;
    }

    /** Bulk load into the active buffer; the read side is untouched. */
    method Copy(src: array<T>)
      requires Valid() && src.Length >= Width() * Height()
      modifies buffers[activeIndex].values
      ensures Valid()
      ensures WriteView().cells == old(src[..Width() * Height()])
      ensures ReadView() == old(ReadView())
    {
      buffers[activeIndex].Copy(src);
    }

    function Contains(x: int, y: int): (r: bool)
      requires |buffers| == 2
      ensures r <==> 0 <= x < Width() && 0 <= y < Height()
    {
      Buffers.Contains(buffers[0].width, buffers[0].height, x, y)
    }

    method Get(x: int, y: int) returns (r: T)
      requires Valid()
      ensures r == ReadView().Read(x, y)
    {
      r := buffers[(activeIndex + 1) % 2].Get(x, y);
    }

    /** A write lands in the active buffer and is invisible to reads until the next Swap. */
    method Set(x: int, y: int, v: T)
      requires Valid() && Contains(x, y)
      modifies buffers[activeIndex].values
      ensures Valid()
      ensures WriteView() == old(WriteView()).Write(x, y, v)
      ensures ReadView() == old(ReadView())
    {
      buffers[activeIndex].Set(x, y, v);
    }
  }
}
