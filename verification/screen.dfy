/**
 * The terminal surface the frame draws on, reduced to a store of cells.
 * A drawing call outside the current grid is an error the renderer
 * swallows, so a guarded write outside the grid leaves the store as it was.
 */
module Screen {
  import opened Settings

  /** The colour pair and attribute a glyph is drawn with. */
  datatype Style = HeadPair | TrailPair | MessagePair(emphasis: Emphasis)

  datatype Cell = Cell(glyph: char, style: Style)

  /** Drawn cells keyed by (row, column). */
  type Cells = map<(int, int), Cell>

  predicate InBounds(height: int, width: int, y: int, x: int)
  {
    0 <= y < height && 0 <= x < width
  }

  /** Every drawn cell lies on a `height` x `width` grid. */
  ghost predicate OnGrid(cells: Cells, height: int, width: int)
  {
    forall p :: p in cells ==> InBounds(height, width, p.0, p.1)
  }

  /** A write whose failure is swallowed: off the grid it changes nothing. */
  function Write(cells: Cells, height: int, width: int, y: int, x: int, c: Cell): (r: Cells)
  {
    if InBounds(height, width, y, x) then cells[(y, x) := c] else cells
  }

  /**
   * What a write does: it keeps the cells on the grid, it adds the cell
   * (y, x) exactly when that position is on the grid, and it leaves every
   * other cell as it was.
   */
  lemma WriteEffect(cells: Cells, height: int, width: int, y: int, x: int, c: Cell)
    ensures var r := Write(cells, height, width, y, x, c);
            && (OnGrid(cells, height, width) ==> OnGrid(r, height, width))
            && ((y, x) in r <==> (y, x) in cells || InBounds(height, width, y, x))
            && (InBounds(height, width, y, x) ==> r[(y, x)] == c)
            && (forall p :: p != (y, x) ==> (p in r <==> p in cells))
            && (forall p :: p in cells && p != (y, x) ==> r[p] == cells[p])
  {
  }

  /** Writing at row `height` (one past the last row) is discarded. */
  lemma WriteBelowGridDiscarded(cells: Cells, height: int, width: int, x: int, c: Cell)
    ensures Write(cells, height, width, height, x, c) == cells
  {
  }

  /** The terminal window: its current size and what has been drawn this frame. */
  class Screen {
    var height: nat
    var width: nat
    var cells: Cells

    constructor (height: nat, width: nat)
      ensures this.height == height && this.width == width && cells == map[]
    {
      this.height := height;
      this.width := width;
      cells := map[];
    }

    /** Clears the frame before drawing. */
    method Erase()
      modifies this`cells
      ensures cells == map[]
    {
      cells := map[];
    }

    /** A drawing call wrapped in a handler that ignores the bounds error. */
    method Put(y: int, x: int, c: Cell)
      modifies this`cells
      ensures cells == Write(old(cells), height, width, y, x, c)
    {
      if InBounds(height, width, y, x) {
        cells := cells[(y, x) := c];
      }
    }

    /** A drawing call with no handler: the caller must stay on the grid. */
    method PutOnGrid(y: int, x: int, c: Cell)
      requires InBounds(height, width, y, x)
      modifies this`cells
      ensures cells == old(cells)[(y, x) := c]
    {
      cells := cells[(y, x) := c];
    }
  }
}
