/**
  The pixel matrix of fire/fire.c: a `width` by `height` grid of 32-bit
  RGB values stored row by row in one array, with the red, green and blue
  channels in bits 16-23, 8-15 and 0-7 of each value.

  The bounds assertions of `matrix_get` and `matrix_set` admit `x == width`
  and `y == height`; the members `GetIndexAsWritten`, `SetIndexAsWritten`
  and the lemmas beside them model those checks as written. The class
  `Matrix` requires the row to lie inside the grid; `Get` and `GetRgb` keep
  the source's `x == width`, which the modulo turns into column 0, while
  `Set` and `SetRgb` require the column to lie inside the grid too.
 */
module Fire {

  /** Red, green and blue packed as `(r << 16) | (g << 8) | b`. */
  function Pack(r: bv8, g: bv8, b: bv8): (p: bv32)
    ensures p & 0xFF00_0000 == 0
    ensures Red(p) == r && Green(p) == g && Blue(p) == b
  {
    (r as bv32 << 16) | (g as bv32 << 8) | (b as bv32)
  }

  /** `(uint8_t)((val & 0xFF0000) >> 16)`: bits 16-23 of the value,
      which the byte puts back in place when shifted left by 16. */
  function Red(val: bv32): (c: bv8)
    ensures val & 0xFF0000 == c as bv32 << 16
  {
    ((val & 0xFF0000) >> 16) as bv8
  }

  /** `(uint8_t)((val & 0x00FF00) >> 8)`: bits 8-15 of the value,
      which the byte puts back in place when shifted left by 8. */
  function Green(val: bv32): (c: bv8)
    ensures val & 0x00FF00 == c as bv32 << 8
  {
    ((val & 0x00FF00) >> 8) as bv8
  }

  /** `(uint8_t)(val & 0x0000FF)`: bits 0-7 of the value. */
  function Blue(val: bv32): (c: bv8)
    ensures val & 0x0000FF == c as bv32
  {
    (val & 0x0000FF) as bv8
  }

  /** Unpacking keeps the low 24 bits of a value and drops the top byte. */
  lemma PackUnpack(val: bv32)
    ensures Pack(Red(val), Green(val), Blue(val)) == val & 0xFF_FFFF
  {
  }

  /** Cell (x, y) of a grid `width` cells wide sits at `y * width + x`. */
  function Index(x: nat, y: nat, width: nat): nat
  {
    y * width + x
  }

  /** A cell inside the grid has an index inside the array. */
  lemma IndexInBounds(x: nat, y: nat, width: nat, height: nat)
    requires x < width && y < height
    ensures Index(x, y, width) < width * height
  {
    assert Index(x, y, width) < y * width + width == (y + 1) * width;
    MulMonotone(y + 1, height, width);
  }

  /** The column `matrix_get` reads: `x` itself inside the grid, and 0
      for `x == width`. */
  lemma Column(x: nat, width: nat)
    requires 0 < width && x <= width
    ensures x < width ==> x % width == x
    ensures x == width ==> x % width == 0
  {
  }

  /** Row `y` ends where row `y + 1` starts, and no later than the grid. */
  lemma RowEnd(y: nat, height: nat, width: nat)
    ensures y * width + width == (y + 1) * width
    ensures y < height ==> (y + 1) * width <= height * width
  {
    if y < height {
      MulMonotone(y + 1, height, width);
    }
  }

  lemma MulMonotone(a: nat, b: nat, c: nat)
    requires a <= b
    ensures a * c <= b * c
  {
  }

  /** Distinct cells of the grid have distinct indices. */
  lemma IndexInjective(x1: nat, y1: nat, x2: nat, y2: nat, width: nat)
    requires x1 < width && x2 < width
    requires Index(x1, y1, width) == Index(x2, y2, width)
    ensures x1 == x2 && y1 == y2
  {
    if y1 < y2 {
      MulMonotone(y1 + 1, y2, width);
      assert false;
    } else if y2 < y1 {
      MulMonotone(y2 + 1, y1, width);
      assert false;
    }
  }

  /** A one-byte output cell, the target of an `uint8_t*` argument. */
  class ByteCell {
    var value: bv8

    constructor ()
      ensures value == 0
    {
      value := 0;
    }
  }

  /** `struct matrix`. */
  class Matrix {
    var pixels: array<bv32>
    var width: nat
    var height: nat

    ghost predicate Valid()
      reads this
    {
      pixels.Length == width * height
    }

    /** matrix_init: `width * height` values, all zeroed. */
    constructor Init(width: nat, height: nat)
      ensures Valid() && fresh(pixels)
      ensures this.width == width && this.height == height
      ensures forall i :: 0 <= i < pixels.Length ==> pixels[i] == 0
    {
      this.width := width;
      this.height := height;
      pixels := new bv32[width * height](_ => 0);
    }

    /** matrix_get: the value of cell (x, y). The source reduces `x` modulo
        the width, which leaves a column inside the grid unchanged and reads
        column 0 of the same row for `x == width`. */
    function Get(x: nat, y: nat): (v: bv32)
      requires Valid() && 0 < width && x <= width && y < height
      reads this, pixels
      ensures x < width ==> Index(x, y, width) < pixels.Length && v == pixels[Index(x, y, width)]
      ensures x == width ==> Index(0, y, width) < pixels.Length && v == pixels[Index(0, y, width)]
    {
      Column(x, width);
      IndexInBounds(x % width, y, width, height);
      pixels[y * width + x % width]
    }

    /** matrix_set: cell (x, y) becomes `val`; no other cell changes. */
    method Set(x: nat, y: nat, val: bv32)
      requires Valid() && x < width && y < height
      modifies pixels
      ensures Valid()
      ensures Index(x, y, width) < pixels.Length
      ensures pixels[..] == old(pixels[..])[Index(x, y, width) := val]
      ensures Get(x, y) == val
      ensures forall x': nat, y': nat :: x' < width && y' < height && (x', y') != (x, y) ==> Get(x', y') == old(Get(x', y'))
    {
      IndexInBounds(x, y, width, height);
      pixels[y * width + x] := val;
      forall x': nat, y': nat | x' < width && y' < height && (x', y') != (x, y)
        ensures Get(x', y') == old(Get(x', y'))
      {
        IndexInBounds(x', y', width, height);
        if Index(x', y', width) == Index(x, y, width) {
          IndexInjective(x', y', x, y, width);
        }
      }
    }

    /** matrix_setrgb: cell (x, y) becomes the packed colour, so reading it
        back yields the same three channels. */
    method SetRgb(x: nat, y: nat, r: bv8, g: bv8, b: bv8)
      requires Valid() && x < width && y < height
      modifies pixels
      ensures Valid()
      ensures Index(x, y, width) < pixels.Length
      ensures pixels[..] == old(pixels[..])[Index(x, y, width) := Pack(r, g, b)]
      ensures Red(Get(x, y)) == r && Green(Get(x, y)) == g && Blue(Get(x, y)) == b
      ensures forall x': nat, y': nat :: x' < width && y' < height && (x', y') != (x, y) ==> Get(x', y') == old(Get(x', y'))
    {
      Set(x, y, Pack(r, g, b));
    }

    /** matrix_getrgb: the channels of cell (x, y) are written to the cells
        that are not NULL, red first, then green, then blue; when two
        arguments are the same cell the later channel is the one left. */
    method GetRgb(x: nat, y: nat, r: ByteCell?, g: ByteCell?, b: ByteCell?)
      requires Valid() && 0 < width && x <= width && y < height
      modifies r, g, b
      ensures b != null ==> b.value == Blue(Get(x, y))
      ensures g != null && g != b ==> g.value == Green(Get(x, y))
      ensures r != null && r != g && r != b ==> r.value == Red(Get(x, y))
    {
      var val := Get(x, y);
      var red, green, blue := Red(val), Green(val), Blue(val);
      if r != null {
        r.value := red;
      }
      if g != null {
        g.value := green;
      }
      if b != null {
        b.value := blue;
      }
    }
  }

  /** A colour written with matrix_setrgb and read with matrix_getrgb into
      three separate cells comes back channel for channel. */
  method SetThenGetRgb(m: Matrix, x: nat, y: nat, r: bv8, g: bv8, b: bv8) returns (r': bv8, g': bv8, b': bv8)
    requires m.Valid() && x < m.width && y < m.height
    modifies m.pixels
    ensures r' == r && g' == g && b' == b
  {
    m.SetRgb(x, y, r, g, b);
    var rc := new ByteCell();
    var gc := new ByteCell();
    var bc := new ByteCell();
    m.GetRgb(x, y, rc, gc, bc);
    r', g', b' := rc.value, gc.value, bc.value;
  }

  // -----------------------------------------------------------------------
  // The bounds checks as written: `x <= m->width` and `y <= m->height`.
  // -----------------------------------------------------------------------

  /** The assertions of matrix_get and matrix_set as written. */
  predicate BoundsAsWritten(x: int, y: int, width: nat, height: nat)
  {
    0 <= x <= width && 0 <= y <= height
  }

  /** The index matrix_get reads: `y * width + x % width`. Under the
      assertions as written it lies inside the array exactly when the row
      does: the modulo keeps the column in range, but nothing keeps the
      row below `height`. */
  function GetIndexAsWritten(x: nat, y: nat, width: nat, height: nat): (i: nat)
    requires 0 < width && BoundsAsWritten(x, y, width, height)
    ensures i < width * height <==> y < height
  {
    RowEnd(y, height, width);
    y * width + x % width
  }

  /** The index matrix_set writes: `y * width + x`. Under the assertions as
      written it lies inside the array exactly when the cell is inside the
      grid or is `(width, y)` for a row before the last, which lands on
      column 0 of the next row. */
  function SetIndexAsWritten(x: nat, y: nat, width: nat, height: nat): (i: nat)
    requires BoundsAsWritten(x, y, width, height)
    ensures i < width * height <==> 0 < width && (y + 1 < height || (y + 1 == height && x < width))
  {
    RowEnd(y, height, width);
    RowEnd(y + 1, height, width);
    y * width + x
  }

  /** matrix_get with `y == height` passes the assertions and reads the
      value just past the end of the array. */
  lemma GetAsWrittenOutOfBounds(width: nat, height: nat)
    requires width > 0
    ensures BoundsAsWritten(0, height, width, height)
    ensures GetIndexAsWritten(0, height, width, height) == width * height
  {
  }

  /** matrix_set with `x == width` on the last row passes the assertions
      and writes the value just past the end of the array; on an earlier
      row it overwrites column 0 of the next row. */
  lemma SetAsWrittenOutOfBounds(width: nat, height: nat)
    requires height > 0
    ensures BoundsAsWritten(width, height - 1, width, height)
    ensures SetIndexAsWritten(width, height - 1, width, height) == width * height
    ensures forall y :: 0 <= y < height - 1 ==> SetIndexAsWritten(width, y, width, height) == Index(0, y + 1, width)
  {
  }

  /** With the strict bounds the class requires, both indices stay inside
      the array and name the cell (x, y). */
  lemma StrictBoundsInside(x: nat, y: nat, width: nat, height: nat)
    requires x < width && y < height
    ensures GetIndexAsWritten(x, y, width, height) == SetIndexAsWritten(x, y, width, height) < width * height
  {
    Column(x, width);
  }
}
