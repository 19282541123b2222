/** The sample frame `etch` draws: a `width` by `height` RGB canvas, zeroed
    (black) at first, covered by square blocks of side `size` in row-major
    grid order, one block per bit (Binary) or per RGB triple (Color). The
    canvas is indexed `[y, x]`; blocks at the right and bottom edges are
    clipped. Saving it as a PNG is not modelled. */
module Visualizer {
  import opened Wrappers

  datatype Rgb = Rgb(r: bv8, g: bv8, b: bv8)

  /** The colour of a fresh `RgbImage` pixel, and of a 0 bit. */
  const Black := Rgb(0, 0, 0)

  /** The colour of a 1 bit. */
  const White := Rgb(255, 255, 255)

  /** Blocks per grid row: `x` steps through `0, size, 2 size, ...` while below `width`. */
  function CellsPerRow(width: nat, size: nat): nat
    requires size > 0
  {
    (width + size - 1) / size
  }

  /** The row-major index of the grid cell that covers pixel `(px, py)`. */
  function CellOf(px: nat, py: nat, width: nat, size: nat): nat
    requires size > 0
  {
    MulMono(0, py / size, CellsPerRow(width, size));
    (py / size) * CellsPerRow(width, size) + px / size
  }

  /** The block whose top-left corner is `(x, y)`. */
  predicate InBlock(px: nat, py: nat, x: nat, y: nat, size: nat) {
    x <= px < x + size && y <= py < y + size
  }

  /** The colour of cell `k` when the first `|cells|` cells are painted and
      the rest keep the canvas's initial black. */
  function CellColor(cells: seq<Rgb>, k: nat): Rgb {
    if k < |cells| then cells[k] else Black
  }

  /** The colour pixel `(px, py)` ends with. */
  function Painted(cells: seq<Rgb>, width: nat, size: nat, px: nat, py: nat): Rgb
    requires size > 0
  {
    CellColor(cells, CellOf(px, py, width, size))
  }

  /** Binary mode: one cell per bit, white for 1 and black for 0. */
  function BinaryCells(bits: seq<bool>): (cells: seq<Rgb>)
    ensures |cells| == |bits|
    ensures forall k :: 0 <= k < |bits| ==> cells[k] == if bits[k] then White else Black
  {
    seq(|bits|, k requires 0 <= k < |bits| => if bits[k] then White else Black)
  }

  /** Color mode: one cell per complete RGB triple; one or two trailing bytes
      are not drawn. */
  function ColorCells(bytes: seq<bv8>): (cells: seq<Rgb>)
    ensures |cells| == |bytes| / 3
    ensures forall k :: 0 <= k < |cells| ==> cells[k] == Rgb(bytes[3 * k], bytes[3 * k + 1], bytes[3 * k + 2])
  {
    seq(|bytes| / 3, k requires 0 <= k < |bytes| / 3 => Rgb(bytes[3 * k], bytes[3 * k + 1], bytes[3 * k + 2]))
  }

  /** The drawing loop's test `byte_index + 2 < len` for cell `k`: a cell is
      drawn exactly when all three of its bytes exist. */
  lemma ColorCellDrawn(bytes: seq<bv8>, k: nat)
    ensures k < |ColorCells(bytes)| <==> 3 * k + 2 < |bytes|
  {
  }

  // ---- Grid arithmetic ----

  lemma MulMono(a: nat, b: nat, s: nat)
    requires a <= b
    ensures a * s <= b * s
  {
  }

  lemma DivBounds(a: nat, d: nat)
    requires d > 0
    ensures (a / d) * d <= a < (a / d) * d + d
  {
  }

  /** Division is determined by the interval the dividend lies in. */
  lemma DivUnique(a: nat, d: nat, q: nat)
    requires d > 0 && q * d <= a < q * d + d
    ensures a / d == q
  {
    DivBounds(a, d);
    var r := a / d;
    if r < q {
      MulMono(r + 1, q, d);
    } else if r > q {
      MulMono(q + 1, r, d);
    }
  }

  /** The grid rows are exactly wide enough: the last block starts inside the
      canvas and the blocks reach its right edge. */
  lemma CellsPerRowBounds(width: nat, size: nat)
    requires size > 0
    ensures width <= CellsPerRow(width, size) * size
    ensures CellsPerRow(width, size) > 0 ==> (CellsPerRow(width, size) - 1) * size < width
  {
    DivBounds(width + size - 1, size);
  }

  /** A pixel column inside the canvas falls in one of its grid columns. */
  lemma ColumnInGrid(px: nat, width: nat, size: nat)
    requires size > 0 && px < width
    ensures px / size < CellsPerRow(width, size)
  {
    var cpr := CellsPerRow(width, size);
    CellsPerRowBounds(width, size);
    DivBounds(px, size);
    if px / size >= cpr {
      MulMono(cpr, px / size, size);
    }
  }

  /** Row-major indices are unique. */
  lemma MixedRadix(q: nat, r: nat, row: nat, col: nat, n: nat)
    requires r < n && col < n && q * n + r == row * n + col
    ensures q == row && r == col
  {
    if q < row {
      MulMono(q + 1, row, n);
    } else if q > row {
      MulMono(row + 1, q, n);
    }
  }

  /** A pixel of the block at `(col * size, row * size)` is in grid column
      `col` and grid row `row`. */
  lemma BlockToCell(px: nat, py: nat, size: nat, row: nat, col: nat)
    requires size > 0 && InBlock(px, py, col * size, row * size, size)
    ensures px / size == col && py / size == row
  {
    DivUnique(px, size, col);
    DivUnique(py, size, row);
  }

  /** A pixel whose cell is `row * cellsPerRow + col` lies in the block at
      `(col * size, row * size)`. */
  lemma CellToBlock(px: nat, py: nat, width: nat, size: nat, row: nat, col: nat)
    requires size > 0 && px < width && col < CellsPerRow(width, size)
    requires CellOf(px, py, width, size) == row * CellsPerRow(width, size) + col
    ensures InBlock(px, py, col * size, row * size, size)
  {
    var q, r := py / size, px / size;
    ColumnInGrid(px, width, size);
    MixedRadix(q, r, row, col, CellsPerRow(width, size));
    DivBounds(px, size);
    DivBounds(py, size);
  }

  /** Cell `row * cellsPerRow + col` covers exactly the pixels of the block at
      `(col * size, row * size)`. */
  lemma CellOfBlock(px: nat, py: nat, width: nat, size: nat, row: nat, col: nat)
    requires size > 0 && px < width && col * size < width
    ensures CellOf(px, py, width, size) == row * CellsPerRow(width, size) + col
        <==> InBlock(px, py, col * size, row * size, size)
  {
    ColumnStarts(col, width, size);
    if InBlock(px, py, col * size, row * size, size) {
      BlockToCell(px, py, size, row, col);
    }
    if CellOf(px, py, width, size) == row * CellsPerRow(width, size) + col {
      CellToBlock(px, py, width, size, row, col);
    }
  }

  /** Pixels above grid row `row` belong to cells before that row's first cell. */
  lemma CellOfAbove(px: nat, py: nat, width: nat, size: nat, row: nat)
    requires size > 0 && px < width && py < row * size
    ensures CellOf(px, py, width, size) < row * CellsPerRow(width, size)
  {
    var cpr := CellsPerRow(width, size);
    var q := py / size;
    ColumnInGrid(px, width, size);
    DivBounds(py, size);
    if q >= row {
      MulMono(row, q, size);
    }
    MulMono(q + 1, row, cpr);
  }

  /** An inner loop that has left the canvas has visited every grid column. */
  lemma RowFinished(col: nat, width: nat, size: nat)
    requires size > 0 && col <= CellsPerRow(width, size) && col * size >= width
    ensures col == CellsPerRow(width, size)
  {
    var cpr := CellsPerRow(width, size);
    CellsPerRowBounds(width, size);
    if col < cpr {
      MulMono(col, cpr - 1, size);
    }
  }

  /** A block that starts inside the canvas is in one of the grid columns. */
  lemma ColumnStarts(col: nat, width: nat, size: nat)
    requires size > 0 && col * size < width
    ensures col < CellsPerRow(width, size)
  {
    CellsPerRowBounds(width, size);
    if col >= CellsPerRow(width, size) {
      MulMono(CellsPerRow(width, size), col, size);
    }
  }

  // ---- Drawing ----

  /** The block fill shared by both modes: every pixel of the `size` by `size`
      block at `(x, y)` that lies inside the canvas becomes `color`; nothing
      else changes. */
  method FillBlock(img: array2<Rgb>, x: nat, y: nat, size: nat, color: Rgb)
    modifies img
    ensures forall py, px :: 0 <= py < img.Length0 && 0 <= px < img.Length1 ==>
      img[py, px] == if InBlock(px, py, x, y, size) then color else old(img[py, px])
  {
    for dy := 0 to size
      invariant forall py, px :: 0 <= py < img.Length0 && 0 <= px < img.Length1 ==>
        img[py, px] == if x <= px < x + size && y <= py < y + dy then color else old(img[py, px])
    {
      for dx := 0 to size
        invariant forall py, px :: 0 <= py < img.Length0 && 0 <= px < img.Length1 ==>
          img[py, px] ==
            if (x <= px < x + size && y <= py < y + dy) || (py == y + dy && x <= px < x + dx) then color
            else old(img[py, px])
      {
        if y + dy < img.Length0 && x + dx < img.Length1 {
          img[y + dy, x + dx] := color;
        }
      }
    }
  }

  /** The first `c` cells have their colour; every other pixel is still black. */
  ghost predicate DrawnUpTo(img: array2<Rgb>, cells: seq<Rgb>, size: nat, c: nat)
    requires size > 0
    reads img
  {
    forall py, px :: 0 <= py < img.Length0 && 0 <= px < img.Length1 ==>
      img[py, px] == if CellOf(px, py, img.Length1, size) < c then Painted(cells, img.Length1, size, px, py) else Black
  }

  lemma MulSucc(a: nat, b: nat)
    ensures (a + 1) * b == a * b + b
  {
  }

  /** A cell past the last colour stays black, as the drawing says it should. */
  lemma SkipCell(img: array2<Rgb>, cells: seq<Rgb>, size: nat, c: nat)
    requires size > 0 && |cells| <= c && DrawnUpTo(img, cells, size, c)
    ensures DrawnUpTo(img, cells, size, c + 1)
  {
  }

  /** Once the rows cover the canvas, every pixel has its final colour. */
  lemma DrawnAll(img: array2<Rgb>, cells: seq<Rgb>, size: nat, row: nat)
    requires size > 0 && img.Length0 <= row * size
    requires DrawnUpTo(img, cells, size, row * CellsPerRow(img.Length1, size))
    ensures forall py, px :: 0 <= py < img.Length0 && 0 <= px < img.Length1 ==>
      img[py, px] == Painted(cells, img.Length1, size, px, py)
  {
    forall py, px | 0 <= py < img.Length0 && 0 <= px < img.Length1
      ensures img[py, px] == Painted(cells, img.Length1, size, px, py)
    {
      CellOfAbove(px, py, img.Length1, size, row);
    }
  }

  /** Binary mode: blocks are visited row by row, left to right; while bits
      remain, the next bit paints its block white (1) or black (0). Every
      pixel ends with the colour of the bit of the cell covering it, or black
      past the last bit. */
  method DrawBinary(bits: seq<bool>, width: nat, height: nat, size: nat) returns (img: array2<Rgb>)
    requires size > 0
    ensures fresh(img) && img.Length0 == height && img.Length1 == width
    ensures forall py, px :: 0 <= py < height && 0 <= px < width ==>
      img[py, px] == Painted(BinaryCells(bits), width, size, px, py)
  {
    img := new Rgb[height, width]((_, _) => Black);
    ghost var cells := BinaryCells(bits);
    ghost var cpr := CellsPerRow(width, size);
    var bitIndex := 0;
    var y := 0;
    ghost var row, rowStart := 0, 0;  // grid row, and the index of its first cell
    while y < height
      invariant y == row * size && rowStart == row * cpr
      invariant bitIndex == Min(|bits|, rowStart)
      invariant DrawnUpTo(img, cells, size, rowStart)
      decreases height - y
    {
      var x := 0;
      ghost var col, c := 0, rowStart;  // grid column, and the cell's index
      while x < width
        invariant x == col * size && col <= cpr && c == rowStart + col
        invariant bitIndex == Min(|bits|, c)
        invariant DrawnUpTo(img, cells, size, c)
        decreases width - x
      {
        ColumnStarts(col, width, size);
        if bitIndex < |bits| {
          var color := if bits[bitIndex] then White else Black;
          FillBlock(img, x, y, size, color);
          forall py, px | 0 <= py < height && 0 <= px < width
            ensures img[py, px] == if CellOf(px, py, width, size) < c + 1 then Painted(cells, width, size, px, py) else Black
          {
            CellOfBlock(px, py, width, size, row, col);
          }
          bitIndex := bitIndex + 1;
        } else {
          SkipCell(img, cells, size, c);
        }
        MulSucc(col, size);
        x := x + size;
        col, c := col + 1, c + 1;
      }
      RowFinished(col, width, size);
      MulSucc(row, size);
      MulSucc(row, cpr);
      y := y + size;
      row, rowStart := row + 1, rowStart + cpr;
    }
    DrawnAll(img, cells, size, row);
  }

  /** Color mode: blocks are visited row by row, left to right; while three
      more bytes remain, the next triple paints its block in that RGB colour.
      Every pixel ends with the colour of the triple of the cell covering it,
      or black past the last complete triple. */
  method DrawColor(bytes: seq<bv8>, width: nat, height: nat, size: nat) returns (img: array2<Rgb>)
    requires size > 0
    ensures fresh(img) && img.Length0 == height && img.Length1 == width
    ensures forall py, px :: 0 <= py < height && 0 <= px < width ==>
      img[py, px] == Painted(ColorCells(bytes), width, size, px, py)
  {
    img := new Rgb[height, width]((_, _) => Black);
    ghost var cells := ColorCells(bytes);
    ghost var cpr := CellsPerRow(width, size);
    var byteIndex := 0;
    var y := 0;
    ghost var row, rowStart := 0, 0;  // grid row, and the index of its first cell
    while y < height
      invariant y == row * size && rowStart == row * cpr
      invariant byteIndex == 3 * Min(|cells|, rowStart)
      invariant DrawnUpTo(img, cells, size, rowStart)
      decreases height - y
    {
      var x := 0;
      ghost var col, c := 0, rowStart;  // grid column, and the cell's index
      while x < width
        invariant x == col * size && col <= cpr && c == rowStart + col
        invariant byteIndex == 3 * Min(|cells|, c)
        invariant DrawnUpTo(img, cells, size, c)
        decreases width - x
      {
        ColumnStarts(col, width, size);
        if byteIndex + 2 < |bytes| {
          var color := Rgb(bytes[byteIndex], bytes[byteIndex + 1], bytes[byteIndex + 2]);
          FillBlock(img, x, y, size, color);
          forall py, px | 0 <= py < height && 0 <= px < width
            ensures img[py, px] == if CellOf(px, py, width, size) < c + 1 then Painted(cells, width, size, px, py) else Black
          {
            CellOfBlock(px, py, width, size, row, col);
          }
          byteIndex := byteIndex + 3;
        } else {
          SkipCell(img, cells, size, c);
        }
        MulSucc(col, size);
        x := x + size;
        col, c := col + 1, c + 1;
      }
      RowFinished(col, width, size);
      MulSucc(row, size);
      MulSucc(row, cpr);
      y := y + size;
      row, rowStart := row + 1, rowStart + cpr;
    }
    DrawnAll(img, cells, size, row);
  }
}
