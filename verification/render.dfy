/** Drawing text into the framebuffer. A text cell is 4 pixels wide and
    7 pixels high, so text row cy starts at pixel row 7 * cy, which is bit
    (7 * cy) % 8 of page (7 * cy) / 8: a glyph column straddles two pages
    unless it starts at bit 0 or 1. The renderer reads both pages into one
    16-bit window, clears the seven glyph bits, ors in the glyph column and
    writes both bytes back. Scrolling moves every pixel up by one text row. */
module Render {
  import opened Bits
  import opened Font
  import opened Framebuffer

  /** Text cells per row and text rows per screen. */
  const TextColumns: nat := 32
  const TextRows: nat := 9

  /* ---- The 16-bit window over two vertically adjacent bytes ---- */

  /** Byte lo in the low half and byte hi, the page below, in the high half. */
  function Window(lo: bv8, hi: bv8): bv16 {
    (lo as bv16) + ((hi as bv16) << 8)
  }

  /** The truncating `(uint8_t)` cast. */
  function LowByte(w: bv16): bv8 {
    (w & 0xFF) as bv8
  }

  function HighByte(w: bv16): bv8 {
    (w >> 8) as bv8
  }

  /** Clears the seven bits from bitIn on and ors the glyph column in there. */
  function Merge(w: bv16, bitIn: bv8, col: bv8): bv16
    requires bitIn < 8
  {
    (w & !((0x7F as bv16) << bitIn)) | ((col as bv16) << bitIn)
  }

  lemma LowSplit(lo: bv8, hi: bv8, bitIn: bv8, col: bv8)
    requires bitIn < 8
    ensures LowByte(Merge(Window(lo, hi), bitIn, col))
            == (lo & LowByte(!((0x7F as bv16) << bitIn))) | LowByte((col as bv16) << bitIn)
  {
  }

  lemma HighSplit(lo: bv8, hi: bv8, bitIn: bv8, col: bv8)
    requires bitIn < 8
    ensures HighByte(Merge(Window(lo, hi), bitIn, col))
            == (hi & HighByte(!((0x7F as bv16) << bitIn))) | HighByte((col as bv16) << bitIn)
  {
  }

  lemma ClearLow(bitIn: bv8, b: bv8)
    requires bitIn < 8 && b < 8
    ensures Bit(LowByte(!((0x7F as bv16) << bitIn)), b) == !(bitIn <= b < bitIn + 7)
  {
  }

  lemma ClearHigh(bitIn: bv8, b: bv8)
    requires bitIn < 8 && b < 8
    ensures Bit(HighByte(!((0x7F as bv16) << bitIn)), b) == !(8 + b < bitIn + 7)
  {
  }

  lemma GlyphLow(col: bv8, bitIn: bv8, b: bv8)
    requires bitIn < 8 && b < 8 && col < 0x80
    ensures Bit(LowByte((col as bv16) << bitIn), b) == (bitIn <= b < bitIn + 7 && Bit(col, b - bitIn))
  {
  }

  lemma GlyphHigh(col: bv8, bitIn: bv8, b: bv8)
    requires bitIn < 8 && b < 8 && col < 0x80
    ensures Bit(HighByte((col as bv16) << bitIn), b) == (8 + b < bitIn + 7 && Bit(col, 8 + b - bitIn))
  {
  }

  /** One bit of `(prev & keep) | glyph`, where keep clears exactly the bits
      inside the glyph and glyph sets only bits inside it. */
  lemma Assemble(prev: bv8, keep: bv8, glyph: bv8, b: bv8, inside: bool, glyphBit: bool)
    requires b < 8
    requires Bit(keep, b) == !inside
    requires Bit(glyph, b) == (inside && glyphBit)
    ensures Bit((prev & keep) | glyph, b) == if inside then glyphBit else Bit(prev, b)
  {
  }

  /** Bit b of the merged low byte is glyph bit b - bitIn inside the seven
      glyph bits and the old bit outside them. */
  lemma MergeLow(lo: bv8, hi: bv8, bitIn: bv8, col: bv8, b: bv8)
    requires bitIn < 8 && b < 8 && col < 0x80
    ensures Bit(LowByte(Merge(Window(lo, hi), bitIn, col)), b)
            == if bitIn <= b < bitIn + 7 then Bit(col, b - bitIn) else Bit(lo, b)
  {
    var inside := bitIn <= b < bitIn + 7;
    var glyphBit := inside && Bit(col, b - bitIn);
    LowSplit(lo, hi, bitIn, col);
    ClearLow(bitIn, b);
    GlyphLow(col, bitIn, b);
    Assemble(lo, LowByte(!((0x7F as bv16) << bitIn)), LowByte((col as bv16) << bitIn), b, inside, glyphBit);
  }

  /** Bit b of the merged high byte is glyph bit 8 + b - bitIn for the glyph
      bits that spill over into the next page and the old bit otherwise. */
  lemma MergeHigh(lo: bv8, hi: bv8, bitIn: bv8, col: bv8, b: bv8)
    requires bitIn < 8 && b < 8 && col < 0x80
    ensures Bit(HighByte(Merge(Window(lo, hi), bitIn, col)), b)
            == if 8 + b < bitIn + 7 then Bit(col, 8 + b - bitIn) else Bit(hi, b)
  {
    var inside := 8 + b < bitIn + 7;
    var glyphBit := inside && Bit(col, 8 + b - bitIn);
    HighSplit(lo, hi, bitIn, col);
    ClearHigh(bitIn, b);
    GlyphHigh(col, bitIn, b);
    Assemble(hi, HighByte(!((0x7F as bv16) << bitIn)), HighByte((col as bv16) << bitIn), b, inside, glyphBit);
  }

  /* ---- From byte-level bit indices to pixel rows ---- */

  lemma LowBridge(m: nat, n: nat)
    requires m < 8 && n < 8
    ensures (BitIndex(n) <= BitIndex(m) < BitIndex(n) + 7) == (n <= m < n + 7)
  {
  }

  lemma HighBridge(m: nat, n: nat)
    requires m < 8 && n < 8
    ensures (8 + BitIndex(m) < BitIndex(n) + 7) == (8 + m < n + 7)
  {
  }

  lemma SubLow(m: nat, n: nat)
    requires n <= m < 8
    ensures BitIndex(m) - BitIndex(n) == BitIndex(m - n)
  {
    if n == 0 {} else if n == 1 {} else if n == 2 {} else if n == 3 {}
    else if n == 4 {} else if n == 5 {} else if n == 6 {} else {}
  }

  lemma SubHigh(m: nat, n: nat)
    requires m + 1 < n < 8
    ensures 8 + BitIndex(m) - BitIndex(n) == BitIndex(8 + m - n)
  {
    if n == 2 {} else if n == 3 {} else if n == 4 {}
    else if n == 5 {} else if n == 6 {} else {}
  }

  /* ---- One glyph column ---- */

  /** The page holding the top pixel row 7 * cy of text row cy (`first_row`). */
  function FirstPage(cy: nat): (p: nat)
    requires cy < TextRows
    ensures p < Pages
  {
    (cy * 7) / 8
  }

  /** The bit of that page holding the top pixel row (`bit_in`). */
  function BitOffset(cy: nat): (n: nat)
    requires cy < TextRows
    ensures n < 8 && 7 * cy == 8 * FirstPage(cy) + n
  {
    (cy * 7) % 8
  }

  /** Whether there is a page below the first one. Only the last text row,
      whose glyphs start at bit 0 of the last page, has none. */
  predicate HasSecondPage(cy: nat)
    requires cy < TextRows
  {
    FirstPage(cy) + 1 < Pages
  }

  /** Whether pixel (x', y') lies in the seven-pixel column that a glyph
      column drawn at pixel column x of text row cy covers. */
  predicate InColumn(cy: nat, x: nat, x': nat, y': nat) {
    x' == x && 7 * cy <= y' < 7 * cy + 7
  }

  /** The merged window of a glyph column, before it is split into bytes. */
  function MergedWindow(s: Screen, cy: nat, x: nat, col: bv8): bv16
    requires cy < TextRows && x < Width
  {
    var p := FirstPage(cy);
    var lo := s[Index(p, x)];
    var hi := if HasSecondPage(cy) then s[Index(p + 1, x)] else 0;
    Merge(Window(lo, hi), BitIndex(BitOffset(cy)), col)
  }

  /** Draws one glyph column col at pixel column x of text row cy: the bytes
      of the first page and, where there is one, the page below are merged
      through the 16-bit window and written back. */
  function DrawColumn(s: Screen, cy: nat, x: nat, col: bv8): Screen
    requires cy < TextRows && x < Width
  {
    var p := FirstPage(cy);
    var w := MergedWindow(s, cy, x, col);
    var r := s[Index(p, x) := LowByte(w)];
    if HasSecondPage(cy) then r[Index(p + 1, x) := HighByte(w)] else r
  }

  /** Pixels outside the two bytes the column touches keep their value, and
      the glyph column lies inside those bytes. */
  lemma DrawColumnElsewhere(s: Screen, cy: nat, x: nat, col: bv8, x': nat, y': nat)
    requires cy < TextRows && x < Width && x' < Width && y' < Height
    requires x' != x || y' / 8 < FirstPage(cy) || y' / 8 > FirstPage(cy) + 1
             || (y' / 8 == FirstPage(cy) + 1 && !HasSecondPage(cy))
    ensures !InColumn(cy, x, x', y')
    ensures Pixel(DrawColumn(s, cy, x, col), x', y') == Pixel(s, x', y')
  {
    var p := FirstPage(cy);
    assert Index(y' / 8, x') != Index(p, x);
    assert HasSecondPage(cy) ==> Index(y' / 8, x') != Index(p + 1, x);
  }

  /** The two bytes a glyph column writes. */
  lemma DrawColumnBytes(s: Screen, cy: nat, x: nat, col: bv8)
    requires cy < TextRows && x < Width
    ensures DrawColumn(s, cy, x, col)[Index(FirstPage(cy), x)] == LowByte(MergedWindow(s, cy, x, col))
    ensures HasSecondPage(cy) ==>
              DrawColumn(s, cy, x, col)[Index(FirstPage(cy) + 1, x)] == HighByte(MergedWindow(s, cy, x, col))
  {
  }

  /** Bit m of a merged low byte, with the bit offsets as numbers. */
  lemma MergeLowAt(lo: bv8, hi: bv8, n: nat, col: bv8, m: nat)
    requires n < 8 && m < 8 && col < 0x80
    ensures Bit(LowByte(Merge(Window(lo, hi), BitIndex(n), col)), BitIndex(m))
            == if n <= m < n + 7 then Bit(col, BitIndex(m - n)) else Bit(lo, BitIndex(m))
  {
    MergeLow(lo, hi, BitIndex(n), col, BitIndex(m));
    LowBridge(m, n);
    if n <= m {
      SubLow(m, n);
    }
  }

  /** Bit m of a merged high byte, with the bit offsets as numbers. */
  lemma MergeHighAt(lo: bv8, hi: bv8, n: nat, col: bv8, m: nat)
    requires n < 8 && m < 8 && col < 0x80
    ensures Bit(HighByte(Merge(Window(lo, hi), BitIndex(n), col)), BitIndex(m))
            == if 8 + m < n + 7 then Bit(col, BitIndex(8 + m - n)) else Bit(hi, BitIndex(m))
  {
    MergeHigh(lo, hi, BitIndex(n), col, BitIndex(m));
    HighBridge(m, n);
    if m + 1 < n {
      SubHigh(m, n);
    }
  }

  /** Bit m of the merged first-page byte: the glyph bit inside the seven
      glyph bits, the old bit outside them. */
  lemma MergedLowBit(s: Screen, cy: nat, x: nat, col: bv8, m: nat)
    requires cy < TextRows && x < Width && m < 8 && col < 0x80
    ensures Bit(LowByte(MergedWindow(s, cy, x, col)), BitIndex(m))
            == if BitOffset(cy) <= m < BitOffset(cy) + 7 then Bit(col, BitIndex(m - BitOffset(cy)))
               else Bit(s[Index(FirstPage(cy), x)], BitIndex(m))
  {
    var p, n := FirstPage(cy), BitOffset(cy);
    var lo := s[Index(p, x)];
    var hi := if HasSecondPage(cy) then s[Index(p + 1, x)] else 0;
    assert MergedWindow(s, cy, x, col) == Merge(Window(lo, hi), BitIndex(n), col);
    MergeLowAt(lo, hi, n, col, m);
  }

  /** Bit m of the merged byte of the page below: the glyph bits that spill
      over, and the old bit elsewhere. */
  lemma MergedHighBit(s: Screen, cy: nat, x: nat, col: bv8, m: nat)
    requires cy < TextRows && x < Width && m < 8 && col < 0x80 && HasSecondPage(cy)
    ensures Bit(HighByte(MergedWindow(s, cy, x, col)), BitIndex(m))
            == if 8 + m < BitOffset(cy) + 7 then Bit(col, BitIndex(8 + m - BitOffset(cy)))
               else Bit(s[Index(FirstPage(cy) + 1, x)], BitIndex(m))
  {
    var p, n := FirstPage(cy), BitOffset(cy);
    var lo := s[Index(p, x)];
    var hi := if HasSecondPage(cy) then s[Index(p + 1, x)] else 0;
    assert MergedWindow(s, cy, x, col) == Merge(Window(lo, hi), BitIndex(n), col);
    MergeHighAt(lo, hi, n, col, m);
  }

  /** Inside the first page the column's pixels are the glyph's bits. */
  lemma DrawColumnLow(s: Screen, cy: nat, x: nat, col: bv8, y': nat)
    requires cy < TextRows && x < Width && y' < Height && col < 0x80
    requires y' / 8 == FirstPage(cy)
    ensures Pixel(DrawColumn(s, cy, x, col), x, y')
            == if InColumn(cy, x, x, y') then Bit(col, BitIndex(y' - 7 * cy)) else Pixel(s, x, y')
  {
    DrawColumnBytes(s, cy, x, col);
    MergedLowBit(s, cy, x, col, y' % 8);
  }

  /** Inside the page below, the column's pixels are the glyph bits that
      spill over. */
  lemma DrawColumnHigh(s: Screen, cy: nat, x: nat, col: bv8, y': nat)
    requires cy < TextRows && x < Width && y' < Height && col < 0x80
    requires y' / 8 == FirstPage(cy) + 1 && HasSecondPage(cy)
    ensures Pixel(DrawColumn(s, cy, x, col), x, y')
            == if InColumn(cy, x, x, y') then Bit(col, BitIndex(y' - 7 * cy)) else Pixel(s, x, y')
  {
    DrawColumnBytes(s, cy, x, col);
    MergedHighBit(s, cy, x, col, y' % 8);
  }

  /** Drawing a glyph column sets the seven pixels of pixel column x from
      row 7 * cy on to the bits of col, top pixel first, and leaves every
      other pixel of the screen alone. */
  lemma DrawColumnPixel(s: Screen, cy: nat, x: nat, col: bv8, x': nat, y': nat)
    requires cy < TextRows && x < Width && x' < Width && y' < Height && col < 0x80
    ensures Pixel(DrawColumn(s, cy, x, col), x', y')
            == if InColumn(cy, x, x', y') then Bit(col, BitIndex(y' - 7 * cy)) else Pixel(s, x', y')
  {
    var p := FirstPage(cy);
    if x' != x || y' / 8 < p || y' / 8 > p + 1 || (y' / 8 == p + 1 && !HasSecondPage(cy)) {
      DrawColumnElsewhere(s, cy, x, col, x', y');
    } else if y' / 8 == p {
      DrawColumnLow(s, cy, x, col, y');
    } else {
      DrawColumnHigh(s, cy, x, col, y');
    }
  }

  /* ---- A whole glyph ---- */

  /** The glyph loop: draws the low byte of data as the column at pixel
      column x, shifts data right by one byte and moves one column on, n
      times. */
  function DrawColumns(s: Screen, cy: nat, x: nat, data: bv32, n: nat): Screen
    requires cy < TextRows && x + n <= Width && n <= GlyphWidth && WellFormed(data)
    decreases n
  {
    if n == 0 then s
    else
      WellFormedColumns(data, 0);
      ShiftWellFormed(data);
      DrawColumns(DrawColumn(s, cy, x, Column(data, 0)), cy, x + 1, data >> 8, n - 1)
  }

  /** Screen t shows the first n columns of data from pixel column x on, in
      the seven pixel rows of text row cy, and is screen s everywhere else. */
  ghost predicate ColumnsOver(t: Screen, s: Screen, cy: nat, x: nat, data: bv32, n: nat)
    requires n <= GlyphWidth
  {
    forall x', y' | 0 <= x' < Width && 0 <= y' < Height ::
      Pixel(t, x', y')
      == if x <= x' < x + n && 7 * cy <= y' < 7 * cy + 7
         then Bit(Column(data, x' - x), BitIndex(y' - 7 * cy))
         else Pixel(s, x', y')
  }

  /** One drawn column is the first column of data over the old screen. */
  lemma FirstColumnOver(s: Screen, cy: nat, x: nat, data: bv32)
    requires cy < TextRows && x < Width && WellFormed(data)
    ensures ColumnsOver(DrawColumn(s, cy, x, Column(data, 0)), s, cy, x, data, 1)
  {
    WellFormedColumns(data, 0);
    forall x', y' | 0 <= x' < Width && 0 <= y' < Height {
      DrawColumnPixel(s, cy, x, Column(data, 0), x', y');
    }
  }

  /** The first column over s, followed by the remaining n - 1 columns of
      the shifted word, is the first n columns over s. */
  lemma ColumnsCompose(t: Screen, u: Screen, s: Screen, cy: nat, x: nat, data: bv32, n: nat)
    requires 0 < n <= GlyphWidth
    requires ColumnsOver(u, s, cy, x, data, 1)
    requires ColumnsOver(t, u, cy, x + 1, data >> 8, n - 1)
    ensures ColumnsOver(t, s, cy, x, data, n)
  {
    forall x', y' | 0 <= x' < Width && 0 <= y' < Height && x + 1 <= x' < x + n {
      ShiftColumn(data, x' - x - 1);
    }
  }

  /** The n columns drawn from x on show the first n columns of data in the
      seven pixel rows of text row cy; nothing else changes. */
  lemma {:induction false} DrawColumnsOver(s: Screen, cy: nat, x: nat, data: bv32, n: nat)
    requires cy < TextRows && x + n <= Width && n <= GlyphWidth && WellFormed(data)
    ensures ColumnsOver(DrawColumns(s, cy, x, data, n), s, cy, x, data, n)
    decreases n, 1
  {
    if n > 0 {
      DrawColumnsOverMore(s, cy, x, data, n);
    }
  }

  /** The same for a loop of at least one pass: the first column over s,
      then the other n - 1 over that. */
  lemma {:induction false} DrawColumnsOverMore(s: Screen, cy: nat, x: nat, data: bv32, n: nat)
    requires cy < TextRows && x + n <= Width && 0 < n <= GlyphWidth && WellFormed(data)
    ensures ColumnsOver(DrawColumns(s, cy, x, data, n), s, cy, x, data, n)
    decreases n, 0
  {
    ShiftWellFormed(data);
    var u := DrawColumn(s, cy, x, Column(data, 0));
    FirstColumnOver(s, cy, x, data);
    DrawColumnsOver(u, cy, x + 1, data >> 8, n - 1);
    ColumnsCompose(DrawColumns(u, cy, x + 1, data >> 8, n - 1), u, s, cy, x, data, n);
  }

  /** One glyph column writes no byte but those of pixel column x in
      `first_row` and the page below it. */
  lemma DrawColumnKeeps(s: Screen, cy: nat, x: nat, col: bv8, p: nat, c: nat)
    requires cy < TextRows && x < Width && p < Pages && c < Width
    requires c != x || p < FirstPage(cy) || p > FirstPage(cy) + 1
    ensures DrawColumn(s, cy, x, col)[Index(p, c)] == s[Index(p, c)]
  {
    assert Index(p, c) != Index(FirstPage(cy), x);
    assert HasSecondPage(cy) ==> Index(p, c) != Index(FirstPage(cy) + 1, x);
  }

  /** One byte outside pixel columns x .. x + n - 1 of `first_row` and the
      page below it is left alone by the glyph loop. */
  lemma {:induction false} DrawColumnsKeep(s: Screen, cy: nat, x: nat, data: bv32, n: nat, p: nat, c: nat)
    requires cy < TextRows && x + n <= Width && n <= GlyphWidth && WellFormed(data)
    requires p < Pages && c < Width && !(x <= c < x + n && FirstPage(cy) <= p <= FirstPage(cy) + 1)
    ensures DrawColumns(s, cy, x, data, n)[Index(p, c)] == s[Index(p, c)]
    decreases n, 1
  {
    if n > 0 {
      DrawColumnsKeepMore(s, cy, x, data, n, p, c);
    }
  }

  /** The same for a loop of at least one pass: the first pass keeps the
      byte, and so does the rest of the loop. */
  lemma {:induction false} DrawColumnsKeepMore(s: Screen, cy: nat, x: nat, data: bv32, n: nat, p: nat, c: nat)
    requires cy < TextRows && x + n <= Width && 0 < n <= GlyphWidth && WellFormed(data)
    requires p < Pages && c < Width && !(x <= c < x + n && FirstPage(cy) <= p <= FirstPage(cy) + 1)
    ensures DrawColumns(s, cy, x, data, n)[Index(p, c)] == s[Index(p, c)]
    decreases n, 0
  {
    ShiftWellFormed(data);
    var u := DrawColumn(s, cy, x, Column(data, 0));
    DrawColumnKeeps(s, cy, x, Column(data, 0), p, c);
    DrawColumnsKeep(u, cy, x + 1, data >> 8, n - 1, p, c);
  }

  /** The glyph loop writes no byte outside pixel columns x .. x + n - 1 of
      `first_row` and the page below it. */
  lemma DrawColumnsFrame(s: Screen, cy: nat, x: nat, data: bv32, n: nat)
    requires cy < TextRows && x + n <= Width && n <= GlyphWidth && WellFormed(data)
    ensures forall p, c | 0 <= p < Pages && 0 <= c < Width &&
                          !(x <= c < x + n && FirstPage(cy) <= p <= FirstPage(cy) + 1) ::
              DrawColumns(s, cy, x, data, n)[Index(p, c)] == s[Index(p, c)]
  {
    forall p, c | 0 <= p < Pages && 0 <= c < Width &&
                  !(x <= c < x + n && FirstPage(cy) <= p <= FirstPage(cy) + 1)
    {
      DrawColumnsKeep(s, cy, x, data, n, p, c);
    }
  }

  /** Whether pixel (x, y) lies in text cell (cx, cy). */
  predicate InCell(cx: nat, cy: nat, x: nat, y: nat) {
    4 * cx <= x < 4 * cx + 4 && 7 * cy <= y < 7 * cy + 7
  }

  /** Draws the glyph of a printable code into text cell (cx, cy). */
  function DrawGlyph(s: Screen, cx: nat, cy: nat, code: int): Screen
    requires cx < TextColumns && cy < TextRows && Printable(code)
  {
    DrawColumns(s, cy, 4 * cx, Glyph(code), 4)
  }

  /** Screen t shows the glyph of code in text cell (cx, cy), spacing
      column included, and is screen s everywhere else. */
  ghost predicate GlyphOver(t: Screen, s: Screen, cx: nat, cy: nat, code: int)
    requires Printable(code)
  {
    forall x, y | 0 <= x < Width && 0 <= y < Height ::
      Pixel(t, x, y)
      == if InCell(cx, cy, x, y) then GlyphPixel(code, x - 4 * cx, y - 7 * cy)
         else Pixel(s, x, y)
  }

  /** A drawn glyph replaces the 4x7 pixels of its cell by the glyph's
      pixels; every pixel outside the cell keeps its value. */
  lemma DrawGlyphOver(s: Screen, cx: nat, cy: nat, code: int)
    requires cx < TextColumns && cy < TextRows && Printable(code)
    ensures GlyphOver(DrawGlyph(s, cx, cy, code), s, cx, cy, code)
  {
    DrawColumnsOver(s, cy, 4 * cx, Glyph(code), 4);
  }

  /** One pixel of a word's four columns drawn in the top left cell: the
      word's pixel inside the cell, the old pixel outside it. */
  lemma ColumnsPixel(s: Screen, g: bv32, x: nat, y: nat)
    requires WellFormed(g) && x < Width && y < Height
    ensures Pixel(DrawColumns(s, 0, 0, g, 4), x, y)
            == if x < 4 && y < 7 then Bit(Column(g, x), BitIndex(y)) else Pixel(s, x, y)
  {
    DrawColumnsOver(s, 0, 0, g, 4);
  }

  /** Rows 0..6 of the top left cell show the word's columns ... */
  lemma ColumnsInTopCell(s: Screen, g: bv32, k: nat, m: nat)
    requires WellFormed(g) && k < GlyphWidth && m < 7
    ensures Bit(DrawColumns(s, 0, 0, g, 4)[Index(0, k)], BitIndex(m)) == Bit(Column(g, k), BitIndex(m))
  {
    ColumnsPixel(s, g, k, m);
    PixelBit(DrawColumns(s, 0, 0, g, 4), k, m, 0, m);
  }

  /** Row 7 lies below the top left cell, so the drawing leaves it alone ... */
  lemma ColumnsKeepBitSeven(s: Screen, g: bv32, k: nat)
    requires WellFormed(g) && k < GlyphWidth
    ensures Bit(DrawColumns(s, 0, 0, g, 4)[Index(0, k)], BitIndex(7)) == Bit(s[Index(0, k)], BitIndex(7))
  {
    ColumnsPixel(s, g, k, 7);
    PixelBit(DrawColumns(s, 0, 0, g, 4), k, 7, 0, 7);
    PixelBit(s, k, 7, 0, 7);
  }

  /** ... so it stays dark over a dark byte, matching the word's clear
      eighth bit. */
  lemma ColumnsBelowTopCell(s: Screen, g: bv32, k: nat)
    requires WellFormed(g) && k < GlyphWidth && s[Index(0, k)] == 0
    ensures Bit(DrawColumns(s, 0, 0, g, 4)[Index(0, k)], BitIndex(7)) == Bit(Column(g, k), BitIndex(7))
  {
    ColumnsKeepBitSeven(s, g, k);
    WellFormedColumns(g, k);
    DarkBitSeven(DrawColumns(s, 0, 0, g, 4)[Index(0, k)], s[Index(0, k)], Column(g, k));
  }

  /** A byte whose bit 7 is that of a dark byte agrees on bit 7 with any
      byte below 0x80. */
  lemma DarkBitSeven(b: bv8, dark: bv8, c: bv8)
    requires dark == 0 && c < 0x80 && Bit(b, BitIndex(7)) == Bit(dark, BitIndex(7))
    ensures Bit(b, BitIndex(7)) == Bit(c, BitIndex(7))
  {
    DarkByte(BitIndex(7));
    HighBitClear(c);
  }

  /** Bit m of column k drawn in the top left cell over a dark byte is the
      word's bit ... */
  lemma ColumnsOnDarkTop(s: Screen, g: bv32, k: nat, m: nat)
    requires WellFormed(g) && k < GlyphWidth && m < 8 && s[Index(0, k)] == 0
    ensures Bit(DrawColumns(s, 0, 0, g, 4)[Index(0, k)], BitIndex(m)) == Bit(Column(g, k), BitIndex(m))
  {
    if m < 7 {
      ColumnsInTopCell(s, g, k, m);
    } else {
      ColumnsBelowTopCell(s, g, k);
    }
  }

  /** ... and the byte of page 1 below it stays dark. */
  lemma ColumnsOnDarkBelow(s: Screen, g: bv32, k: nat, m: nat)
    requires WellFormed(g) && k < GlyphWidth && m < 8 && s[Index(1, k)] == 0
    ensures !Bit(DrawColumns(s, 0, 0, g, 4)[Index(1, k)], BitIndex(m))
  {
    ColumnsPixel(s, g, k, 8 + m);
    PixelBit(DrawColumns(s, 0, 0, g, 4), k, 8 + m, 1, m);
    PixelBit(s, k, 8 + m, 1, m);
    DarkByte(BitIndex(m));
  }

  /** On a dark screen a word drawn in the top left cell is byte for byte
      the word: its columns in page 0 and nothing in page 1. */
  lemma ColumnsOnBlank(g: bv32, k: nat)
    requires WellFormed(g) && k < GlyphWidth
    ensures DrawColumns(Blank(), 0, 0, g, 4)[Index(0, k)] == Column(g, k)
    ensures DrawColumns(Blank(), 0, 0, g, 4)[Index(1, k)] == 0
  {
    var t := DrawColumns(Blank(), 0, 0, g, 4);
    forall m: nat | m < 8
      ensures Bit(t[Index(0, k)], BitIndex(m)) == Bit(Column(g, k), BitIndex(m))
      ensures Bit(t[Index(1, k)], BitIndex(m)) == Bit(0, BitIndex(m))
    {
      ColumnsOnDarkTop(Blank(), g, k, m);
      ColumnsOnDarkBelow(Blank(), g, k, m);
      DarkByte(BitIndex(m));
    }
    BitsDetermineByte(t[Index(0, k)], Column(g, k));
    BitsDetermineByte(t[Index(1, k)], 0);
  }

  /** On a dark screen the glyph in the top left cell is byte for byte the
      font word: its columns in page 0 and nothing in page 1. */
  lemma GlyphOnBlank(code: int, k: nat)
    requires Printable(code) && k < GlyphWidth
    ensures DrawGlyph(Blank(), 0, 0, code)[Index(0, k)] == Column(Glyph(code), k)
    ensures DrawGlyph(Blank(), 0, 0, code)[Index(1, k)] == 0
  {
    ColumnsOnBlank(Glyph(code), k);
  }

  /* ---- Scrolling ---- */

  /** One byte after scrolling: the window over it and the byte of the page
      below, shifted right by the glyph height and truncated. */
  function ScrolledByte(lo: bv8, hi: bv8): bv8 {
    LowByte(Window(lo, hi) >> 7)
  }

  /** Bit 0 of a scrolled byte comes from bit 7 of the byte itself and bit b
      from bit b - 1 of the byte below. */
  lemma ScrolledBit(lo: bv8, hi: bv8, b: bv8)
    requires b < 8
    ensures Bit(ScrolledByte(lo, hi), b) == if b == 0 then Bit(lo, 7) else Bit(hi, b - 1)
  {
  }

  /** ScrolledBit by pixel row within the page. */
  lemma ScrolledRow(lo: bv8, hi: bv8, m: nat)
    requires m < 8
    ensures Bit(ScrolledByte(lo, hi), BitIndex(m)) == if m == 0 then Bit(lo, 7) else Bit(hi, BitIndex(m - 1))
  {
    ScrolledBit(lo, hi, BitIndex(m));
    if m > 0 {
      SubLow(m, 1);
    }
  }

  /** The screen scrolled up by one text row: every byte is combined with
      the byte below it, and the last page with a dark byte. */
  function Scroll(s: Screen): Screen {
    seq(Size, i requires 0 <= i < Size => ScrolledByte(s[i], if i + 128 < Size then s[i + 128] else 0))
  }

  /** The scrolled byte of column x in page p. */
  lemma ScrollByte(s: Screen, p: nat, x: nat)
    requires p < Pages && x < Width
    ensures Scroll(s)[Index(p, x)] == ScrolledByte(s[Index(p, x)], if p + 1 < Pages then s[Index(p + 1, x)] else 0)
  {
  }

  /** Pixel row y = 8 * p of the scrolled screen is bit 7 of the same byte. */
  lemma ScrollTopBit(s: Screen, x: nat, y: nat, p: nat)
    requires x < Width && p < Pages && y == 8 * p
    ensures Pixel(Scroll(s), x, y) == Bit(s[Index(p, x)], BitIndex(7))
  {
    var hi := if p + 1 < Pages then s[Index(p + 1, x)] else 0;
    PixelBit(Scroll(s), x, y, p, 0);
    ScrollByte(s, p, x);
    ScrolledRow(s[Index(p, x)], hi, 0);
  }

  /** Seven rows below pixel row y = 8 * p is the bottom row of page p. */
  lemma PixelBottomOfPage(s: Screen, x: nat, y: nat, p: nat)
    requires x < Width && p < Pages && y == 8 * p
    ensures y + 7 < Height && Pixel(s, x, y + 7) == Bit(s[Index(p, x)], BitIndex(7))
  {
    PixelBit(s, x, y + 7, p, 7);
  }

  /** Pixel row y = 8 * p of the scrolled screen comes from the bottom row
      of the same page. */
  lemma ScrollTopRow(s: Screen, x: nat, y: nat, p: nat)
    requires x < Width && p < Pages && y == 8 * p
    ensures y + 7 < Height && Pixel(Scroll(s), x, y) == Pixel(s, x, y + 7)
  {
    ScrollTopBit(s, x, y, p);
    PixelBottomOfPage(s, x, y, p);
  }

  /** Pixel row y = 8 * p + m, m > 0, of the scrolled screen is bit m - 1
      of the byte of the page below. */
  lemma ScrollLowerBit(s: Screen, x: nat, y: nat, p: nat, m: nat)
    requires x < Width && p + 1 < Pages && 0 < m < 8 && y == 8 * p + m
    ensures Pixel(Scroll(s), x, y) == Bit(s[Index(p + 1, x)], BitIndex(m - 1))
  {
    PixelBit(Scroll(s), x, y, p, m);
    ScrollByte(s, p, x);
    ScrolledRow(s[Index(p, x)], s[Index(p + 1, x)], m);
  }

  /** Seven rows below pixel row y = 8 * p + m, m > 0, is row m - 1 of the
      page below. */
  lemma PixelBelow(s: Screen, x: nat, y: nat, p: nat, m: nat)
    requires x < Width && p + 1 < Pages && 0 < m < 8 && y == 8 * p + m
    ensures y + 7 < Height && Pixel(s, x, y + 7) == Bit(s[Index(p + 1, x)], BitIndex(m - 1))
  {
    PixelBit(s, x, y + 7, p + 1, m - 1);
  }

  /** Pixel row y = 8 * p + m, m > 0, of the scrolled screen comes from row
      m - 1 of the page below. */
  lemma ScrollLowerRow(s: Screen, x: nat, y: nat, p: nat, m: nat)
    requires x < Width && p + 1 < Pages && 0 < m < 8 && y == 8 * p + m
    ensures y + 7 < Height && Pixel(Scroll(s), x, y) == Pixel(s, x, y + 7)
  {
    ScrollLowerBit(s, x, y, p, m);
    PixelBelow(s, x, y, p, m);
  }

  /** Pixel rows 57 .. 63 of the scrolled screen are dark. */
  lemma ScrollBottomRow(s: Screen, x: nat, y: nat, m: nat)
    requires x < Width && 0 < m < 8 && y == 56 + m
    ensures y < Height && !Pixel(Scroll(s), x, y)
  {
    PixelBit(Scroll(s), x, y, 7, m);
    ScrollByte(s, 7, x);
    ScrolledRow(s[Index(7, x)], 0, m);
    DarkByte(BitIndex(m - 1));
  }

  /** After scrolling, pixel (x, y) shows what pixel (x, y + 7) showed, and
      the bottom seven rows are dark. */
  lemma ScrollPixel(s: Screen, x: nat, y: nat)
    requires x < Width && y < Height
    ensures Pixel(Scroll(s), x, y) == (y + 7 < Height && Pixel(s, x, y + 7))
  {
    var p, m := y / 8, y % 8;
    if m == 0 {
      ScrollTopRow(s, x, y, p);
    } else if p + 1 < Pages {
      ScrollLowerRow(s, x, y, p, m);
    } else {
      ScrollBottomRow(s, x, y, m);
    }
  }

  /** Screen u is screen t moved up by one text row, dark at the bottom. */
  ghost predicate ScrolledOver(u: Screen, t: Screen) {
    forall x, y | 0 <= x < Width && 0 <= y < Height ::
      Pixel(u, x, y) == (y + 7 < Height && Pixel(t, x, y + 7))
  }

  lemma ScrollOver(t: Screen)
    ensures ScrolledOver(Scroll(t), t)
  {
    forall x, y | 0 <= x < Width && 0 <= y < Height {
      ScrollPixel(t, x, y);
    }
  }

  /** The source's scroll loop, column by column and page by page over one
      buffer: each byte is rewritten from itself and the byte below before
      that byte below is rewritten, so the result is the scroll of the old
      screen. */
  method ScrollInPlace(s: Screen) returns (t: Screen)
    ensures t == Scroll(s)
  {
    t := s;
    var column := 0;
    while column < Width
      invariant column <= Width
      invariant forall p, c | 0 <= p < Pages && 0 <= c < Width ::
                  t[Index(p, c)] == if c < column then Scroll(s)[Index(p, c)] else s[Index(p, c)]
    {
      var page := 0;
      while page < Pages
        invariant page <= Pages
        invariant forall p, c | 0 <= p < Pages && 0 <= c < Width ::
                    t[Index(p, c)] == if c < column || (c == column && p < page) then Scroll(s)[Index(p, c)] else s[Index(p, c)]
      {
        var lo := t[Index(page, column)];
        var hi := if page < Pages - 1 then t[Index(page + 1, column)] else 0;
        ScrollByte(s, page, column);
        assert ScrolledByte(lo, hi) == Scroll(s)[Index(page, column)];
        t := t[Index(page, column) := ScrolledByte(lo, hi)];
        page := page + 1;
      }
      column := column + 1;
    }
    forall i | 0 <= i < Size
      ensures t[i] == Scroll(s)[i]
    {
      assert i == Index(i / 128, i % 128);
    }
  }
}
