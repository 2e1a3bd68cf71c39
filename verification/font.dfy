/** The 4x7 bitmap font of the driver: 95 glyphs for the printable ASCII
    codes 32..126. Each glyph is one 32-bit word holding four 8-bit pixel
    columns, column 0 in the least significant byte; bit 0 of a column is its
    top pixel and bit 7 is unused because the font is 7 pixels high. */
module Font {
  import opened Bits

  const FirstChar: int := 32
  const LastChar: int := 126
  /** Width of a glyph in pixel columns and height in pixel rows. */
  const GlyphWidth: nat := 4
  const GlyphHeight: nat := 7

  /* The table is written in blocks of eight entries (block k holds the codes
     32 + 8k .. 39 + 8k) only so that the verifier can index into each block;
     Glyphs is their concatenation, in the table's order. */
  const Block0: seq<bv32> := [0x0, 0x1700, 0x30003, 0x1f0a1f, 0x51f0a, 0x120409, 0x1c170f, 0x300]
  const Block1: seq<bv32> := [0x110e00, 0xe11, 0x50205, 0x40e04, 0x810, 0x40404, 0x1000, 0x30418]
  const Block2: seq<bv32> := [0xf111e, 0x1f02, 0x121519, 0xa1511, 0x1f0407, 0x91517, 0x1d151e, 0x30519]
  const Block3: seq<bv32> := [0x1f151f, 0xf1517, 0xa00, 0xa10, 0x110a04, 0xa0a0a, 0x40a11, 0x31501]
  const Block4: seq<bv32> := [0x16150e, 0x1e051e, 0xa151f, 0x11110e, 0xe111f, 0x15151f, 0x5051f, 0x1d150e]
  const Block5: seq<bv32> := [0x1f041f, 0x111f11, 0xf1008, 0x1b041f, 0x10101f, 0x1f061f, 0x1f0e1f, 0xe110e]
  const Block6: seq<bv32> := [0x2051f, 0x1e190e, 0x160d1f, 0x91512, 0x11f01, 0x1f100f, 0x71807, 0x1f0c1f]
  const Block7: seq<bv32> := [0x1b041b, 0x31c03, 0x131519, 0x11111f, 0x80402, 0x1f1111, 0x20102, 0x101010]
  const Block8: seq<bv32> := [0x201, 0x1c161a, 0xc121f, 0x12120c, 0x1f120c, 0x161a0c, 0x51e04, 0x1e2a0c]
  const Block9: seq<bv32> := [0x1c021f, 0x1d00, 0x1d2010, 0x120c1f, 0x101f11, 0x1e0e1e, 0x1c021e, 0xc120c]
  const Block10: seq<bv32> := [0xc123e, 0x3e120c, 0x2021c, 0xa1e14, 0x121f02, 0x1e100e, 0xe180e, 0x1e1c1e]
  const Block11: seq<bv32> := [0x120c12, 0x1e2806, 0x161e1a, 0x111b04, 0x1b00, 0x41b11, 0x10302]

  /** The glyph table, indexed by character code minus FirstChar. */
  const Glyphs: seq<bv32> :=
    Block0 + Block1 + Block2 + Block3 + Block4 + Block5 +
    Block6 + Block7 + Block8 + Block9 + Block10 + Block11

  /** True of the codes that have a glyph. */
  predicate Printable(code: int) {
    FirstChar <= code <= LastChar
  }

  /** A glyph word whose first three columns use only the seven pixel bits
      and whose fourth column, the spacing column, is blank. */
  predicate WellFormed(g: bv32) {
    g & 0xFF80_8080 == 0
  }

  predicate AllWellFormed(s: seq<bv32>) {
    forall i | 0 <= i < |s| :: WellFormed(s[i])
  }

  /** Pixel column k of a glyph word: its k-th byte. */
  function Column(g: bv32, k: nat): bv8
    requires k < GlyphWidth
  {
    var w := if k == 0 then g else if k == 1 then g >> 8 else if k == 2 then g >> 16 else g >> 24;
    (w & 0xFF) as bv8
  }

  /** Codes 32..79 have well-formed glyphs. */
  lemma LowerBlocksWellFormed()
    ensures AllWellFormed(Block0 + Block1 + Block2 + Block3 + Block4 + Block5)
  {
    assert AllWellFormed(Block0);
    assert AllWellFormed(Block1);
    assert AllWellFormed(Block2);
    assert AllWellFormed(Block3);
    assert AllWellFormed(Block4);
    assert AllWellFormed(Block5);
  }

  /** Codes 80..126 have well-formed glyphs. */
  lemma UpperBlocksWellFormed()
    ensures AllWellFormed(Block6 + Block7 + Block8 + Block9 + Block10 + Block11)
  {
    assert AllWellFormed(Block6);
    assert AllWellFormed(Block7);
    assert AllWellFormed(Block8);
    assert AllWellFormed(Block9);
    assert AllWellFormed(Block10);
    assert AllWellFormed(Block11);
  }

  /** The table has one entry per printable code, and every entry is well formed. */
  lemma TableWellFormed()
    ensures |Glyphs| == LastChar - FirstChar + 1
    ensures AllWellFormed(Glyphs)
  {
    LowerBlocksWellFormed();
    UpperBlocksWellFormed();
    var lower := Block0 + Block1 + Block2 + Block3 + Block4 + Block5;
    var upper := Block6 + Block7 + Block8 + Block9 + Block10 + Block11;
    assert Glyphs == lower + upper;
  }

  /** The glyph word drawn for a printable code. */
  function Glyph(code: int): (g: bv32)
    requires Printable(code)
    ensures WellFormed(g)
  {
    TableWellFormed();
    Glyphs[code - FirstChar]
  }

  /** The glyph of 'A' (code 65): columns 0x1E, 0x05, 0x1E and the blank
      spacing column. */
  lemma GlyphOfA()
    ensures Column(Glyph(65), 0) == 0x1E && Column(Glyph(65), 1) == 0x05
    ensures Column(Glyph(65), 2) == 0x1E && Column(Glyph(65), 3) == 0
  {
    assert Glyphs[33] == Block4[1] == 0x1e051e;
  }

  /** The columns of a well-formed glyph fit in seven pixels, and its fourth
      column is empty. */
  lemma WellFormedColumns(g: bv32, k: nat)
    requires WellFormed(g)
    requires k < GlyphWidth
    ensures Column(g, k) < 0x80
    ensures k == 3 ==> Column(g, k) == 0
  {
  }

  /** Shifting a glyph word right by one byte moves column k + 1 to column k,
      which is how the renderer walks the columns. A well-formed word stays
      well formed. */
  lemma ShiftColumn(g: bv32, k: nat)
    requires k + 1 < GlyphWidth
    ensures Column(g >> 8, k) == Column(g, k + 1)
  {
  }

  lemma ShiftWellFormed(g: bv32)
    requires WellFormed(g)
    ensures WellFormed(g >> 8)
  {
  }

  /** Pixel (col, row) of the glyph of a printable code, (0, 0) being its
      top left corner. */
  predicate GlyphPixel(code: int, col: nat, row: nat)
    requires Printable(code) && col < GlyphWidth && row < GlyphHeight
  {
    Bit(Column(Glyph(code), col), BitIndex(row))
  }
}
