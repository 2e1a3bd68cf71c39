/** The second-page guard of the glyph loop as the driver writes it. The
    loop touches the page below the first one only when `first_row` is below
    the screen height in pixels (64), which every text row satisfies; the
    page count (8) is what the guard evidently means. On the last text row
    the first page is the last one, and the loop reads and writes the byte
    one page past the end of `screen_data`.

    Memory here is `screen_data` followed by the 128 bytes after it, so the
    as-written loop can be stated without leaving the sequence. Render's
    DrawColumn, guarded by HasSecondPage, is the corrected definition. */
module SecondPageGuard {
  import opened Bits
  import opened Font
  import opened Framebuffer
  import opened Render

  /** `screen_data` and the page-sized stretch of memory behind it. */
  type Memory = m: seq<bv8> | |m| == Size + Width witness seq(1152, _ => 0 as bv8)

  /** The guard as written: `first_row < SCREEN_HEIGHT`. */
  predicate WrittenGuard(cy: nat)
    requires cy < TextRows
  {
    FirstPage(cy) < Height
  }

  /** Byte `SCREEN_WIDTH * page + column`, with no bound on the page. */
  function Address(page: nat, column: nat): nat {
    128 * page + column
  }

  /** One glyph column as the driver writes it: the byte below is read and
      written back whenever the written guard holds. */
  function WrittenColumn(m: Memory, cy: nat, x: nat, col: bv8): (r: seq<bv8>)
    requires cy < TextRows && x < Width
    ensures |r| == |m|
  {
    var p := FirstPage(cy);
    var lo := m[Address(p, x)];
    var hi := if WrittenGuard(cy) then m[Address(p + 1, x)] else 0;
    var w := Merge(Window(lo, hi), BitIndex(BitOffset(cy)), col);
    var first := m[Address(p, x) := LowByte(w)];
    if WrittenGuard(cy) then first[Address(p + 1, x) := HighByte(w)] else first
  }

  /** The written guard never fails, so it lets the last text row through:
      its second byte lies past the 1024 bytes of `screen_data`. */
  lemma WrittenGuardPassesLastRow(x: nat)
    requires x < Width
    ensures WrittenGuard(TextRows - 1)
    ensures !HasSecondPage(TextRows - 1)
    ensures Address(FirstPage(TextRows - 1) + 1, x) >= Size
  {
  }

  /** The smallest instance: printing at text cell (0, 8) touches byte 1024
      of a 1024-byte array. */
  lemma OutOfBoundsExample()
    ensures WrittenGuard(8) && Address(FirstPage(8) + 1, 0) == Size
  {
  }

  /** With the glyph at bit 0 and a glyph column below 0x80, the merge
      leaves the upper byte of the window alone and its lower byte does not
      depend on it. */
  lemma BitZeroMerge(lo: bv8, hi: bv8, col: bv8)
    requires col < 0x80
    ensures HighByte(Merge(Window(lo, hi), 0, col)) == hi
    ensures LowByte(Merge(Window(lo, hi), 0, col)) == LowByte(Merge(Window(lo, 0), 0, col))
  {
  }

  /** Slicing off a prefix commutes with an update inside it. */
  lemma UpdateInPrefix(m: seq<bv8>, a: nat, v: bv8, n: nat)
    requires a < n <= |m|
    ensures m[a := v][..n] == m[..n][a := v]
    ensures m[a := v][n..] == m[n..]
  {
  }

  /** Above the last text row the written guard and HasSecondPage agree, and
      both bytes lie inside `screen_data`. */
  lemma WrittenMatchesAbove(m: Memory, cy: nat, x: nat, col: bv8)
    requires cy + 1 < TextRows && x < Width
    ensures WrittenColumn(m, cy, x, col)[..Size] == DrawColumn(m[..Size], cy, x, col)
    ensures WrittenColumn(m, cy, x, col)[Size..] == m[Size..]
  {
    var s: Screen := m[..Size];
    var p := FirstPage(cy);
    var a, b := Index(p, x), Index(p + 1, x);
    assert HasSecondPage(cy) && WrittenGuard(cy);
    assert Address(p, x) == a && Address(p + 1, x) == b;
    var w := Merge(Window(m[a], m[b]), BitIndex(BitOffset(cy)), col);
    assert MergedWindow(s, cy, x, col) == w;
    var first := m[a := LowByte(w)];
    assert WrittenColumn(m, cy, x, col) == first[b := HighByte(w)];
    UpdateInPrefix(m, a, LowByte(w), Size);
    UpdateInPrefix(first, b, HighByte(w), Size);
  }

  /** On the last text row the stray byte behind `screen_data` is written
      back unchanged, provided the glyph column fits in seven pixels. */
  lemma WrittenMatchesLast(m: Memory, x: nat, col: bv8)
    requires x < Width && col < 0x80
    ensures WrittenColumn(m, TextRows - 1, x, col)[..Size] == DrawColumn(m[..Size], TextRows - 1, x, col)
    ensures WrittenColumn(m, TextRows - 1, x, col)[Size..] == m[Size..]
  {
    var cy := TextRows - 1;
    var s: Screen := m[..Size];
    assert FirstPage(cy) == 7 && BitOffset(cy) == 0 && !HasSecondPage(cy) && WrittenGuard(cy);
    var a, b := Index(7, x), Address(8, x);
    assert Address(7, x) == a;
    BitZeroMerge(m[a], m[b], col);
    var w := Merge(Window(m[a], m[b]), 0, col);
    assert MergedWindow(s, cy, x, col) == Merge(Window(m[a], 0), 0, col);
    var first := m[a := LowByte(w)];
    assert WrittenColumn(m, cy, x, col) == first[b := m[b]];
    assert first[b] == m[b];
    UpdateInPrefix(m, a, LowByte(w), Size);
  }

  /** For every glyph column the driver can draw, the as-written loop
      changes `screen_data` exactly as the corrected one does and leaves the
      memory behind it as it was. */
  lemma WrittenMatchesCorrected(m: Memory, cy: nat, x: nat, col: bv8)
    requires cy < TextRows && x < Width && col < 0x80
    ensures WrittenColumn(m, cy, x, col)[..Size] == DrawColumn(m[..Size], cy, x, col)
    ensures WrittenColumn(m, cy, x, col)[Size..] == m[Size..]
  {
    if cy + 1 < TextRows {
      WrittenMatchesAbove(m, cy, x, col);
    } else {
      WrittenMatchesLast(m, x, col);
    }
  }
}
