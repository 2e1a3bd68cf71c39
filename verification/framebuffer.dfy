/** The driver's in-memory copy of the panel: 1024 bytes in horizontal
    addressing mode. Byte 128 * page + column holds the eight pixels of that
    column in rows 8 * page .. 8 * page + 7, bit 0 being the top one. */
module Framebuffer {
  import opened Bits

  const Width: nat := 128
  const Height: nat := 64
  const Pages: nat := 8
  /** (Width * Height) / 8 bytes. */
  const Size: nat := 1024

  type Screen = s: seq<bv8> | |s| == Size witness seq(1024, _ => 0 as bv8)

  /** The byte that holds the pixels of one column of one page. */
  function Index(page: nat, column: nat): (i: nat)
    requires page < Pages && column < Width
    ensures i < Size
  {
    128 * page + column
  }

  /** Whether pixel (x, y) is lit: bit y % 8 of the byte of column x in page y / 8. */
  predicate Pixel(s: Screen, x: nat, y: nat)
    requires x < Width && y < Height
  {
    Bit(s[Index(y / 8, x)], BitIndex(y % 8))
  }

  /** Every bit of every byte is exactly one pixel: bit k of byte i is pixel
      (i % 128, 8 * (i / 128) + k). */
  lemma Addressing(s: Screen, i: nat, k: nat)
    requires i < Size && k < 8
    ensures i % 128 < Width && 8 * (i / 128) + k < Height
    ensures Bit(s[i], BitIndex(k)) == Pixel(s, i % 128, 8 * (i / 128) + k)
  {
    var y := 8 * (i / 128) + k;
    assert y / 8 == i / 128 && y % 8 == k;
  }

  /** Pixel row 8 * p + m is bit m of the bytes of page p. */
  lemma PixelBit(s: Screen, x: nat, y: nat, p: nat, m: nat)
    requires x < Width && p < Pages && m < 8 && y == 8 * p + m
    ensures y < Height && Pixel(s, x, y) == Bit(s[Index(p, x)], BitIndex(m))
  {
    assert y / 8 == p && y % 8 == m;
  }

  /** Two screens that show the same pixels are the same bytes. */
  lemma {:induction false} PixelsDetermineScreen(s: Screen, t: Screen)
    requires forall x, y | 0 <= x < Width && 0 <= y < Height :: Pixel(s, x, y) == Pixel(t, x, y)
    ensures s == t
  {
    forall i | 0 <= i < Size
      ensures s[i] == t[i]
    {
      forall k: nat | k < 8
        ensures Bit(s[i], BitIndex(k)) == Bit(t[i], BitIndex(k))
      {
        Addressing(s, i, k);
        Addressing(t, i, k);
      }
      BitsDetermineByte(s[i], t[i]);
    }
  }

  /** The all-dark screen. */
  function Blank(): (s: Screen)
    ensures forall x, y | 0 <= x < Width && 0 <= y < Height :: !Pixel(s, x, y)
  {
    seq(Size, _ => 0 as bv8)
  }

  /** Lights (on) or darkens one pixel; every other pixel keeps its value. */
  function Plot(s: Screen, x: nat, y: nat, on: bool): (r: Screen)
    requires x < Width && y < Height
    ensures Pixel(r, x, y) == on
    ensures forall x', y' | 0 <= x' < Width && 0 <= y' < Height && (x', y') != (x, y) ::
              Pixel(r, x', y') == Pixel(s, x', y')
  {
    var i := Index(y / 8, x);
    var r := s[i := SetBit(s[i], BitIndex(y % 8), on)];
    forall x', y' | 0 <= x' < Width && 0 <= y' < Height && (x', y') != (x, y)
      ensures Pixel(r, x', y') == Pixel(s, x', y')
    {
      if Index(y' / 8, x') == i {
        assert x' == x && y' / 8 == y / 8;
        BitIndexInjective(y' % 8, y % 8);
      }
    }
    r
  }
}
