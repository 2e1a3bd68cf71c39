/** The driver's public operations over one record: the framebuffer, the
    text cursor and the transfer variables. Every operation that changes
    the framebuffer also requests a refresh. */
module Driver {
  import opened Bits
  import opened Font
  import opened Framebuffer
  import opened Render
  import opened Transfer

  /** An `uint8_t` argument. */
  type U8 = n: int | 0 <= n < 256

  /** `screen_data`, `cursor_x_pos`, `cursor_y_pos` and the transfer variables. */
  datatype State = State(screen: Screen, cx: nat, cy: nat, xfer: Transfer)

  /** The cursor is on a text cell and the transfer invariant holds. */
  predicate Valid(d: State) {
    d.cx < TextColumns && d.cy < TextRows && TransferOk(d.xfer)
  }

  /** The zero-initialised statics: a dark screen, the cursor home and no
      transfer. */
  const PowerOn: State := State(Blank(), 0, 0, Quiet)

  lemma PowerOnValid()
    ensures Valid(PowerOn)
    ensures forall x, y | 0 <= x < Width && 0 <= y < Height :: !Pixel(PowerOn.screen, x, y)
  {
  }

  /** The state `ssd1306_initialize` leaves behind: the power-on state with
      the first refresh requested. The command bytes it sends before that
      are not modelled. */
  function Initialized(): (d: State)
    ensures Valid(d) && d.screen == Blank() && d.cx == 0 && d.cy == 0
    ensures d.xfer.phase == SendAddress && d.xfer.queued
  {
    PowerOn.(xfer := Request(PowerOn.xfer))
  }

  /** The first refresh puts a start condition and one frame of the dark
      screen on the bus, and the bus goes quiet after it. */
  lemma InitialRefresh()
    ensures RequestEvents(Quiet) + Trace(Initialized().xfer, Blank(), FrameSteps) == [Start] + Frame(Blank())
    ensures After(Initialized().xfer, Blank(), FrameSteps) == Transfer(Idle, Size, false, false)
  {
    FrameRun(Initialized().xfer, Blank());
  }

  /** `set_pixel`: outside the screen nothing happens, not even a refresh;
      inside, exactly pixel (x, y) takes the colour (lit for any non-zero
      colour) and a refresh is requested. */
  function SetPixel(d: State, x: U8, y: U8, colour: U8): (r: State)
    requires Valid(d)
    ensures Valid(r)
    ensures x >= Width || y >= Height ==> r == d
    ensures x < Width && y < Height ==>
              && Pixel(r.screen, x, y) == (colour != 0)
              && (forall x', y' | 0 <= x' < Width && 0 <= y' < Height && (x', y') != (x, y) ::
                    Pixel(r.screen, x', y') == Pixel(d.screen, x', y'))
              && r.xfer == Request(d.xfer) && r.cx == d.cx && r.cy == d.cy
  {
    if x >= Width || y >= Height then d
    else d.(screen := Plot(d.screen, x, y, colour != 0), xfer := Request(d.xfer))
  }

  /** Setting a pixel and then setting it back to the colour it had restores
      the framebuffer byte for byte. */
  lemma SetPixelRestores(d: State, x: U8, y: U8, colour: U8)
    requires Valid(d) && x < Width && y < Height
    ensures SetPixel(SetPixel(d, x, y, colour), x, y, if Pixel(d.screen, x, y) then 1 else 0).screen == d.screen
  {
    var back := SetPixel(SetPixel(d, x, y, colour), x, y, if Pixel(d.screen, x, y) then 1 else 0);
    PixelsDetermineScreen(back.screen, d.screen);
  }

  /** `clear_screen`: every byte zero, the cursor home, a refresh requested. */
  function ClearScreen(d: State): (r: State)
    requires Valid(d)
    ensures Valid(r)
    ensures forall i | 0 <= i < Size :: r.screen[i] == 0
    ensures forall x, y | 0 <= x < Width && 0 <= y < Height :: !Pixel(r.screen, x, y)
    ensures r.cx == 0 && r.cy == 0 && r.xfer == Request(d.xfer)
  {
    State(Blank(), 0, 0, Request(d.xfer))
  }

  /** Clearing twice is clearing once. */
  lemma ClearScreenIdempotent(d: State)
    requires Valid(d)
    ensures ClearScreen(ClearScreen(d)) == ClearScreen(d)
  {
    RequestIdempotent(d.xfer);
  }

  /** `goto_xy`: a column past the last one goes back to column 0, a row past
      the last one is clamped to the last row; nothing is redrawn or sent. */
  function GotoXY(d: State, x: U8, y: U8): (r: State)
    requires Valid(d)
    ensures Valid(r)
    ensures r.screen == d.screen && r.xfer == d.xfer
    ensures x < TextColumns ==> r.cx == x
    ensures x >= TextColumns ==> r.cx == 0
    ensures y < TextRows ==> r.cy == y
    ensures y >= TextRows ==> r.cy == TextRows - 1
  {
    var cx := if x >= TextColumns then 0 else x;
    var cy := if y >= TextRows then TextRows - 1 else y;
    d.(cx := cx, cy := cy)
  }

  /** `scroll_up`: the picture moves up one text row and a refresh is requested. */
  function ScrollUp(d: State): (r: State)
    requires Valid(d)
    ensures Valid(r)
    ensures forall x, y | 0 <= x < Width && 0 <= y < Height ::
              Pixel(r.screen, x, y) == (y + 7 < Height && Pixel(d.screen, x, y + 7))
    ensures r.cx == d.cx && r.cy == d.cy && r.xfer == Request(d.xfer)
  {
    ScrollOver(d.screen);
    d.(screen := Scroll(d.screen), xfer := Request(d.xfer))
  }

  /** The picture after printing a glyph at text cell (cx, cy): the glyph
      drawn, then scrolled up when the cell was the last one of the screen. */
  function Printed(s: Screen, cx: nat, cy: nat, a: int): Screen
    requires cx < TextColumns && cy < TextRows && Printable(a)
  {
    var drawn := DrawGlyph(s, cx, cy, a);
    if cx + 1 == TextColumns && cy + 1 == TextRows then Scroll(drawn) else drawn
  }

  /** Moves the cursor to the start of the next text row; past the last row
      the cursor stays on the last row and the screen scrolls. */
  function NewLine(d: State): (r: State)
    requires Valid(d) && d.cx == 0
    ensures Valid(r) && r.cx == 0
    ensures d.cy + 1 < TextRows ==> r == d.(cy := d.cy + 1)
    ensures d.cy + 1 == TextRows ==> r == ScrollUp(d)
  {
    if d.cy + 1 >= TextRows then ScrollUp(d.(cy := TextRows - 1)) else d.(cy := d.cy + 1)
  }

  /** `output_char`. Line feed only returns the cursor to column 0; carriage
      return also moves to the next row; other codes without a glyph are
      ignored; a printable code is drawn at the cursor, the cursor advances,
      wrapping at the end of the row and scrolling past the last row, and a
      refresh is requested. */
  function OutputChar(d: State, a: int): (r: State)
    requires Valid(d)
    ensures Valid(r)
    ensures a == 10 ==> r == d.(cx := 0)
    ensures a == 13 ==> r.cx == 0 && r.cy == (if d.cy + 1 < TextRows then d.cy + 1 else TextRows - 1)
    ensures a == 13 && d.cy + 1 < TextRows ==> r.screen == d.screen && r.xfer == d.xfer
    ensures a == 13 && d.cy + 1 == TextRows ==> r.screen == Scroll(d.screen) && r.xfer == Request(d.xfer)
    ensures a != 10 && a != 13 && !Printable(a) ==> r == d
    ensures Printable(a) ==> r.xfer == Request(d.xfer)
    ensures Printable(a) && d.cx + 1 < TextColumns ==> r.cx == d.cx + 1 && r.cy == d.cy
    ensures Printable(a) && d.cx + 1 == TextColumns ==>
              r.cx == 0 && r.cy == (if d.cy + 1 < TextRows then d.cy + 1 else TextRows - 1)
    ensures Printable(a) ==> r.screen == Printed(d.screen, d.cx, d.cy, a)
  {
    if a == 10 then d.(cx := 0)
    else if a == 13 then NewLine(d.(cx := 0))
    else if !Printable(a) then d
    else
      var drawn := d.(screen := DrawGlyph(d.screen, d.cx, d.cy, a));
      var moved := if d.cx + 1 >= TextColumns then NewLine(drawn.(cx := 0)) else drawn.(cx := d.cx + 1);
      RequestIdempotent(d.xfer);
      moved.(xfer := Request(moved.xfer))
  }

  /** What `output_char` shows for a printable code: its glyph in the cursor's
      cell over the old picture, the whole picture moved up one text row when
      the character ended the last row. */
  lemma PrintedPixel(s: Screen, cx: nat, cy: nat, a: int, x: nat, y: nat)
    requires cx < TextColumns && cy < TextRows && Printable(a) && x < Width && y < Height
    ensures cx + 1 == TextColumns && cy + 1 == TextRows ==>
              Pixel(Printed(s, cx, cy, a), x, y)
              == (y + 7 < Height &&
                  if InCell(cx, cy, x, y + 7)
                  then GlyphPixel(a, x - 4 * cx, y + 7 - 7 * cy)
                  else Pixel(s, x, y + 7))
    ensures !(cx + 1 == TextColumns && cy + 1 == TextRows) ==>
              Pixel(Printed(s, cx, cy, a), x, y)
              == if InCell(cx, cy, x, y) then GlyphPixel(a, x - 4 * cx, y - 7 * cy)
                 else Pixel(s, x, y)
  {
    var drawn := DrawGlyph(s, cx, cy, a);
    DrawGlyphOver(s, cx, cy, a);
    if cx + 1 == TextColumns && cy + 1 == TextRows {
      ScrollOver(drawn);
    }
  }

  /** The character that ended the last text row stays visible: after the
      scroll its glyph occupies the cell one text row higher. */
  lemma PrintedGlyphScrolled(s: Screen, cx: nat, cy: nat, a: int, x: nat, y: nat)
    requires cx + 1 == TextColumns && cy + 1 == TextRows && Printable(a)
    requires InCell(cx, cy - 1, x, y)
    ensures x < Width && y < Height
    ensures Pixel(Printed(s, cx, cy, a), x, y) == GlyphPixel(a, x - 4 * cx, y + 7 - 7 * cy)
  {
    PrintedPixel(s, cx, cy, a, x, y);
  }

  /** The first character on a dark screen: its font word in bytes 0..3
      of page 0 and nothing in page 1. */
  lemma PrintedOnBlank(a: int, k: nat)
    requires Printable(a) && k < GlyphWidth
    ensures Printed(Blank(), 0, 0, a)[k] == Column(Glyph(a), k)
    ensures Printed(Blank(), 0, 0, a)[128 + k] == 0
  {
    GlyphOnBlank(a, k);
  }

  /** Printing a character right after clearing the screen puts the four
      columns of its font word in bytes 0..3 of page 0, leaves bytes 128..131
      of page 1 dark, and moves the cursor to column 1 of row 0. */
  lemma PrintAfterClear(d: State, a: int, k: nat)
    requires Valid(d) && Printable(a) && k < GlyphWidth
    ensures OutputChar(ClearScreen(d), a).cx == 1 && OutputChar(ClearScreen(d), a).cy == 0
    ensures OutputChar(ClearScreen(d), a).screen[k] == Column(Glyph(a), k)
    ensures OutputChar(ClearScreen(d), a).screen[128 + k] == 0
  {
    assert ClearScreen(d).screen == Blank();
    PrintedOnBlank(a, k);
  }

  /** A foreground call that changes the picture leaves a refresh queued, and
      one that finds a transfer running does not disturb its phase or data
      index. */
  lemma OutputCharSchedules(d: State, a: int)
    requires Valid(d)
    ensures OutputChar(d, a).screen != d.screen ==> OutputChar(d, a).xfer.queued
    ensures d.xfer.queued ==> OutputChar(d, a).xfer.queued
    ensures d.xfer.inTransfer ==>
              OutputChar(d, a).xfer.phase == d.xfer.phase && OutputChar(d, a).xfer.count == d.xfer.count
  {
  }

  /* ---- Strings ---- */

  /** `strlen`: the codes before the first 0, or all of them. */
  function Strlen(str: seq<int>): (n: nat)
    ensures n <= |str|
    ensures forall i | 0 <= i < n :: str[i] != 0
    ensures n < |str| ==> str[n] == 0
  {
    if |str| == 0 || str[0] == 0 then 0 else 1 + Strlen(str[1..])
  }

  /** `output_char` applied to each code in turn. */
  function Chars(d: State, cs: seq<int>): (r: State)
    requires Valid(d)
    ensures Valid(r)
    decreases |cs|
  {
    if cs == [] then d else Chars(OutputChar(d, cs[0]), cs[1..])
  }

  /** Printing a + b is printing a and then b. */
  lemma {:induction false} CharsAppend(d: State, a: seq<int>, b: seq<int>)
    requires Valid(d)
    ensures Chars(d, a + b) == Chars(Chars(d, a), b)
    decreases |a|
  {
    if a == [] {
      assert a + b == b;
    } else {
      assert (a + b)[1..] == a[1..] + b;
      CharsAppend(OutputChar(d, a[0]), a[1..], b);
    }
  }

  /** `output_str`: prints the codes of a C string up to its terminating 0. */
  method OutputStr(d: State, str: seq<int>) returns (r: State)
    requires Valid(d)
    ensures Valid(r)
    ensures r == Chars(d, str[..Strlen(str)])
  {
    var len := Strlen(str);
    r := d;
    var count := 0;
    while count < len
      invariant count <= len
      invariant Valid(r) && r == Chars(d, str[..count])
    {
      CharsAppend(d, str[..count], [str[count]]);
      assert str[..count + 1] == str[..count] + [str[count]];
      assert Chars(r, [str[count]]) == OutputChar(r, str[count]);
      r := OutputChar(r, str[count]);
      count := count + 1;
    }
  }

  /** Printing a string that changes the picture leaves a refresh queued, and
      printing while a transfer runs does not disturb its phase or data
      index. */
  lemma {:induction false} CharsSchedule(d: State, cs: seq<int>)
    requires Valid(d)
    ensures Chars(d, cs).screen != d.screen ==> Chars(d, cs).xfer.queued
    ensures d.xfer.queued ==> Chars(d, cs).xfer.queued
    ensures d.xfer.inTransfer ==>
              Chars(d, cs).xfer.phase == d.xfer.phase && Chars(d, cs).xfer.count == d.xfer.count
    decreases |cs|
  {
    if cs != [] {
      var d1 := OutputChar(d, cs[0]);
      OutputCharSchedules(d, cs[0]);
      CharsSchedule(d1, cs[1..]);
    }
  }
}
