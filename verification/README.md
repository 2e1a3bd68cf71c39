# SSD1306 OLED text driver — a Dafny model

This project models the PIC32 driver for a 128x64 SSD1306 OLED panel behind
I2C. The driver keeps a 1024-byte framebuffer, `screen_data`. It draws
pixels and a 4x7 font into that buffer, at a text cursor on a 32x9 grid of
character cells. An interrupt handler streams the whole buffer to the
panel, one byte per interrupt.

The model has one module per concern:

- `Bits` — bits of a byte, and setting or clearing one of them.
- `Font` — the 95-entry glyph table `font_data`.
- `Framebuffer` — the horizontal-addressing layout, and `Pixel(s, x, y)`:
  bit `y % 8` of byte `128 * (y / 8) + x`.
- `Render` — two things:
  - the glyph-column merge, through a 16-bit window over two vertically
    adjacent bytes;
  - the scroll by one text row, both as a function and as the in-place
    loop of `scroll_up`.
- `Transfer` — two things:
  - `queue_refresh`;
  - the phase switch of the I2C interrupt handler, as a pure step function
    that emits symbolic bus events (`Start`, `Write(byte)`, `Stop`).
- `Driver` — the public operations over one record: framebuffer, cursor and
  transfer variables. The operations are `set_pixel`, `clear_screen`,
  `goto_xy`, `scroll_up`, `output_char` and `output_str`.
- `SecondPageGuard` — the second-page guard of the glyph loop as written,
  set against the corrected guard that the rest of the model uses (see
  Findings).

Each foreground call and each handler run is one atomic transition. A
refresh is a sequence of handler runs. `After` and `Trace` give the
resulting state and the emitted bus events.

Two behaviours of the source that a reader may not expect; the model
follows the source:

- `goto_xy` sends a column of 32 or more back to column 0. It does not
  clamp it to 31.
- `scroll_up` does not clear the last page. Its bit 0 takes the old bit 7,
  so pixel row 56 shows the old row 63; rows 57..63 are dark
  (`Render.ScrollPixel`: pixel (x, y) becomes the old pixel (x, y + 7),
  and is dark when y + 7 is past the bottom).

Line feed (10) only returns the cursor to column 0. It neither changes the
picture nor requests a refresh.

## Model

| member | source | states |
|---|---|---|
| Bits.SetBit | ssd1306.c:226-231 | clearing or setting one bit of a byte: that bit takes the new value and the other seven are unchanged |
| Bits.BitsDetermineByte | ssd1306.c:38-44 | a byte is determined by its eight pixel bits |
| Font.TableWellFormed | ssd1306.c:49-53 | the table has exactly one entry per code 32..126 (95 entries); in every entry bit 7 of each column is clear and the fourth (spacing) column is empty |
| Font.Glyph | ssd1306.c:134-136 | the word loaded for a printable code is a well-formed glyph |
| Font.GlyphOfA | ssd1306.c:53 | the entry for 'A' has columns 0x1E, 0x05, 0x1E and a blank spacing column |
| Font.WellFormedColumns | ssd1306.c:49-51 | each column of a glyph fits in seven pixel bits, and the fourth is blank |
| Font.ShiftColumn | ssd1306.c:150-158 | shifting the glyph word right by 8 makes column k + 1 the low byte used on the next loop pass |
| Framebuffer.Index | ssd1306.c:38-44 | byte `128 * page + column` of every page and column lies inside the 1024-byte buffer |
| Framebuffer.Addressing | ssd1306.c:38-44 | bit k of byte i is exactly pixel (i % 128, 8 * (i / 128) + k) |
| Framebuffer.PixelsDetermineScreen | ssd1306.c:38-44 | two buffers that show the same 128x64 pixels are equal byte for byte |
| Framebuffer.Plot | ssd1306.c:219-231 | pixel (x, y) takes the colour and every other pixel keeps its value |
| Render.MergeLow | ssd1306.c:141-153 | the bit of the first-page byte written back is the glyph's bit inside the seven glyph bits at `bit_in`, and the old bit outside them |
| Render.MergeHigh | ssd1306.c:144-155 | the same for the byte of the page below: glyph bits that spill past bit 7, old bits elsewhere |
| Render.Merge | ssd1306.c:147-150 | the clear-and-or of the 16-bit window; `Render.MergeLow` and `Render.MergeHigh` state its bits: the seven bits from `bit_in` on take the glyph column and every other bit keeps its value |
| Render.FirstPage | ssd1306.c:107 | `first_row = (7 * cy) >> 3` is a page of the screen |
| Render.BitOffset | ssd1306.c:107-108 | `bit_in = (7 * cy) & 7` is below 8, and `8 * first_row + bit_in` is the text row's top pixel row `7 * cy` |
| Render.DrawColumnElsewhere | ssd1306.c:141-155 | one glyph column writes only the two bytes of its pixel column in `first_row` and the page below it |
| Render.MergedWindow | ssd1306.c:142-150 | both bytes read into one window, zero where there is no page below, then merged; `Render.MergedLowBit` and `Render.MergedHighBit` state each merged bit with the offsets as pixel-row numbers |
| Render.DrawColumn | ssd1306.c:141-155 | one pass of the column loop: both bytes read into the window, the seven glyph bits cleared and or-ed in, both bytes written back, the second only where a page below exists; its pixel meaning is stated by `Render.DrawColumnPixel` and its byte frame by `Render.DrawColumnKeeps` |
| Render.DrawColumnPixel | ssd1306.c:141-155 | after one glyph column, the seven pixels from row `7 * cy` of pixel column x are the column's bits, top pixel first; every other pixel is unchanged |
| Render.DrawColumnsOver | ssd1306.c:140-159 | after the column loop, the first n glyph columns show from pixel column x on in the text row's seven pixel rows; the rest of the screen is unchanged |
| Render.DrawColumns | ssd1306.c:140-159 | the column loop: n passes, shifting the glyph word one byte and moving one pixel column right after each; its meaning is stated by `Render.DrawColumnsOver` and `Render.DrawColumnsFrame` |
| Render.DrawColumnKeeps | ssd1306.c:142-155 | one glyph column writes no byte but those of its pixel column in `first_row` and the page below it |
| Render.DrawColumnsFrame | ssd1306.c:140-159 | the column loop writes no byte outside its own pixel columns in `first_row` and the page below it |
| Render.DrawGlyph | ssd1306.c:136-159 | the font word loaded for the code and the four passes of the column loop from pixel column `4 * cx`; `Render.DrawGlyphOver` states that the cell shows the glyph and nothing else changes, `Render.GlyphOnBlank` what bytes it writes on a dark screen |
| Render.DrawGlyphOver | ssd1306.c:134-159 | a drawn character shows its glyph in its 4x7 cell, spacing column included, and leaves every pixel outside the cell alone |
| Render.GlyphOnBlank | ssd1306.c:134-159 | on a dark buffer a glyph in the top left cell writes exactly the font word's bytes into page 0 and leaves page 1 dark |
| Render.ScrolledByte | ssd1306.c:94-97 | one new byte from the old byte and the byte below; `Render.ScrolledBit` states that bit 0 is the old bit 7 and bit b is bit b - 1 of the byte below, `Render.ScrollPixel` the meaning in pixels |
| Render.ScrolledBit | ssd1306.c:94-97 | bit 0 of a scrolled byte is bit 7 of the old byte, and bit b is bit b - 1 of the byte one page below |
| Render.Scroll | ssd1306.c:87-99 | the buffer after `scroll_up`, each byte computed from the old bytes; its pixel meaning is stated by `Render.ScrollPixel`, and `Render.ScrollInPlace` shows the in-place loop computes it |
| Render.ScrollByte | ssd1306.c:93-97 | the definition of `Render.Scroll` read by page and column: the byte of (page, column) is the window over itself and the byte below it, zero below the last page; `Render.ScrollInPlace` links this to the source loop |
| Render.ScrollPixel | ssd1306.c:87-99 | after the scroll, pixel (x, y) is the old pixel (x, y + 7) when y + 7 < 64, and dark otherwise |
| Render.ScrollInPlace | ssd1306.c:87-99 | the column-by-column, page-by-page loop over one buffer computes the scroll of the old buffer: a byte is rewritten only after the byte above it has read it |
| Transfer.Request | ssd1306.c:75-83 | `queue_refresh` leaves a refresh queued and a transfer running; a running transfer only gains the queued flag; an idle one restarts at the address phase |
| Transfer.RequestIdempotent | ssd1306.c:75-83 | requesting twice is requesting once, so refreshes coalesce |
| Transfer.Step | ssd1306.c:245-257 | one handler run keeps the data index in bounds and keeps queued ⇒ running; an idle state does not move; the queued flag is cleared only by the control-byte run; the last run restarts exactly when a refresh is queued and ends the transfer otherwise |
| Transfer.After | ssd1306.c:245-257 | the state after n handler runs keeps the transfer invariant (data index in bounds, queued implies running); `Transfer.AfterAppend` composes runs, and `Transfer.FrameRun` and `Transfer.Drains` state where it ends |
| Transfer.Trace | ssd1306.c:245-257 | the bus events of n handler runs, at most one per run; `Transfer.TraceAppend` composes runs, and `Transfer.FrameRun` and `Transfer.QueuedIsServed` state what is sent |
| Transfer.DataRun | ssd1306.c:251 | from data index c the handler sends bytes c..1023 of the buffer in order, one per run, and then moves to the stop phase |
| Transfer.HeaderRun | ssd1306.c:249-250 | a transfer begins with address byte 0x78 (0x3C shifted left, ssd1306.h:17) and control byte 0x40, and takes a queued request as served |
| Transfer.FrameRun | ssd1306.c:249-256 | a transfer at the address phase sends the address byte, the control byte, all 1024 buffer bytes and the stop condition, and then goes idle |
| Transfer.RefreshFromQuiet | ssd1306.c:75-83 | a refresh requested while the bus is idle puts exactly a start condition and then one whole frame of the buffer on the bus |
| Transfer.StepLeft | ssd1306.c:245-257 | every run of a running transfer brings its end one run nearer |
| Transfer.Drains | ssd1306.c:245-257 | left to itself, the handler chain stops after a bounded number of runs with nothing queued and no transfer running |
| Transfer.QueuedIsServed | ssd1306.c:250-256 | a queued refresh is never lost: from any phase, the events until the bus goes quiet end with the control byte, all 1024 buffer bytes and the stop condition, all sent after the request |
| Driver.PowerOnValid | ssd1306.c:57-68 | the zero-initialised statics give a dark screen, the cursor in a valid cell and no transfer |
| Driver.Initialized | ssd1306.c:368 | after `ssd1306_initialize` the screen is dark, the cursor is home and a refresh is queued at the address phase |
| Driver.InitialRefresh | ssd1306.c:368 | that first refresh puts a start condition and one frame of the dark screen on the bus, and the bus then goes quiet |
| Driver.SetPixel | ssd1306.c:218-234 | outside the screen nothing changes, and no refresh is requested; inside, exactly pixel (x, y) becomes lit iff the colour is non-zero, the cursor stays, and a refresh is requested |
| Driver.SetPixelRestores | ssd1306.c:218-234 | setting a pixel and then setting it back to its old colour restores the buffer byte for byte |
| Driver.ClearScreen | ssd1306.c:197-202 | every byte is zero, the cursor is home and a refresh is requested |
| Driver.ClearScreenIdempotent | ssd1306.c:197-202 | clearing twice is clearing once |
| Driver.GotoXY | ssd1306.c:206-213 | a column of 32 or more becomes 0 and a row of 9 or more becomes 8; the buffer and the transfer are unchanged |
| Driver.ScrollUp | ssd1306.c:87-101 | the picture moves up seven pixel rows, the cursor stays and a refresh is requested |
| Driver.NewLine | ssd1306.c:120-128 | the cursor moves to the next row; past the last row it stays on row 8 and the screen scrolls |
| Driver.Printed | ssd1306.c:134-171 | the glyph drawn at the cursor's cell, then the scroll when that cell ends the last row; `Driver.PrintedPixel` states the result pixel by pixel |
| Driver.OutputChar | ssd1306.c:106-173 | the cursor stays in a valid cell. Line feed only zeroes the column. Carriage return also moves down, scrolling past the last row. Other codes outside 32..126 change nothing. A printable code draws its glyph, advances the cursor with wrap and scroll, and requests a refresh |
| Driver.PrintedPixel | ssd1306.c:134-172 | after a printable code, each pixel shows the glyph inside the cursor's cell and the old picture outside it; when the character ends the last row, that picture is moved up one text row |
| Driver.PrintedGlyphScrolled | ssd1306.c:160-171 | the character that ends the last row stays visible: after the scroll its glyph sits one text row higher |
| Driver.PrintAfterClear | ssd1306.c:134-172 | a character printed right after `clear_screen` puts its font columns in bytes 0..3, leaves bytes 128..131 dark, and moves the cursor to column 1 of row 0 |
| Driver.OutputCharSchedules | ssd1306.c:106-173 | a character that changes the picture leaves a refresh queued; one printed during a transfer disturbs neither its phase nor its data index |
| Driver.Strlen | ssd1306.c:190 | the length is the number of codes before the first 0, or all of them |
| Driver.Chars | ssd1306.c:191-192 | `output_char` applied to each code in turn keeps the cursor on the grid and the transfer invariant; `Driver.CharsAppend` and `Driver.CharsSchedule` state how it composes and what it schedules |
| Driver.CharsAppend | ssd1306.c:186-193 | printing a + b is printing a and then b |
| Driver.OutputStr | ssd1306.c:186-193 | `output_str` is `output_char` applied to each code before the terminating 0, in order |
| Driver.CharsSchedule | ssd1306.c:186-193 | a string that changes the picture leaves a refresh queued; printing during a transfer disturbs neither its phase nor its data index |
| SecondPageGuard.WrittenGuardPassesLastRow | ssd1306.c:143-144 | the written guard `first_row < SCREEN_HEIGHT` holds on the last text row, where there is no second page and the byte it addresses lies at or past 1024 |
| SecondPageGuard.WrittenColumn | ssd1306.c:141-155 | one pass of the column loop with the guard as written, over the buffer and the 128 bytes behind it; `SecondPageGuard.WrittenMatchesCorrected` relates it to `Render.DrawColumn` |
| SecondPageGuard.OutOfBoundsExample | ssd1306.c:154-155 | at text row 8, column 0, the second write goes to byte 1024 |
| SecondPageGuard.WrittenMatchesCorrected | ssd1306.c:141-155 | for every glyph column that fits in seven bits, the loop as written changes the first 1024 bytes exactly as the corrected loop does, and writes the stray byte behind the buffer back unchanged |

## Left out

- Bring-up: `i2c_send_command` and the command list of `ssd1306_initialize` (ssd1306.c:260-369). They are busy-wait register polling and fixed protocol bytes, with no logic of their own. The baud-rate setting is left out too. The refresh request at the end is modelled by `Driver.Initialized`.
- Interrupt plumbing: `INTClearFlag`, priorities, the `__ISR` vector and the register writes that start (SEN) and stop (PEN) a bus condition. These are hardware calls. Their effect is the symbolic `Start`/`Stop` events.
- Concurrency: foreground calls and handler runs are atomic and interleave whole. Not modelled:
  - a frame torn by drawing while it is being sent;
  - the non-atomic check-then-set in `queue_refresh`.
- The token-pasting channel macros (ssd1306.c:12-15). They select the I2C channel at compile time.
- `_mon_putc` (ssd1306.c:178), a one-line wrapper around `output_char` for printf. main.c is not part of this model.
- Transfer.RequestEvents: the start condition a request puts on the bus is listed as an event but has no contract. The transition it starts is stated by Transfer.Request.
- Driver.OutputChar: the argument is an `int` code rather than a C `char`. Every code outside 10, 13 and 32..126 is ignored, so either signedness of `char` gives the same behaviour.
- Driver.OutputStr: takes a sequence of codes. Reading past the end of a C string without a 0 is not modelled.
- The initial value 0 of `i2c_irq_phase`, with no transfer running, is modelled as the Idle phase. The handler is only raised while a transfer runs, so the two cannot be told apart.
- Valid (cursor inside the 32x9 grid, transfer invariant) is a precondition of the driver operations. It holds at power-on and every operation keeps it, but the source never checks it.

## Findings

| source | as written | input that shows it | evidently intended | confidence | as-written member | corrected member |
|---|---|---|---|---|---|---|
| ssd1306.c:143-144, 154-155 | the second page is read and written when `first_row < SCREEN_HEIGHT` (64), which every text row satisfies | any printable character at text row 8: `first_row` is 7, and the loop reads and writes `screen_data[1024 + x]`, past the end of the 1024-byte buffer | touch the page below only when it exists, `first_row + 1 < SCREEN_PAGES` | high (not executed) | SecondPageGuard.WrittenColumn, SecondPageGuard.WrittenGuardPassesLastRow | Render.DrawColumnPixel |

The as-written loop is `SecondPageGuard.WrittenColumn`, run over the buffer
plus the 128 bytes behind it. On row 8 `bit_in` is 0 and glyph columns are
below 0x80, so the stray byte is read and written back unchanged
(`SecondPageGuard.WrittenMatchesCorrected`). In the atomic model (see
"Concurrency" under Left out) only the out-of-bounds access itself is wrong.
On the device, line 144 reads the stray byte and line 155 writes it back
later. If a handler run falls in between and changes a variable the linker
placed there, the write-back undoes that change. The corrected loop is `Render.DrawColumn`, guarded by
`Render.HasSecondPage`; `Render.DrawColumnPixel` proves the intended
property about it.
