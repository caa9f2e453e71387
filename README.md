# Progress-bar dashboard: loader, colours, layout and scrolling

This project models the core of `bars.c`, a Win32 window that shows up to
100 progress bars read from `bars.json`. It covers four parts of the program:

- **Loader.** `LoadBarsFromJSON` scans the file's characters for `{`. For
  each record it reads the `"title"`, `"current"`, `"total"` and `"color"`
  fields with `strstr`, `strchr` and `sscanf`, then appends the bar to the
  global array. The cursor then moves just past the next `}`.
- **Colours.** `HexToColor` turns `#RRGGBB` text into a `COLORREF`, with
  black as the fallback.
- **Drawing.** `DrawBarChart` lays out the visible bars: a track, a filled
  part proportional to `current / total`, and a title above each bar.
- **Scrolling.** The `WM_SIZE`, `WM_VSCROLL` and `WM_MOUSEWHEEL` handlers
  move the scroll offset and bound it with `offsetMax`.

Modules:

- `CInt` holds C's 32-bit `int` range and its truncating division.
- `CString` holds the C library searches and `sscanf` directives, as pure
  matchers over the text.
- `Color` holds `HexToColor`.
- `Records` holds the bar record, the four field readers, the cursor walk
  (`RecordStarts`) and what one load appends (`Load`).
- `Layout` holds the geometry of `DrawBarChart`.
- `Scroll` holds `offsetMax` and the two scroll steps.
- `App` holds the class `Dashboard`. Its fields are the C globals `bars`,
  `barCount` and `scrollOffset`. Its methods are the loops and handlers
  that update those globals in place. Each method is proved against the
  pure functions of the other modules.

Wherever C leaves the behaviour undefined, the model makes that an explicit
case. There are three such places while reading a record:

- a `"title"` with no `:` after it;
- a colour whose `sscanf` fails, leaving `hexColor` uninitialised;
- a `%d` value that does not fit in an `int`.

These three give `Undefined` in `Records.Defined`, and the loader methods
require that none of them is reached. A zero `total`, or an `int`
overflow while drawing or scrolling, is a precondition of the member that
meets it. For drawing this covers `maxWidth` (bars.c:195), each product
`current * maxWidth` and quotient (bars.c:208-209), and the rectangle
edges `margin + maxWidth`, `margin + barWidth` and `yOffset + barHeight`
(bars.c:212-216).

The text is a sequence of `char`, one per byte of the file, as `fread`
delivers it; there is no decoding.

`HexToColor` does not insist on `#RRGGBB`. Each `%02x` field is at most two
characters but may be shorter or carry a sign:

- `#12345` gives `(0x12, 0x34, 0x05)` (`Color.ShortFieldAccepted`);
- `#-1-1-1` gives white, because `RGB` keeps the low byte of each `-1`
  (`Color.NegativeFieldsWrap`).

Only text that converts fewer than three fields is reported and turned
into black.

The records that round-trip are those written in the layout of the default
file (bars.c:26-30): `{"title": "…", "current": n, "total": n, "color":
"#RRGGBB"}`, with `": "` after each key and `", "` between entries
(`Records.RecordText`). Such a record reads back as the bar it was written
from when its title has at most 49 characters, holds no quote, and is not
spelled like another key. A title spelled `current`, `total` or `color`
shadows that key, because every key is searched from the record's `{` and
the quoted title comes first (`Records.TitleShadowsKey`).

Other behaviours of the code that the model keeps:

- Each key is searched from the record's `{` to the end of the text, not
  only to the record's `}`. A record that lacks a field therefore takes it
  from a later record (`Records.KeysReachPastRecord`,
  `Records.TotalFromLaterRecord`).
- The mouse wheel, unlike the scroll bar, applies no lower bound to the
  offset (`Scroll.WheelCanGoNegative`).

## Model

| member | source | states |
|---|---|---|
| CInt.Div | bars.c:208 | C's `/` truncates toward zero: the remainder is smaller than the divisor in magnitude and has the sign of the dividend |
| CString.Find | bars.c:141 | `strstr` returns only a position at or after the start where the pattern occurs |
| CString.FindFirst | bars.c:141 | no occurrence comes before the one `strstr` returns, and there is none at all when it returns NULL |
| CString.FindSkips | bars.c:141 | a search started earlier gives the same answer as a later one when the pattern does not occur in between |
| CString.FindChar | bars.c:143 | `strchr` returns only a position of the character at or after the start |
| CString.FindCharFirst | bars.c:143 | no such character comes before the one `strchr` returns, and there is none when it returns NULL |
| CString.SkipSpace | bars.c:144 | a white-space directive stops at the first character that is not white space, or at the end |
| CString.SkipSpaceSkipsSpace | bars.c:144 | everything a white-space directive passes over is white space |
| CString.DigitsEnd | bars.c:150 | the run of digits that `%d` consumes is all digits and is followed by a non-digit or the end |
| CString.DigitsEndAt | bars.c:150 | any run of digits ending before a non-digit is the run `%d` consumes |
| CString.ScanInt | bars.c:150 | a successful `%d` consumes at least one digit and stops right before a character that is not a digit |
| CString.FormatNat | bars.c:26-30 | the decimal numeral written for `n` is a non-empty run of digits whose value is `n` |
| CString.ScanIntAt | bars.c:150 | `%d` reads back the numeral of any integer, sign included, found at any position before a non-digit |
| CString.ScanIntRoundTrip | bars.c:150 | `%d` reads back the numeral of any integer embedded in any text, with its end position |
| CString.ScanUntilQuote | bars.c:144 | `%N[^"]` reads at most `N` characters, none a quote, copied from the text, and stops only at the width, a quote or the end |
| CString.ScanUntilQuoteRoundTrip | bars.c:144 | quote-free text of at most `N` characters followed by a quote or the end is read back whole |
| CString.QuotedField | bars.c:144 | ` "%N[^"]` yields at most `N` quote-free characters. After white space and an opening quote, they are the characters that follow it, stopping only at the width, a quote or the end; with no opening quote it yields nothing |
| CString.HexDigitsEnd | bars.c:183 | the `%02x` field is at most the width, all hexadecimal digits, and ends at the width, the end or a non-digit |
| CString.ScanHex2 | bars.c:183 | a successful `%02x` consumes at least one character and yields a value between -15 and 255 |
| CString.HexValueBound | bars.c:183 | two hexadecimal digits denote less than 256, and one digit less than 16 |
| Color.RGBOfBytes | bars.c:187 | the `RGB` macro keeps channels that already fit in a byte |
| Color.ParseHex | bars.c:183-186 | text that is empty or does not begin with `#` is an invalid colour |
| Color.HexPairAt | bars.c:183 | two hexadecimal digits convert under `%02x` to the byte they spell, ending two characters on |
| Color.HexPairsInOrder | bars.c:181-188 | HexToColor: for `#` followed by six hexadecimal digits, the colour is defined and its red, green and blue are the three pairs in order |
| Color.FormatColor | bars.c:26-30 | a colour's text is seven characters: `#` and six hexadecimal digits |
| Color.HexToColorRoundTrip | bars.c:181-188 | HexToColor reads back every colour written as `#RRGGBB`, and never reports an error for it |
| Color.NonHexIsBlack | bars.c:183-186 | a `#` followed by a character that is neither white space, a sign nor a hexadecimal digit converts nothing: the colour is invalid and HexToColor gives black |
| Color.ShortFieldAccepted | bars.c:183 | `#12345` is accepted as `(0x12, 0x34, 0x05)`: each field may be shorter than two digits |
| Color.NegatedDigitAt | bars.c:183 | a `-` and one hexadecimal digit fill a two-character `%02x` field and convert to the negated digit |
| Color.NegativeFieldsWrap | bars.c:183-187 | `#-1-1-1` converts to `-1` three times and `RGB` keeps the low byte of each, giving white `(255, 255, 255)` |
| Records.BufferText | bars.c:128-130 | the scanned text is a prefix of what `fread` delivered, at most 10239 characters, free of NUL, and cut short only at a delivered NUL |
| Records.ReadTitle | bars.c:140-145 | the title is empty when `"title"` does not occur; undefined when no `:` follows the key; otherwise it is the ` "%49[^"]` field read just after the first `:` from the key |
| Records.ReadTitleFits | bars.c:144 | a title read has at most 49 characters and no quote |
| Records.ReadInt | bars.c:147-157 | the number is 0 when its key does not occur, when no `:` directly follows the key, or when `%d` converts nothing; otherwise it is the `%d` value after the colon when that fits an `int`, and undefined when it does not |
| Records.ReadColor | bars.c:159-165 | the colour is black when its key does not occur; undefined when no `:` directly follows the key or no quoted field follows it; otherwise it is HexToColor of the quoted field of at most 7 characters |
| Records.ParseRecord | bars.c:138-165 | a record is defined exactly when its four fields are, and is then the bar made of the four fields read from its `{` |
| Records.MissingFieldsKeepDefaults | bars.c:138-165 | each field whose key does not occur from the `{` on keeps its value from `{"", 0, 0, RGB(0, 0, 0)}` |
| Records.DetachedColonKeepsZero | bars.c:150 | a number whose key is not directly followed by `:` keeps its default 0 |
| Records.KeysReachPastRecord | bars.c:141-163 | with no key between the record's `{` and a later position, the record reads exactly what a record at that position reads |
| Records.TotalFromLaterRecord | bars.c:154-157 | a record without `"total"` takes the total found from the next occurrence of the key on |
| Records.TitleRoundTrip | bars.c:141-145 | a quote-free title written as `"title": "…"` after the record's `{`, with no earlier `"title"`, is read back cut to 49 characters |
| Records.IntRoundTrip | bars.c:147-157 | a number written as `"key": n` before a non-digit, with no earlier key after the record's `{`, is read back as `n` |
| Records.ColorRoundTrip | bars.c:159-165 | a colour written as `"color": "#RRGGBB"`, with no earlier `"color"` after the record's `{`, is read back as that colour |
| Records.RecordTextAt | bars.c:26-30 | a record in the default file's layout holds its title, current, total and colour entries in that order, each followed by `, ` or, for the last, by `}` |
| Records.RecordRoundTrip | bars.c:138-165 | a record in the default file's layout, anywhere in the text, reads back as its bar when the title has at most 49 quote-free characters and is not spelled like another key |
| Records.RecordTextRoundTrip | bars.c:138-165 | a record written in the default file's layout and followed by any text reads back as the bar it was written from |
| Records.ExampleRecord | bars.c:26 | the first default record reads back as "Bar 1", 50 of 100, colour `(255, 87, 51)` |
| Records.TitleValueFound | bars.c:148-160 | the search from the `{` for a key spelled like the title stops at the title's quoted value, which is followed by `,`, not `:` |
| Records.TitleShadowsKey | bars.c:141-165 | in the default layout, a title spelled `current` or `total` makes that number 0, and a title spelled `color` leaves the colour unread, which is undefined |
| Records.FindSingle | bars.c:135 | `strstr` with a one-character needle returns what `strchr` returns |
| Records.RecordStarts | bars.c:133-173 | the cursor walk visits at most the room left for bars |
| Records.RecordStartsAreBraces | bars.c:133-173 | every position the walk visits holds `{`, in strictly increasing order, at or after where it began |
| Records.ParseAll | bars.c:134-167 | reading the visited records, when defined, gives one bar per visited `{` |
| Records.ParseAllRecords | bars.c:134-167 | reading the records is defined exactly when every record is, and the `k`-th bar is the `k`-th record |
| Records.Load | bars.c:133-173 | one run of the scan loop, when defined, appends one bar per visited `{`, never more than the room left |
| Records.LoadAt | bars.c:138-167 | the `k`-th bar appended is the record read at the `k`-th visited `{` |
| Records.ScanStep | bars.c:134-172 | one pass of the scan loop visits the next start of the walk, then either ends the walk or resumes it past the `}` |
| Records.RecordCount | bars.c:133-173 | text whose braces form `n` closed, unnested pairs loads `min(n, room)` bars |
| Layout.FilledWithinTrack | bars.c:208-209 | FilledWidth: for progress between 0 and the total, the filled width is `current * maxWidth / total` rounded down, within the track, and the filled and unfilled widths add up to the track |
| Layout.OverfullBarOverrunsTrack | bars.c:208-209 | a bar past its total fills at least its whole track and leaves no positive unfilled width |
| Layout.NegativeProgressTruncates | bars.c:208 | negative progress rounds toward zero, not down |
| Layout.DrawnAreVisible | bars.c:203-221 | every bar drawn is a visible bar of the array, drawn as DrawBar lays it out: at its own offset, with its own track, fill and title |
| Layout.DrawnInOrder | bars.c:203 | bars are drawn in index order, each at most once |
| Layout.VisibleAreDrawn | bars.c:203-205 | every bar whose offset lies within the client area is drawn |
| Layout.DrawnFillWithinTrack | bars.c:212-216 | the filled rectangle starts and ends within the track rectangle, on the same row |
| Layout.VisibleRows | bars.c:204-205 | no more than `clientHeight / 80 + 1` bars are drawn |
| Layout.TrackBetweenMargins | bars.c:195-220 | each track starts 20 pixels from the left and ends 20 short of the client width; the title is written at the track's left edge, 20 above its top |
| Layout.RowsEvenlySpaced | bars.c:204 | the first bar is 40 below the top, consecutive bars are one bar height and one spacing apart, and scrolling by `d` moves every bar up by `d` |
| Layout.VisibleBetween | bars.c:205 | a bar between two visible bars is visible |
| Layout.DrawnConsecutive | bars.c:203-205 | the drawn bars are a run of consecutive indices, with none skipped |
| Scroll.OffsetMax | bars.c:242-247 | `offsetMax` never raises the offset, never leaves it above the content limit `(barCount + 1) * 80 - windowHeight`, and returns either the offset or that limit |
| Scroll.OffsetMaxKeeps | bars.c:243-246 | the offset is kept exactly when it is within the limit |
| Scroll.OffsetMaxIdempotent | bars.c:242-247 | applying `offsetMax` twice is applying it once |
| Scroll.Stepped | bars.c:276-287 | a line up or down moves one row of 80 pixels, a thumb request takes the thumb position, any other request keeps the offset |
| Scroll.VScrollBounds | bars.c:276-290 | VScrolled: after a scroll-bar request the offset lies between 0 and the limit when the content is taller than the window, and is the negative limit otherwise |
| Scroll.LineDownThenUp | bars.c:277-290 | within the bounds, a line down followed by a line up returns to the starting offset |
| Scroll.ThumbSetsOffset | bars.c:283-290 | dragging or releasing the thumb within the bounds puts the offset there |
| Scroll.WheelNotches | bars.c:296-298 | WheelScrolled: each whole notch moves the offset one row before the bound |
| Scroll.PartialNotchIgnored | bars.c:297 | a wheel delta below one notch does not move the offset |
| Scroll.WheelCanGoNegative | bars.c:297-298 | the wheel can leave the offset negative even when the content is taller than the window |
| App.ReadRecord | bars.c:138-165 | the bar built at the `k`-th visited `{` is the `k`-th bar the load appends |
| App.Dashboard.constructor | bars.c:20-22 | at start the array is zeroed, no bar is loaded and the offset is 0 |
| App.Dashboard.LoadBarsFromText | bars.c:128-177 | the loaded bars become the old bars followed by what Load reads from the buffer, and "No bars loaded" is reported exactly when the count is still 0 |
| App.Dashboard.ScanRecords | bars.c:133-173 | the scan loop appends exactly the bars Load describes, after those already loaded |
| App.Dashboard.TakeRecord | bars.c:138-172 | one pass from a `{` stores the next bar Load describes and moves the walk past the `}`, or ends it when there is none |
| App.Dashboard.Append | bars.c:167 | `bars[barCount++] = newBar` stores the bar in the first free slot and changes no slot after it |
| App.Dashboard.DrawBarChart | bars.c:191-231 | nothing is drawn without bars; otherwise a negative offset is reset to 0 and exactly the bars Layout.DrawFrom lists are drawn, in order |
| App.Dashboard.DrawVisible | bars.c:203-221 | the drawing loop draws exactly the bars Layout.DrawFrom lists, in order, each as its track, filled part and title |
| App.Dashboard.OnSize | bars.c:267-271 | `WM_SIZE` sets the offset to `offsetMax` of the old offset |
| App.Dashboard.OnVScroll | bars.c:273-293 | `WM_VSCROLL` sets the offset to the request's step, raised to 0, then bounded by `offsetMax` |
| App.Dashboard.OnMouseWheel | bars.c:295-301 | `WM_MOUSEWHEEL` moves the offset one row per whole notch against the delta's sign, then bounds it by `offsetMax` |

## Left out

- `WinMain`, window creation and placement, and the message loop
  (bars.c:39-95) are Win32 set-up with nothing to prove.
- Brush creation and release (bars.c:42-45, 306-311) and every GDI call
  are output only. A drawn bar is recorded as a `BarDrawing` value instead.
- `WM_PAINT` and `WM_ERASEBKGND` (bars.c:253-265, 303-304) only call
  `DrawBarChart` or suppress erasing.
- Opening `bars.json`, the dialog that offers to write the default file,
  the recursive reload and `ExitProcess` (bars.c:104-126) are file and
  user I/O. The model starts from the characters `fread` delivered.
- Text-mode CRLF translation by `fread` is not modelled. The delivered
  characters are taken as they arrive.
- `DisplayError` shows a message box. Its two uses in the core appear as
  results instead: `ParseHex` returning None is the colour error, and
  `noBarsReported` is the "No bars loaded" error.
- The percentage label (bars.c:223-229) is left out. It needs floating
  point, and `sprintf` into a 10-byte buffer, which longer labels overflow.
- `getWindowHeight` (bars.c:234-240) queries the window. Its result is the
  `windowHeight` parameter of the handlers, and its error value -1 is one
  possible value of that parameter.
- `scrollPos` (bars.c:275) is read but never used.
- `unfilledWidth` (bars.c:209) is computed but never drawn. It is
  `Layout.UnfilledWidth`, and the layout lemmas state its value.
- The `0x` prefix that `%x` also accepts is not modelled in `ScanHex2`.
- The title buffer holds 80 characters, but the loader writes at most 49;
  the model keeps the title as a string of at most 49 characters.
- The loop's `strstr(start, "{")` and `strstr(start, "}")` are modelled
  with `FindChar`. `Records.FindSingle` proves the two agree.
- App.Dashboard.ScanRecords: it does not state that the slots past the new
  count keep their contents. `App.Dashboard.Append` states this for each
  store; carrying it through the loop made the proof too costly.
- App.Dashboard.LoadBarsFromText: the same frame property is left out
  here too, for the same reason.
- C's undefined behaviour is not given a meaning. Wherever the code could
  reach it, the member requires that it is not reached:
  - `Load(…).Ok?` for the loader;
  - `DrawDefined` for the drawing loop;
  - `InInt32` bounds for the scroll handlers.
