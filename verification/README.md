# MineSweeper terminal layer and board logic, modelled in Dafny

The repository is a terminal minesweeper in C++. It has three parts, and this project models the core of each:

- **`src/cgt_linux.cpp`** is the optimised terminal layer.
  - A 4096-byte reassembly buffer feeds a byte-level decoder. The decoder turns keys and xterm SGR (1006) mouse reports (`ESC [ < b ; x ; y M|m`) into a FIFO of events, and synthesises double clicks inside a 400 ms window.
  - A render cache of the current colours and cursor cell suppresses repeated escape sequences.
  - `cgt_getxy` reads a cursor-position reply.
- **`cgt_linux.cpp`** is the older terminal layer.
  - Its decoder is built on `sscanf`, and its partial input lives in a 256-byte C string.
  - Its `cgt_getxy` finds the last `ESC [ row ; col R` and feeds the other bytes back to the parser.
- **`game.cpp`** is the game.
  - The board is an `int**` of cells. '*' (42) is a mine, 0..8 is a neighbour count, and `-(v+1)` is a revealed cell.
  - `generateMines` picks the k-th free cell and then numbers the board.
  - `AutoSwitch` reveals cells and floods zeros. `TryChord` clears around a number.
  - The main loop's right click toggles flags, and the game is won when every mine is flagged.

How the code maps onto Dafny:

- **Modules.** `Bytes`, `Scan` and `Events` hold the shared byte classes, `%d`/`strrchr` and the event type.
- **Optimised decoder.**
  - `SgrDecoder` is the decoder as functions over the byte buffer and an index, the way the C loop walks it.
  - `Render` is the render cache as functions with an abstract screen.
  - `Console.Session` is a class that holds the buffer (an `array`), the event queue, the click tracker, the cache and an output token log. Its methods carry the C loops and are proved against those functions.
- **Older layer.** `LegacyDecoder` and `LegacyConsole` do the same for the older file.
- **Game.**
  - `MineGrid` is the board as a value (`seq<seq<int>>`) with counting, ranking and flood predicates.
  - `MineGame.Game` is a class whose `array2<int>` fields are `mine` and the player's marks. Ghost mirrors of both are kept as values.
  - The nested loops, the recursion of `AutoSwitch` and the flag handler update the arrays in place.
- **Parameters instead of I/O.** Whatever the C code reads from the outside world is passed in:
  - the bytes `read` returns;
  - the clock value `gettimeofday` gives;
  - the indices `randomInt` returns.

  Whatever it writes is appended to a log of tokens.

## Model

| member | source | states |
|---|---|---|
| SgrDecoder.ParseInt | src/cgt_linux.cpp:83-90 | `fast_parse_int` stops within the buffer at a non-digit or the end; with no digit it reads 0 and does not move |
| SgrDecoder.Step | src/cgt_linux.cpp:194-285 | one pass of the loop either waits, or advances strictly and queues at most one event |
| SgrDecoder.ReportStep | src/cgt_linux.cpp:201-268 | a report that completes consumes at least `ESC[<` plus its final byte and yields exactly one mouse event |
| SgrDecoder.SkipCsi | src/cgt_linux.cpp:271-276 | any other CSI that completes yields no event and leaves the click tracker alone |
| SgrDecoder.Decode | src/cgt_linux.cpp:192-288 | the index the parser returns lies between its start and the buffer length |
| SgrDecoder.IncompleteCases | src/cgt_linux.cpp:195-274 | a token waits for more bytes exactly when it is a lone ESC, a lone `ESC[`, a report with no 'M'/'m' after it, or a CSI with no byte in 0x40-0x7E |
| SgrDecoder.DecodeStopsAtIncomplete | src/cgt_linux.cpp:192-288 | decoding stops only at the end of the buffer or at an incomplete token |
| SgrDecoder.DecodeStep | src/cgt_linux.cpp:194-286 | after a complete token the events of the rest follow that token's events |
| SgrDecoder.DecodeKey | src/cgt_linux.cpp:279-285 | a non-ESC byte is one key event, CR delivered as LF, and decoding goes on at the next byte |
| SgrDecoder.DecodeBareEscape | src/cgt_linux.cpp:278 | an ESC not followed by '[' is dropped and the next byte is decoded normally |
| SgrDecoder.DecodeText | src/cgt_linux.cpp:279-286 | a run with no ESC is consumed completely, one key per byte |
| SgrDecoder.DecodeOtherCsi | src/cgt_linux.cpp:271-276 | a non-mouse CSI is skipped through its first final byte with no event |
| SgrDecoder.OtherCsiStep | src/cgt_linux.cpp:271-276 | the same for a single pass of the loop |
| SgrDecoder.DecodeSkip | src/cgt_linux.cpp:271-276 | a token with no event and no tracker change is invisible to the rest of the decode |
| SgrDecoder.WireLayout | src/cgt_linux.cpp:200-213 | where the digit strings and the final byte of a report sit after any prefix |
| SgrDecoder.ParseIntAt | src/cgt_linux.cpp:83-90 | over a digit string up to a non-digit, the field read is its decimal value and ends at the non-digit |
| SgrDecoder.BodyValues | src/cgt_linux.cpp:208-212 | the three field reads of a `b;x;y` body give the three decimal values |
| SgrDecoder.BodyEnd | src/cgt_linux.cpp:205 | the terminator search over such a body stops at its final byte |
| SgrDecoder.ReportStepAt | src/cgt_linux.cpp:201-268 | a report laid out at i is consumed through its final byte and classified from its own numbers |
| SgrDecoder.StepIsReport | src/cgt_linux.cpp:195-201 | `ESC [ <` is handed to the report reader |
| SgrDecoder.ReportBody | src/cgt_linux.cpp:205-213 | the report reader's terminator and fields for a laid-out report |
| SgrDecoder.ReportEnd | src/cgt_linux.cpp:205-206 | the terminator of a laid-out report is its final byte |
| SgrDecoder.ReportFields | src/cgt_linux.cpp:208-212 | the fields of a laid-out report are the values of its digit strings |
| SgrDecoder.WireIsStep | src/cgt_linux.cpp:201-268 | a report after any prefix is one step, classified from its digit strings' values |
| SgrDecoder.ReportIsStep | src/cgt_linux.cpp:201-268 | the same for the report of three naturals as a terminal writes it |
| SgrDecoder.DecodeReport | src/cgt_linux.cpp:200-267 | a complete report yields exactly one mouse event at (x-1, y-1), consumed through its terminator |
| SgrDecoder.LeftClickExample | src/cgt_linux.cpp:200-267 | `ESC[<0;11;6M` on a fresh tracker is a left click at (10, 5) consuming all 10 bytes |
| SgrDecoder.ClassifyTable | src/cgt_linux.cpp:219-265 | the whole table: 'M' with b>=32 is Move with the button of b-32; b=3 is Release; other 'M' is a click with the button of b; 'm' is Move for b>=32, else Release, button 0 |
| SgrDecoder.DoubleClickRule | src/cgt_linux.cpp:231-254 | a click is a DoubleClick exactly when it repeats the recorded button at most one column from the recorded x, on the same row, less than 400 ms later; a double click zeroes the time and keeps the rest; a single click records (now, x, y, b) |
| SgrDecoder.NoTripleClick | src/cgt_linux.cpp:240-241 | once the clock reads 400 or more, the click after a double click is not a double click |
| SgrDecoder.ThreeClicks | src/cgt_linux.cpp:231-254 | three identical clicks decode as Click, DoubleClick, Click |
| SgrDecoder.StepExtend | src/cgt_linux.cpp:192-288 | a token complete in a buffer decodes the same in any extension of it |
| SgrDecoder.ReportStepExtend | src/cgt_linux.cpp:201-268 | the same for the report reader |
| SgrDecoder.ParseIntExtend | src/cgt_linux.cpp:83-90 | `fast_parse_int` never reads past a non-digit already in the buffer |
| SgrDecoder.SgrFieldsExtend | src/cgt_linux.cpp:208-212 | the field reads never read past the report's terminator |
| SgrDecoder.DecodeSplit | src/cgt_linux.cpp:192-288 | decoding a buffer `a ++ b` in one call gives the events of decoding `a`, then those of resuming at `a`'s stop in the same buffer `a ++ b`: later bytes never change how earlier complete tokens decode |
| SgrDecoder.DecodeSplitStep | src/cgt_linux.cpp:192-288 | the inductive step of that split |
| SgrDecoder.StepShift | src/cgt_linux.cpp:194-285 | one pass of the loop never looks before its index: at n + i in a buffer whose bytes from n on are `t` it waits exactly when the pass at i in `t` waits, and otherwise gives the same events and tracker with the next index moved by n |
| SgrDecoder.ReportStepShift | src/cgt_linux.cpp:201-268 | the same for the report reader |
| SgrDecoder.ParseIntShift | src/cgt_linux.cpp:83-90 | `fast_parse_int` at n + k reads the value it reads at k in the suffix, ending n bytes later |
| SgrDecoder.SemicolonShift | src/cgt_linux.cpp:209-211 | the `;` skip at n + k lands n bytes after where it lands at k in the suffix |
| SgrDecoder.SgrFieldsShift | src/cgt_linux.cpp:208-212 | the three field reads give the same values at n + k as at k in the suffix |
| SgrDecoder.DecodeShift | src/cgt_linux.cpp:192-288 | decoding from n + i in a buffer whose bytes from n on are `t` queues the events and leaves the tracker of decoding `t` from i, with the stop moved by n |
| SgrDecoder.DecodeCompacted | src/cgt_linux.cpp:304-312 | after the `memmove`, decoding the kept bytes plus new ones from 0 is decoding the uncompacted buffer from the old stop: same events and tracker, stop moved back by the consumed count |
| Console.ReadInputShape | src/cgt_linux.cpp:290-313 | the buffer stays below 4096 bytes; an overflow keeps none of the old or new bytes and queues nothing; otherwise the old bytes are followed by the new, and what remains is a suffix of them that is empty or starts with an incomplete token |
| Console.AdmittedFits | src/cgt_linux.cpp:294-301 | a read that fits below 4096 bytes is appended whole to the buffered bytes |
| Console.ReadInputTwice | src/cgt_linux.cpp:290-313 | two reads in a row, with no overflow, leave the buffer and tracker of one read of both chunks and queue its events in the same order, so a token split across reads decodes as if it had arrived at once |
| Console.TwiceTail | src/cgt_linux.cpp:305-311 | the bytes kept after two compactions are the bytes kept after one |
| Console.FirstOf | src/cgt_linux.cpp:322-338 | the index of the first event of a kind, with none of that kind before it |
| Console.OfKindAppend | src/cgt_linux.cpp:322-341 | the events of one kind of a concatenation |
| Console.TakeFirst | src/cgt_linux.cpp:322-341 | removing the first event of one kind removes the head of that kind and leaves the other kind as it was |
| Console.TakeAt | src/cgt_linux.cpp:322-341 | the same at the index `FirstOf` finds |
| Console.OfKindSplit | src/cgt_linux.cpp:322-341 | the events of one kind of a queue split around one event |
| Console.TakeFirstOther | src/cgt_linux.cpp:322-341 | removing an event of one kind leaves the events of the other kind, in order, as they were |
| Console.CursorReplyRoundTrip | src/cgt_linux.cpp:384-389 | a cursor reply `ESC[row;colR` at the end of what was read is read back as (col-1, row-1) |
| Console.ReplyBracket | src/cgt_linux.cpp:385 | the reply's '[' is the last one |
| Console.ReplyNumbers | src/cgt_linux.cpp:386 | the two `%d` conversions read the reply's row and column |
| Console.ReplyPieces | src/cgt_linux.cpp:384-386 | in a reply after any prefix, the row digits, the ';', the column digits and a non-digit after them sit where `%d;%d` reads them |
| Console.CursorReplyOf | src/cgt_linux.cpp:385-386 | the reply is read from the last '[' |
| Console.ReplyFieldsAt | src/cgt_linux.cpp:386 | `%d;%d` reads back two numbers `printf` wrote |
| Console.ReplyFieldsOf | src/cgt_linux.cpp:386-387 | two successful conversions around a ';' give the 0-indexed cell |
| Console.ReportLayout | src/cgt_linux.cpp:384-386 | where the reply's pieces sit after any prefix |
| Console.ReplyLayout | src/cgt_linux.cpp:384-386 | where the reply's pieces sit within it |
| Console.FirstOfAt | src/cgt_linux.cpp:322-323 | the first index of a kind is what `FirstOf` returns |
| Console.Session.constructor | src/cgt_linux.cpp:46-72 | the statics start empty, with the cache unknown and the tracker unset |
| Console.Session.FastParseInt | src/cgt_linux.cpp:83-90 | the digit loop computes the field `ParseInt` specifies |
| Console.Session.ScanFor | src/cgt_linux.cpp:205-273 | the terminator loops find the first stopping byte |
| Console.Session.ClassifyReport | src/cgt_linux.cpp:219-265 | the classification branch yields the event `Classify` specifies and updates the tracker to match |
| Console.Session.ParseStep | src/cgt_linux.cpp:194-285 | one pass of the loop returns `Step` and queues exactly its events |
| Console.Session.ParseReport | src/cgt_linux.cpp:201-268 | the report branch returns `ReportStep` and queues its event |
| Console.Session.ReportFields | src/cgt_linux.cpp:208-212 | the three `fast_parse_int` calls read `SgrFields` |
| Console.Session.SkipOther | src/cgt_linux.cpp:271-276 | the other-CSI branch returns `SkipCsi` |
| Console.Session.ParseInput | src/cgt_linux.cpp:192-288 | `__cgt_parse_input` returns the stop index of `Decode` and appends exactly its events |
| Console.Session.ReadInputToBuffer | src/cgt_linux.cpp:290-313 | a read leaves the buffer, the queue and the tracker `ReadInput` specifies |
| Console.Session.Admit | src/cgt_linux.cpp:294-301 | the `memcpy` or the overflow reset |
| Console.Session.Compact | src/cgt_linux.cpp:305-312 | the `memmove` keeps exactly the unconsumed suffix |
| Console.Session.HasMouse | src/cgt_linux.cpp:315-319 | read, then true exactly when a mouse event is queued |
| Console.Session.HasKey | src/cgt_linux.cpp:330-334 | read, then true exactly when a key event is queued |
| Console.Session.HasKind | src/cgt_linux.cpp:317-332 | the queue scan is true exactly when an event of the kind exists |
| Console.Session.GetMouse | src/cgt_linux.cpp:321-328 | the first mouse event is removed; the keys and their order are untouched |
| Console.Session.GetKey | src/cgt_linux.cpp:336-342 | the first key event is removed; the mouse events are untouched |
| Console.Session.TakeKind | src/cgt_linux.cpp:322-341 | the first event of the kind, at the index `FirstOf` finds, is removed and returned; the events of the other kind keep their order; with none of the kind the queue is unchanged |
| Console.Session.SetColor | src/cgt_linux.cpp:346-353 | the cache and the output are those `Render.SetColor` gives |
| Console.Session.ResetColor | src/cgt_linux.cpp:355-358 | as `Render.ResetColor` |
| Console.Session.ClearScreen | src/cgt_linux.cpp:181-188 | as `Render.ClearScreen` |
| Console.Session.GotoXY | src/cgt_linux.cpp:392-405 | as `Render.GotoXY` |
| Console.Session.Emit | src/cgt_linux.cpp:412-429 | the text is logged and the known column advances by its length |
| Console.Session.Print | src/cgt_linux.cpp:409-431 | colour, move, write and advance, as `Render.Print` |
| Console.Session.PrintStr | src/cgt_linux.cpp:409-415 | the C string is printed and its `strlen` added to the column |
| Console.Session.PrintChar | src/cgt_linux.cpp:417-423 | one byte, one column |
| Console.Session.PrintInt | src/cgt_linux.cpp:425-431 | the `%d` text, and the column advances by its length |
| Console.Session.GetXY | src/cgt_linux.cpp:360-390 | a DSR request is logged; when the reply parses, the cursor cache becomes the 0-indexed cell it names; otherwise nothing changes |
| Render.AnsiFg | src/cgt_linux.cpp:99-111 | foreground codes are 30-37 or 90-97; unknown colours give 37 |
| Render.AnsiBg | src/cgt_linux.cpp:113-125 | background codes are 40-47 or 100-107; unknown colours give 40 |
| Render.AnsiTables | src/cgt_linux.cpp:99-125 | a named colour's background code is its foreground code plus 10; the low eight use the normal range; no two colours share a code |
| Render.RunAppend | src/cgt_linux.cpp:409-431 | output written in two pieces shows what it shows written at once |
| Render.FreshTracked | src/cgt_linux.cpp:46-49 | the initial cache, all unknown, describes a terminal nothing was written to |
| Render.SetColorSound | src/cgt_linux.cpp:346-353 | `cgt_set_color` writes nothing only when the terminal already shows that pair; it writes one SGR otherwise; the cache stays true, so a repeated call writes nothing |
| Render.ApplyOne | src/cgt_linux.cpp:409-431 | one more token acts on the screen the log shows |
| Render.ResetColorSound | src/cgt_linux.cpp:355-358 | after a reset the colour pair is unknown (-1, -1) and the cache stays true |
| Render.ClearScreenSound | src/cgt_linux.cpp:181-188 | after a clear the colours are unknown, the cursor is (0, 0), and the cache is true |
| Render.GotoXYSound | src/cgt_linux.cpp:392-405 | -1 resolves to the cached coordinate or 0; nothing is written when the target is the cached cell; otherwise one 1-indexed CUP is written and the cache holds the target |
| Render.PrintSound | src/cgt_linux.cpp:409-431 | the print functions keep the cache true, and at a known column it moves by the printed length |
| Render.TextSound | src/cgt_linux.cpp:413-429 | text advances only a known column, and the cache stays true |
| Scan.ScanInt | cgt_linux.cpp:235 | a `%d` conversion that matches ends on a digit and is followed by no digit |
| Scan.DigitsAtValue | cgt_linux.cpp:235 | the conversion's accumulated value is the decimal value of the digits |
| Scan.ScanIntDecimal | cgt_linux.cpp:465-468 | `%d` reads back what `printf("%d")` wrote |
| Scan.ScanAt | cgt_linux.cpp:235 | the conversion over a sign and a digit run |
| Scan.DigitRun | cgt_linux.cpp:235 | a digit string not followed by a digit is one digit run |
| Scan.LastIndex | cgt_linux.cpp:442 | `strrchr` gives the last occurrence, or none when there is none |
| Scan.LastBelow | cgt_linux.cpp:442 | the last occurrence among the first n bytes |
| Scan.LastIndexAt | cgt_linux.cpp:442 | an occurrence with none after it is the one `strrchr` finds |
| Scan.LastBelowAt | cgt_linux.cpp:442 | the same among the first n bytes |
| LegacyDecoder.Classify | cgt_linux.cpp:236-274 | a scanned report always gives a mouse event |
| LegacyDecoder.Step | cgt_linux.cpp:212-313 | one pass of the loop as written: it waits, or moves forward (or stays, at a stray ESC) and queues at most one event |
| LegacyDecoder.ReportStep | cgt_linux.cpp:223-283 | a report that completes is consumed through its 'M'/'m' whether or not it scans, with at most one event |
| LegacyDecoder.SkipCsi | cgt_linux.cpp:285-296 | any other CSI is skipped through its first letter or '~' with no event |
| LegacyDecoder.FixedStep | cgt_linux.cpp:298-301 | the corrected pass always moves forward |
| LegacyDecoder.Decode | cgt_linux.cpp:210-315 | the corrected loop returns an index within the buffer |
| LegacyDecoder.StrayEscapeStalls | cgt_linux.cpp:298-301 | as written, ESC followed by a byte other than '[' leaves the index where it is and queues nothing |
| LegacyDecoder.AltKeyStalls | cgt_linux.cpp:298-301 | ESC then 'a' (Alt+a) is such an input |
| LegacyDecoder.FixedStepAgrees | cgt_linux.cpp:212-313 | away from a stray ESC the corrected pass is the pass as written, and it moves forward |
| LegacyDecoder.DecodeStrayEscape | cgt_linux.cpp:298-301 | with the correction a stray ESC is dropped and the next byte is decoded normally |
| LegacyDecoder.DecodeStep | cgt_linux.cpp:212-313 | after a complete token the events of the rest follow that token's events |
| LegacyDecoder.WaitCases | cgt_linux.cpp:215-292 | the loop returns early exactly for a lone ESC, a lone `ESC[`, a report with no 'M'/'m', or a CSI with no letter or '~' |
| LegacyDecoder.DecodeStopsAtWait | cgt_linux.cpp:210-315 | decoding stops only at the end or at a token that must wait |
| LegacyDecoder.DecodeKey | cgt_linux.cpp:302-312 | a non-ESC byte is one key event, CR delivered as LF, advancing by one |
| LegacyDecoder.StepIsReport | cgt_linux.cpp:217-223 | `ESC [ <` is handed to the report reader |
| LegacyDecoder.DecodeScanFailure | cgt_linux.cpp:280-282 | a report that does not scan is skipped through its terminator with no event |
| LegacyDecoder.ScanDigits | cgt_linux.cpp:235 | `%d` over a digit string followed by a non-digit |
| LegacyDecoder.ScanReportOf | cgt_linux.cpp:235 | three matching conversions and a non-NUL byte make the scan return 4 |
| LegacyDecoder.WireFields | cgt_linux.cpp:235 | the conversions over a laid-out report read its digit strings |
| LegacyDecoder.ScanWire | cgt_linux.cpp:235 | the scan of a laid-out report gives its numbers and final byte |
| LegacyDecoder.ReportStepAt | cgt_linux.cpp:223-279 | a laid-out report is one step through its final byte with one event |
| LegacyDecoder.WireIsStep | cgt_linux.cpp:223-279 | the same after any prefix |
| LegacyDecoder.ReportIsStep | cgt_linux.cpp:223-279 | the same for the report of three naturals as a terminal writes it |
| LegacyDecoder.DecodeReport | cgt_linux.cpp:232-278 | a complete report yields exactly one mouse event at (x-1, y-1), and decoding goes on past its terminator |
| LegacyDecoder.LeftClickExample | cgt_linux.cpp:235-278 | `ESC[<0;11;6M` is a left click at (10, 5) |
| LegacyDecoder.ClassifyTable | cgt_linux.cpp:241-274 | 'M' with 32-34 is Move with the mapped button; 3 is Release; 0-2 is Click, never DoubleClick; other 'M' is Move with button 0; 'm' is Move for b>=32, else Release; any other `%c` byte leaves the event unset |
| LegacyConsole.Reparse | cgt_linux.cpp:483-499 | a parse keeps, as a C string, no more bytes than it was given |
| LegacyConsole.ReadInputShape | cgt_linux.cpp:331-347 | after a read the partial buffer holds exactly the unconsumed suffix of the old string plus the new bytes, NUL-terminated |
| LegacyConsole.ScanBack | cgt_linux.cpp:462-466 | the backward scan stops at the byte sought or at index 0, passing only other bytes |
| LegacyConsole.Locate | cgt_linux.cpp:451-478 | a found report lies within the collected bytes |
| LegacyConsole.AtSemicolon | cgt_linux.cpp:464-477 | a report found after the ';' ends just past the last 'R' |
| LegacyConsole.AtBracket | cgt_linux.cpp:466-474 | a report found at the '[' starts at the ESC before it |
| LegacyConsole.Refeed | cgt_linux.cpp:481-501 | the re-fed leftover is a C string no longer than the collected bytes |
| LegacyConsole.ScanBackSkip | cgt_linux.cpp:462-466 | a backward scan passes over bytes that are not the one sought |
| LegacyConsole.LocateLayout | cgt_linux.cpp:451-478 | a cursor reply laid out in the bytes is found, at its ESC, naming (col-1, row-1) |
| LegacyConsole.LayoutBacks | cgt_linux.cpp:442-466 | the last 'R', the ';' and the '[' the scans find in such a layout |
| LegacyConsole.LayoutCol | cgt_linux.cpp:465 | the column conversion reads the column |
| LegacyConsole.LayoutRow | cgt_linux.cpp:468 | the row conversion reads the row |
| LegacyConsole.LayoutFound | cgt_linux.cpp:457-474 | the search assembles what its scans read |
| LegacyConsole.LocateOf | cgt_linux.cpp:457-464 | the first stage of the search |
| LegacyConsole.AtSemicolonOf | cgt_linux.cpp:464-467 | the second stage of the search |
| LegacyConsole.ReplyAt | cgt_linux.cpp:457-474 | where a reply's pieces sit after any prefix |
| LegacyConsole.LaidOutExtend | cgt_linux.cpp:442 | bytes with no 'R' after a reply keep it the last one |
| LegacyConsole.LocateRoundTrip | cgt_linux.cpp:451-478 | a reply followed by bytes with no 'R' is found, whatever came before it, with x = col-1 and y = row-1 |
| LegacyConsole.ReplyNoNul | cgt_linux.cpp:418-437 | a reply between two C strings leaves a C string |
| LegacyConsole.RefeedAround | cgt_linux.cpp:481-493 | around a report, the bytes after it are parsed and queued before the bytes before it |
| LegacyConsole.RefeedSplit | cgt_linux.cpp:481-493 | the leftover of the bytes after the report comes before the leftover of the bytes before it |
| LegacyConsole.RefeedFound | cgt_linux.cpp:481-493 | the re-feed when the report was found |
| LegacyConsole.ReparseEmpty | cgt_linux.cpp:482-488 | nothing to parse leaves nothing |
| LegacyConsole.RefeedNoReport | cgt_linux.cpp:494-501 | with no 'R', every byte collected is parsed, and x and y stay 0 |
| LegacyConsole.ReparseKey | cgt_linux.cpp:302-312 | a plain byte parses to one key and leaves nothing |
| LegacyConsole.RefeedOrderExample | cgt_linux.cpp:481-493 | 'a' before and 'b' after a reply are queued 'b' then 'a' |
| LegacyConsole.ScanFor | cgt_linux.cpp:226-290 | the forward scans find the first stopping byte |
| LegacyConsole.CStrLen | cgt_linux.cpp:336 | `strlen` is the length of the C string |
| LegacyConsole.ScanBackFor | cgt_linux.cpp:462-466 | the backward loop computes `ScanBack` |
| LegacyConsole.FindReport | cgt_linux.cpp:457-478 | the backward walk over the buffer finds what `Locate` specifies |
| LegacyConsole.FindLast | cgt_linux.cpp:442 | `strrchr` |
| LegacyConsole.FindColumn | cgt_linux.cpp:464-477 | the search after the ';' |
| LegacyConsole.FindBracket | cgt_linux.cpp:466-474 | the search after the '[' |
| LegacyConsole.LegacySession.constructor | cgt_linux.cpp:31-50 | an empty partial string and an empty queue |
| LegacyConsole.LegacySession.ParseStep | cgt_linux.cpp:212-313 | one corrected pass, queueing exactly its events |
| LegacyConsole.LegacySession.ParseReport | cgt_linux.cpp:223-283 | the report branch, queueing exactly its event |
| LegacyConsole.LegacySession.ParseInput | cgt_linux.cpp:210-315 | the corrected `__cgt_parse_input` returns `Decode`'s stop index and appends its events |
| LegacyConsole.LegacySession.Strlen | cgt_linux.cpp:336 | `strlen` of the partial buffer |
| LegacyConsole.LegacySession.AppendC | cgt_linux.cpp:332 | `strcat` appends the C string of its source |
| LegacyConsole.LegacySession.ReadInputToBuffer | cgt_linux.cpp:321-348 | a read leaves the partial string and queue that `ReadInput` specifies |
| LegacyConsole.LegacySession.ParsePartial | cgt_linux.cpp:336-347 | the whole partial string parsed, the leftover kept |
| LegacyConsole.LegacySession.Keep | cgt_linux.cpp:341-347 | the `memmove` keeps exactly the unconsumed suffix, NUL-terminated |
| LegacyConsole.LegacySession.GetXY | cgt_linux.cpp:413-502 | the partial string plus the bytes read are searched; x, y are the report's cell or 0; the queue and partial string are those `Refeed` gives |
| LegacyConsole.LegacySession.FeedReport | cgt_linux.cpp:481-493 | the re-feed around a found report |
| LegacyConsole.LegacySession.FeedAround | cgt_linux.cpp:482-493 | the bytes after the report first, then those before it |
| LegacyConsole.LegacySession.FeedRest | cgt_linux.cpp:495-500 | a parse of non-empty bytes and its leftover appended |
| LegacyConsole.LegacySession.FeedAll | cgt_linux.cpp:494-501 | with no report, everything collected is parsed |
| LegacyConsole.LegacySession.Collect | cgt_linux.cpp:418-437 | the local buffer holds the partial string then the bytes read, NUL-terminated, and the partial string is emptied |
| Events.ButtonOf | src/cgt_linux.cpp:222-260 | codes 0, 1, 2 name a button; every other code is button 0 |
| Events.KeyOf | src/cgt_linux.cpp:282 | CR is delivered as LF; every other byte as itself |
| Bytes.DigitsValueSnoc | src/cgt_linux.cpp:86 | one more digit multiplies by ten and adds it |
| Bytes.UpToNul | cgt_linux.cpp:336 | the C string of a byte array is its prefix up to the first NUL |
| Bytes.Decimal | src/cgt_linux.cpp:428 | `printf("%d")` writes the digits of the absolute value after an optional minus |
| Bytes.FirstFrom | src/cgt_linux.cpp:205-273 | a forward scan stops at the first stopping byte, or at the end |
| Bytes.FirstFromExtend | src/cgt_linux.cpp:205-273 | a scan that stops inside a buffer stops at the same place in any extension |
| MineGrid.CountsMine | game.cpp:38-52 | a cell adds 1 to a count exactly when it is '*' |
| MineGrid.Around | game.cpp:47-54 | a count over k neighbours is at most k |
| MineGrid.AroundNext | game.cpp:47-54 | one more iteration of the nested offset loops adds that neighbour's match when it is on the board |
| MineGrid.AroundZero | game.cpp:47-54 | a count is 0 exactly when each term is |
| MineGrid.AroundBelow | game.cpp:47-54 | a board that matches no more often counts no more |
| MineGrid.AroundCentre | game.cpp:47-54 | counting with the centre adds the centre's own match |
| MineGrid.AdjacentBound | game.cpp:42-56 | a non-mine cell gets a count in 0..8, which is never '*' |
| MineGrid.AdjacentZero | game.cpp:42-56 | a count of 0 means no neighbour on the board is a mine |
| MineGrid.AdjacentSameMines | game.cpp:88-92 | boards with the mines in the same cells give every cell the same count |
| MineGrid.TallySet | game.cpp:145-148 | changing one cell changes a board count by that cell's own change |
| MineGrid.TallyBelow | game.cpp:140-181 | a board that matches cell by cell no more often counts no more |
| MineGrid.ZerosTally | game.cpp:59-63 | the cleared board has rows*cols free cells, no mine and no flag |
| MineGrid.Seek | game.cpp:69-85 | the free cell of rank k in row-major order exists and is free |
| MineGrid.RankOrder | game.cpp:69-85 | a free cell ranks below every later cell |
| MineGrid.RankUnique | game.cpp:69-85 | two free cells of the same rank are the same cell |
| MineGrid.PlaceTally | game.cpp:65-86 | one selection round turns exactly one free cell into a mine |
| MineGrid.Mined | game.cpp:58-86 | after the selection loop the board has exactly one mine per pick |
| MineGrid.NumberedIsConsistent | game.cpp:88-92 | the in-place numbering keeps the mines and leaves every non-mine cell holding its neighbour count in 0..8 |
| MineGrid.UncoversBelow | game.cpp:145-148 | revealing never hides a cell again, so no more cells stay hidden |
| MineGrid.UncoversTrans | game.cpp:140-181 | revealing composes |
| MineGrid.FloodsTrans | game.cpp:171-181 | flood steps compose |
| MineGrid.FloodsAround | game.cpp:171-181 | a zero cell revealed together with all its neighbours closes the flood |
| MineGrid.RevealOne | game.cpp:147-156 | revealing one nonzero cell is a flood step |
| MineGrid.NumberedStep | game.cpp:88-92 | numbering one cell in place, counting on the partly numbered board, gives the count of the mined board |
| MineGrid.AllShown | game.cpp:173-180 | when the eight neighbours are off the board or revealed, none is hidden |
| MineGrid.ReachedOne | game.cpp:147-156 | revealing the start cell alone changes only the start |
| MineGrid.ReachedThen | game.cpp:173-180 | flood bounds compose: after a step bounded by offsets lo..hi of the block around (r, c), a flood started in the wider block lo..hi2, or next to a zero opened on the way, stays within lo..hi2 |
| MineGrid.ZeroHasNoMineNear | game.cpp:171-180 | on a consistent board no neighbour of a hidden zero is a mine |
| MineGrid.FloodSparesMines | game.cpp:140-181 | a flood from a non-mine cell of a consistent board reveals no mine |
| MineGrid.MinesHiddenTrans | game.cpp:140-181 | two reveals that each leave the mines hidden leave them hidden together |
| MineGrid.HiddenFromLayout | game.cpp:140-181 | a board that keeps every mine of the layout hidden keeps hidden every mine of any board uncovered from the layout |
| MineGrid.FlaggedSet | game.cpp:453-479 | changing one mark changes the flagged-mine count by that cell's own change |
| MineGrid.FlaggedAll | game.cpp:494 | the flagged mines never outnumber the mines, and equal them exactly when every mine is flagged |
| MineGrid.FlaggedNone | game.cpp:519 | with no mark set, no mine is flagged |
| MineGrid.SameMinesTally | game.cpp:88-92 | numbering keeps the number of mines |
| MineGame.ScreenRoundTrip | game.cpp:217-218 | cell (r, c) drawn at (5+4c, 5+3r) maps back to (r, c) under truncating division |
| MineGame.AlignedScreen | game.cpp:141-142 | a cell centre is the screen position of the cell it maps to |
| MineGame.ScreenStep | game.cpp:173-180 | from a centre, ±4 columns and ±3 lines is the centre of the neighbouring cell, -1 at the edge included |
| MineGame.SideLandings | game.cpp:173-176 | the first four recursive calls land on the left, right, upper and lower neighbours |
| MineGame.CornerLandings | game.cpp:177-180 | the last four land on the corners |
| MineGame.TruncatesTowardZero | game.cpp:141-142 | C division truncates: x = 4 maps to column 0, not -1 |
| MineGame.Level | game.cpp:102-116 | modes 1, 2, 3 give (6,6,6), (9,16,20), (12,30,80); any other mode gives none |
| MineGame.ProgressStep | game.cpp:173-180 | each recursive call keeps the flood invariant and shows one more neighbour |
| MineGame.ProgressEnd | game.cpp:171-181 | after the eight calls the zero cell is revealed, all its neighbours are shown, the whole is a flood step, and every changed cell is the start or a neighbour of an opened zero |
| MineGame.ProgressReach | game.cpp:173-180 | a recursive call on a neighbour of the opened zero only changes cells the flood from the start reaches |
| MineGame.FirstHit | game.cpp:208-234 | the first offset, in loop order, whose neighbour is an unflagged on-board mine, or 9 when there is none; no offset before it is one |
| MineGame.FirstHitFound | game.cpp:208-234 | the loop meets a mine exactly when some unflagged on-board neighbour is one |
| MineGame.FirstHitNext | game.cpp:208-234 | one offset of the search: a mine there is the first hit, otherwise the search goes on |
| MineGame.Skipped | game.cpp:210-215 | the centre, an off-board, a flagged or a revealed neighbour is no hit and keeps the loop's progress |
| MineGame.OpenedNeighbour | game.cpp:229-231 | revealing a non-mine neighbour by flood keeps the loop's progress |
| MineGame.EightShown | game.cpp:173-180 | eight neighbours shown means none hidden |
| MineGame.AroundLe | game.cpp:193-205 | termwise smaller counts sum to no more |
| MineGame.AroundTight | game.cpp:193-207 | termwise smaller counts with equal sums are equal term by term |
| MineGame.ChordSafe | game.cpp:207-228 | when every flag sits on a mine and the flags around a number equal it, no unflagged neighbour is a mine, so a chord cannot lose |
| MineGame.UnflaggedClear | game.cpp:207-220 | an unflagged neighbour of such a cell holds no mine |
| MineGame.TermAt | game.cpp:194-199 | neighbour (nr, nc) is iteration 3(nr-r+1)+(nc-c+1) of the offset loops |
| MineGame.StillCovered | game.cpp:215-220 | a cell still hidden holds what it held before any reveal |
| MineGame.ClearedStays | game.cpp:207-235 | later reveals keep the chord's earlier work |
| MineGame.ClearedNext | game.cpp:210-215 | the centre, an off-board, a flagged or a revealed neighbour needs nothing |
| MineGame.Game.constructor | game.cpp:97-100 | the globals start at 0 with an empty board |
| MineGame.Game.Mode | game.cpp:102-116 | modes 1-3 set the size and mine count of `Level`; any other mode changes nothing |
| MineGame.Game.InitializeGame | game.cpp:118-127 | a fresh board of the chosen size, mined by the picks and numbered |
| MineGame.Game.Start | game.cpp:510-543 | a chosen mode gives a game in play of that size, with win target 6, 20 or 80, no marks and no flag counted; the board is the picks' mines numbered, so every non-mine cell holds its neighbour count |
| MineGame.Game.Setup | game.cpp:511-519 | the board is generated from the picks and numbered consistently, the marks cleared, and play begins |
| MineGame.Game.MinesPlaced | game.cpp:58-93 | the generated board holds one mine per pick and every non-mine cell holds its neighbour count |
| MineGame.Game.BeginPlay | game.cpp:368-377 | the marks and flag counter start at 0, and the win target is the mine count |
| MineGame.Game.NewMarks | game.cpp:519 | the player's marks start all zero |
| MineGame.Game.GenerateMines | game.cpp:58-93 | clear, one selection round per pick, then number: the board is `Mined` numbered |
| MineGame.Game.ClearBoard | game.cpp:59-63 | every cell is set to 0 |
| MineGame.Game.PlaceMine | game.cpp:66-85 | one selection round turns the free cell of rank mineIdx, row-major, into '*' and leaves the rest |
| MineGame.Game.UpdateAdjacentCount | game.cpp:42-56 | a mine cell is unchanged; any other cell gets the number of mines in its in-bounds 3x3 neighbourhood, and nothing else changes |
| MineGame.Game.CountMines | game.cpp:46-54 | the counting loops compute that neighbour count |
| MineGame.Game.NumberBoard | game.cpp:88-92 | every cell numbered in row-major order, in place |
| MineGame.Game.AutoSwitch | game.cpp:140-182 | off the board or on a revealed cell nothing changes; otherwise the cell's v becomes -(v+1), a nonzero cell changes alone, and a zero cell floods so that every zero it reveals has all neighbours revealed, and every cell that changes is the start cell or a neighbour of a zero it opened |
| MineGame.Game.SpreadAcross | game.cpp:173-174 | the left and right recursive calls |
| MineGame.Game.SpreadAlong | game.cpp:175-176 | the upper and lower recursive calls |
| MineGame.Game.SpreadAbove | game.cpp:177-178 | the two upper corners |
| MineGame.Game.SpreadBelow | game.cpp:179-180 | the two lower corners |
| MineGame.Game.Visit | game.cpp:173-180 | one recursive call on neighbour n |
| MineGame.Game.CountFlags | game.cpp:193-205 | the first loop counts the flags on the eight neighbours |
| MineGame.Game.TryChord | game.cpp:184-237 | false and no change off the board, on a hidden number, or when the flags around the number do not equal it; when they do, true exactly when some unflagged on-board neighbour holds a mine; every changed cell is a neighbour before the first such mine in row-major order or a neighbour of a zero the chord opened; when false, every unflagged on-board neighbour is revealed, by flood, and no mine is ever revealed |
| MineGame.Game.ChordReveal | game.cpp:208-234 | the second loop reveals unflagged neighbours in row-major order, stops on the first mine and returns true exactly when there is one; the cells it changes are reached from the neighbours before that mine |
| MineGame.Game.ChordRow | game.cpp:209-233 | one row of offsets of that loop: on a hit the first hit lies in the offsets done so far; otherwise the progress invariant moves to the next row |
| MineGame.Game.ChordCell | game.cpp:210-231 | one offset of that loop: a hit exactly when that neighbour is an unflagged on-board mine, with the board unchanged and that offset the first hit; otherwise the loop's progress invariant moves to the next offset |
| MineGame.Game.ChordOpen | game.cpp:217-231 | a hidden unflagged neighbour: a hit exactly when it is '*', leaving the board alone; otherwise it is revealed through `AutoSwitch` and the loop moves on |
| MineGame.Game.RevealCell | game.cpp:217-230 | the reveal of one non-mine neighbour through its screen centre: the neighbour is shown, only cells reached from it change, and no mine is revealed |
| MineGame.Game.Reveals | game.cpp:140-181 | a flood from a non-mine cell of a consistent board leaves every mine hidden |
| MineGame.Game.LeftClick | game.cpp:424-445 | lost exactly on a mine, with the board unchanged; otherwise the cell is revealed by flood, only the cell, its neighbours and neighbours of opened zeros change, and no mine is revealed |
| MineGame.Game.RightClick | game.cpp:446-481 | on an unflagged hidden cell: mark FLAG, one mine fewer left, flag counter up when it is a mine; on a flagged one, the exact reverse; on a revealed cell nothing changes |
| MineGame.Game.Remark | game.cpp:453-479 | changing one mark keeps the flag counter and mines-left equation of play |
| MineGame.Game.WonIffAllFlagged | game.cpp:494 | the win test `flag == winTarget` holds exactly when every mine is flagged |

## Left out

- Terminal set-up and tear-down are OS terminal I/O and are not modelled: termios raw mode, `cgt_init`/`cgt_close`, signal handlers, `select`, `usleep`, `fflush`.
- The bytes `read` returns, the `gettimeofday` clock and the polling loops of both `cgt_getxy` are parameters. The optimised `cgt_getxy` takes the bytes its loop collected. The older one takes the bytes read after the partial string. The clock is one `now` per parse call, so every click decoded in one call shares it.
- `printf`/`fputs`/`putchar` output is a log of tokens, one per escape sequence or piece of text. The bytes of the escape sequences themselves are not modelled.
- `cgt_print_double` is left out, because `%g` is floating point.
- The older file's `cgt_set_color`, `cgt_gotoxy` and print functions have no cache and only write. Only their input side is modelled. Its `cgt_gotoxy` calls `cgt_getxy`, which is modelled.
- C `int` overflow in `fast_parse_int`, `%d`, `mineCount--` and the click-time arithmetic is not modelled: integers are unbounded. It is undefined behaviour in C, and nothing in the game reaches it.
- The colour constants come from cgt.h, which is not part of this model. They are numbered 0..15 in the order the colour tables list them; only their distinctness matters.
- LegacyConsole.LegacySession.ReadInputToBuffer, AppendC, GetXY: `strcat` does not check the 256-byte bound, so these require that the result fits. An overflow is undefined behaviour.
- Read-only buffers handed to a parse are `seq` values, not array snapshots. The parse does not write them.
- LegacyConsole.Locate: an 'R' at index 0 makes the older `cgt_getxy` read one byte before its buffer. The model treats that case as "no report", which is also what the C code concludes when the byte it reads is not ';'.
- All cell painting in `AutoSwitch`, `TryChord` and the click handlers is display code and is left out: `UpdateHover`, `DrawBoard`, the `Mine_lines` art, the title and timer lines.
- The art-based coordinate-correction loop of `ProcessGameLoop` is left out. In its place MineGame.Game.LeftClick takes a cell centre on the board, and MineGame.Game.RightClick takes an on-board cell.
- `randomInt`, `rand` and `srand` are replaced by the sequence of indices the selection loop receives. Each index is in range for its round.
- `userMine` is an `int*` indexed `r * cols + c`. Here it is a two-dimensional array indexed (r, c), which is the same cell for every in-bounds (r, c).
- MineGame.Game.AutoSwitch: the flood guarantee (every zero it reveals has all its neighbours revealed) and the bound on the cells it changes are stated for a cell-centre position, which is every position the game passes. For other positions only the reveal and termination are stated.
- MineGame.Game.AutoSwitch: the bound on changed cells says each is the start cell or next to a zero the call opened. It does not say that this zero is joined to the start by a path of opened zeros.
- MineGame.Game.TryChord: when a mine stops the chord, the bound says each changed cell is a neighbour before the first mine, in loop order, or next to a zero the chord opened. It does not say that the neighbours after the mine are unchanged, because the flood from an earlier neighbour can reveal them.
- `wait_for_enter`, `cleanupGame`, the main-loop polling, main.cpp's menu and include/game.h are UI and memory plumbing and are not modelled.
- The game-over and win screens after `TryChord` returns true or the win test holds are not modelled. The model stops at the test.

## Findings

| source | as written | input that shows it | evidently intended | confidence | as-written member | corrected member |
|---|---|---|---|---|---|---|
| cgt_linux.cpp:298-301 | an ESC followed by any byte but '[' falls through without advancing `i`, so `__cgt_parse_input` loops forever | the two bytes ESC 'a' (Alt+a), or ESC followed by any key | drop the ESC and decode the next byte, as src/cgt_linux.cpp:278 does | high (not executed) | LegacyDecoder.StrayEscapeStalls, LegacyDecoder.AltKeyStalls | LegacyDecoder.FixedStep, LegacyDecoder.DecodeStrayEscape |
