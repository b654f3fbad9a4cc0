/** The input decoder of the optimised terminal layer (src/cgt_linux.cpp,
    `__cgt_parse_input` and `fast_parse_int`) as functions on the buffered
    bytes and the loop index into them. `Decode` gives the index the parser
    returns, the events it appends to the queue and what the double-click
    tracker holds afterwards; the session's parsing loop is proved to compute
    exactly this. */
module SgrDecoder {
  import opened Bytes
  import opened Events

  /** DOUBLE_CLICK_THRESHOLD_MS */
  const DoubleClickMs: int := 400

  /** `_g_last_click_time`, `_g_last_click_x`, `_g_last_click_y`,
      `_g_last_click_btn`. */
  datatype ClickState = ClickState(time: int, x: int, y: int, button: int)

  /** The tracker's initial value (src/cgt_linux.cpp:52-55). */
  const NoClick: ClickState := ClickState(0, -1, -1, -1)

  /** The three numbers of an SGR mouse report. */
  datatype Fields = Fields(b: int, x: int, y: int)

  /** `fast_parse_int` from index k: the value of the digit run there and the
      index just past it (0 and k when there is no digit). */
  function ParseInt(s: seq<Byte>, k: nat): (f: Field)
    requires k <= |s|
    ensures k <= f.end <= |s| && (f.end < |s| ==> !IsDigit(s[f.end]))
    ensures f.end == k ==> f.value == 0
  {
    var e := FirstFrom(s, k, NonDigit);
    FirstFromPassed(s, k, NonDigit);
    DigitsBetween(s, k, e);
    Field(DigitsValue(s[k..e]), e)
  }

  /** The step over one ';' between two fields, when there is one there
      (src/cgt_linux.cpp:209). */
  function SkipSemicolon(s: seq<Byte>, k: nat): (k': nat)
    requires k <= |s|
    ensures k <= k' <= |s|
  {
    if k < |s| && s[k] == SEMICOLON then k + 1 else k
  }

  /** The three fields of an SGR report body starting at k: b, then x, then y,
      each optionally followed by one ';'. Missing digits read as 0. */
  function SgrFields(s: seq<Byte>, k: nat): Fields
    requires k <= |s|
  {
    var b := ParseInt(s, k);
    var x := ParseInt(s, SkipSemicolon(s, b.end));
    var y := ParseInt(s, SkipSemicolon(s, x.end));
    Fields(b.value, x.value, y.value)
  }

  /** The double-click test of src/cgt_linux.cpp:235-238 for a click with code
      b at the 0-indexed cell (x, y) observed at time `now`. */
  predicate IsDoubleClick(last: ClickState, b: int, x: int, y: int, now: int) {
    && b == last.button
    && -1 <= x - last.x <= 1
    && y == last.y
    && now - last.time < DoubleClickMs
  }

  datatype Classified = Classified(event: Event, clicks: ClickState)

  /** The event a complete report yields, and the tracker afterwards. The
      coordinates on the wire are 1-indexed. */
  function Classify(b: int, x: int, y: int, final: Byte, last: ClickState, now: int): Classified
  {
    if final == UPPER_M then
      if b >= 32 then Classified(Mouse(x - 1, y - 1, ButtonOf(b - 32), Move), last)
      else if b == 3 then Classified(Mouse(x - 1, y - 1, NoButton, Release), last)
      else if IsDoubleClick(last, b, x - 1, y - 1, now) then
        Classified(Mouse(x - 1, y - 1, ButtonOf(b), DoubleClick), last.(time := 0))
      else
        Classified(Mouse(x - 1, y - 1, ButtonOf(b), Click), ClickState(now, x - 1, y - 1, b))
    else
      Classified(Mouse(x - 1, y - 1, NoButton, if b >= 32 then Move else Release), last)
  }

  /** What one pass of the loop of `__cgt_parse_input` does with its index at
      i: stop there (`return i`), or move the index to `next` appending
      `events`. */
  datatype StepResult =
    | Incomplete
    | Consumed(next: nat, events: seq<Event>, clicks: ClickState)

  function Step(s: seq<Byte>, i: nat, last: ClickState, now: int): (r: StepResult)
    requires i < |s|
    ensures r.Consumed? ==> i < r.next <= |s| && |r.events| <= 1
  {
    if s[i] != ESC then Consumed(i + 1, [KeyOf(s[i])], last)
    else if i + 1 == |s| then Incomplete
    else if s[i + 1] != LBRACKET then Consumed(i + 1, [], last)
    else if i + 2 == |s| then Incomplete
    else if s[i + 2] == LESS then ReportStep(s, i, last, now)
    else SkipCsi(s, i, last)
  }

  /** `ESC [ <` at i: find the terminator, read the three fields, classify. */
  function ReportStep(s: seq<Byte>, i: nat, last: ClickState, now: int): (r: StepResult)
    requires i + 3 <= |s|
    ensures r.Consumed? ==> i + 4 <= r.next <= |s| && |r.events| == 1 && r.events[0].Mouse?
  {
    var p := FirstFrom(s, i + 3, MouseFinal);
    if p == |s| then Incomplete
    else
      var f := SgrFields(s, i + 3);
      var c := Classify(f.b, f.x, f.y, s[p], last, now);
      Consumed(p + 1, [c.event], c.clicks)
  }

  /** Any other `ESC [` at i: skip through the first final byte. */
  function SkipCsi(s: seq<Byte>, i: nat, last: ClickState): (r: StepResult)
    requires i + 3 <= |s|
    ensures r.Consumed? ==> i + 3 <= r.next <= |s| && r.events == [] && r.clicks == last
  {
    var j := FirstFrom(s, i + 2, CsiFinal);
    if j == |s| then Incomplete else Consumed(j + 1, [], last)
  }

  /** The index `__cgt_parse_input` returns, the events it queued and the
      tracker it leaves. */
  datatype Decoded = Decoded(stop: nat, events: seq<Event>, clicks: ClickState)

  /** The parser loop from index i: tokens are decoded until the input ends or
      an incomplete token remains. */
  function Decode(s: seq<Byte>, i: nat, last: ClickState, now: int): (r: Decoded)
    requires i <= |s|
    ensures i <= r.stop <= |s|
    decreases |s| - i
  {
    if i == |s| then Decoded(i, [], last)
    else match Step(s, i, last, now)
      case Incomplete => Decoded(i, [], last)
      case Consumed(j, evs, next) =>
        var rest := Decode(s, j, next, now);
        Decoded(rest.stop, evs + rest.events, rest.clicks)
  }

  // ---------------------------------------------------------------------
  // Where decoding stops

  /** One complete token at i: its events come first, then those of the rest
      of the input, decoded with the tracker the token left. */
  lemma {:induction false} DecodeStep(s: seq<Byte>, i: nat, last: ClickState, now: int,
                                      j: nat, evs: seq<Event>, next: ClickState)
    requires i < |s| && Step(s, i, last, now) == Consumed(j, evs, next)
    ensures var rest := Decode(s, j, next, now);
      Decode(s, i, last, now) == Decoded(rest.stop, evs + rest.events, rest.clicks)
  {
  }

  /** The token at i is incomplete exactly in the four waiting cases: a lone
      ESC, a lone `ESC [`, an SGR report with no 'M' or 'm' yet, and any other
      CSI with no final byte yet. */
  lemma {:induction false} IncompleteCases(s: seq<Byte>, i: nat, last: ClickState, now: int)
    requires i < |s|
    ensures Step(s, i, last, now).Incomplete? <==>
      && s[i] == ESC
      && (i + 1 == |s|
          || (&& s[i + 1] == LBRACKET
              && (i + 2 == |s|
                  || (s[i + 2] == LESS && forall t :: i + 3 <= t < |s| ==> !IsMouseFinal(s[t]))
                  || (s[i + 2] != LESS && forall t :: i + 2 <= t < |s| ==> !IsCsiFinal(s[t])))))
  {
    if s[i] == ESC && i + 2 < |s| && s[i + 1] == LBRACKET {
      if s[i + 2] == LESS {
        FirstFromPassed(s, i + 3, MouseFinal);
      } else {
        FirstFromPassed(s, i + 2, CsiFinal);
      }
    }
  }

  /** Decoding stops at the end of the input or at an incomplete token, and
      never inside a token it has consumed. */
  lemma {:induction false} DecodeStopsAtIncomplete(s: seq<Byte>, i: nat, last: ClickState, now: int)
    requires i <= |s|
    ensures var r := Decode(s, i, last, now);
      r.stop == |s| || Step(s, r.stop, r.clicks, now).Incomplete?
    decreases |s| - i
  {
    if i < |s| {
      match Step(s, i, last, now)
      case Incomplete =>
        assert Decode(s, i, last, now) == Decoded(i, [], last);
      case Consumed(j, evs, next) =>
        DecodeStep(s, i, last, now, j, evs, next);
        DecodeStopsAtIncomplete(s, j, next, now);
        var rest := Decode(s, j, next, now);
        var r := Decode(s, i, last, now);
        assert r.stop == rest.stop && r.clicks == rest.clicks;
    }
  }

  // ---------------------------------------------------------------------
  // Keys and escapes

  /** A byte other than ESC is one key event (CR read as LF) and decoding
      continues with the next byte. */
  lemma {:induction false} DecodeKey(s: seq<Byte>, i: nat, last: ClickState, now: int)
    requires i < |s| && s[i] != ESC
    ensures var rest := Decode(s, i + 1, last, now);
      Decode(s, i, last, now)
        == Decoded(rest.stop, [Key(if s[i] == CR then LF else s[i])] + rest.events, rest.clicks)
  {
    DecodeStep(s, i, last, now, i + 1, [KeyOf(s[i])], last);
  }

  /** An ESC followed by anything but '[' is dropped and the byte after it is
      decoded normally. */
  lemma {:induction false} DecodeBareEscape(s: seq<Byte>, i: nat, last: ClickState, now: int)
    requires i + 1 < |s| && s[i] == ESC && s[i + 1] != LBRACKET
    ensures Decode(s, i, last, now) == Decode(s, i + 1, last, now)
  {
    DecodeSkip(s, i, i + 1, last, now);
  }

  /** A plain text run (no ESC) is consumed completely, one key event per
      byte, in order. */
  lemma {:induction false} DecodeText(s: seq<Byte>, i: nat, last: ClickState, now: int)
    requires i <= |s| && forall k :: i <= k < |s| ==> s[k] != ESC
    ensures var r := Decode(s, i, last, now);
      && r.stop == |s| && |r.events| == |s| - i && r.clicks == last
      && forall k :: i <= k < |s| ==> r.events[k - i] == KeyOf(s[k])
    decreases |s| - i
  {
    if i < |s| {
      DecodeStep(s, i, last, now, i + 1, [KeyOf(s[i])], last);
      DecodeText(s, i + 1, last, now);
    }
  }

  /** Any other control sequence (`ESC [` then not '<') starts at i and has
      its first final byte at j. */
  predicate OtherCsiAt(s: seq<Byte>, i: nat, j: nat) {
    && i + 2 <= j < |s|
    && s[i] == ESC && s[i + 1] == LBRACKET && s[i + 2] != LESS
    && IsCsiFinal(s[j]) && forall t :: i + 2 <= t < j ==> !IsCsiFinal(s[t])
  }

  /** Such a sequence is consumed through its final byte and yields no
      event. */
  lemma {:induction false} DecodeOtherCsi(s: seq<Byte>, i: nat, j: nat, last: ClickState, now: int)
    requires OtherCsiAt(s, i, j)
    ensures Decode(s, i, last, now) == Decode(s, j + 1, last, now)
  {
    OtherCsiStep(s, i, j, last, now);
    DecodeStep(s, i, last, now, j + 1, [], last);
    AppendNil(Decode(s, j + 1, last, now).events);
  }

  lemma {:induction false} OtherCsiStep(s: seq<Byte>, i: nat, j: nat, last: ClickState, now: int)
    requires OtherCsiAt(s, i, j)
    ensures Step(s, i, last, now) == Consumed(j + 1, [], last)
  {
    FirstFromSkip(s, i + 2, j - (i + 2), CsiFinal);
  }

  /** A token that yields no event and leaves the tracker alone is invisible
      to decoding. */
  lemma {:induction false} DecodeSkip(s: seq<Byte>, i: nat, j: nat, last: ClickState, now: int)
    requires i < |s| && Step(s, i, last, now) == Consumed(j, [], last)
    ensures Decode(s, i, last, now) == Decode(s, j, last, now)
  {
    DecodeStep(s, i, last, now, j, [], last);
    AppendNil(Decode(s, j, last, now).events);
  }

  // ---------------------------------------------------------------------
  // SGR mouse reports

  /** A report as a terminal sends it in SGR (1006) extended mouse mode:
      `ESC [ < b ; x ; y M` or `... m`, the numbers in decimal. */
  function Report(b: nat, x: nat, y: nat, final: Byte): seq<Byte>
  {
    Wire(DecimalDigits(b), DecimalDigits(x), DecimalDigits(y), final)
  }

  /** The byte layout of a report around its three digit strings. */
  function Wire(db: seq<Byte>, dx: seq<Byte>, dy: seq<Byte>, final: Byte): seq<Byte>
  {
    [ESC, LBRACKET, LESS] + db + [SEMICOLON] + dx + [SEMICOLON] + dy + [final]
  }

  /** A report placed after any prefix sits at the prefix's length. */
  lemma {:induction false} WireLayout(pre: seq<Byte>, db: seq<Byte>, dx: seq<Byte>, dy: seq<Byte>,
                                      final: Byte, rest: seq<Byte>)
    requires IsMouseFinal(final)
    ensures |pre + Wire(db, dx, dy, final)| == |pre| + 3 + |db| + 1 + |dx| + 1 + |dy| + 1
    ensures ReportAt(pre + Wire(db, dx, dy, final) + rest, |pre|, db, dx, dy)
    ensures (pre + Wire(db, dx, dy, final) + rest)[|pre| + 3 + |db| + 1 + |dx| + 1 + |dy|] == final
  {
    var s := pre + Wire(db, dx, dy, final) + rest;
    var i := |pre|;
    var e1 := i + 3 + |db|;
    var e2 := e1 + 1 + |dx|;
    var e3 := e2 + 1 + |dy|;
    assert s[i + 3..e1] == db;
    assert s[e1 + 1..e2] == dx;
    assert s[e2 + 1..e3] == dy;
  }

  /** The bytes of a digit string sitting at k..e are digits. */
  lemma {:induction false} DigitsIn(s: seq<Byte>, k: nat, e: nat)
    requires k <= e <= |s| && AllDigits(s[k..e])
    ensures forall t :: k <= t < e ==> IsDigit(s[t])
  {
    AllDigitsIndex(s[k..e]);
    forall t | k <= t < e ensures IsDigit(s[t]) {
      assert s[t] == s[k..e][t - k];
    }
  }

  /** A field read from k over digits up to a non-digit at e stops at e and
      yields the value of those digits. */
  lemma {:induction false} ParseIntAt(s: seq<Byte>, k: nat, e: nat)
    requires k <= e < |s| && !IsDigit(s[e]) && AllDigits(s[k..e])
    ensures ParseInt(s, k) == Field(DigitsValue(s[k..e]), e)
  {
    DigitsIn(s, k, e);
    FirstFromSkip(s, k, e - k, NonDigit);
  }

  /** The fields of a report body whose digit runs end at e1, e2 and e3. */
  lemma {:induction false} BodyValues(s: seq<Byte>, k: nat, e1: nat, e2: nat, e3: nat)
    requires k <= e1 < e2 < e3 < |s|
    requires s[e1] == SEMICOLON && s[e2] == SEMICOLON && IsMouseFinal(s[e3])
    requires AllDigits(s[k..e1]) && AllDigits(s[e1 + 1..e2]) && AllDigits(s[e2 + 1..e3])
    ensures SgrFields(s, k)
      == Fields(DigitsValue(s[k..e1]), DigitsValue(s[e1 + 1..e2]), DigitsValue(s[e2 + 1..e3]))
  {
    ParseIntAt(s, k, e1);
    assert SkipSemicolon(s, e1) == e1 + 1;
    ParseIntAt(s, e1 + 1, e2);
    assert SkipSemicolon(s, e2) == e2 + 1;
    ParseIntAt(s, e2 + 1, e3);
  }

  /** The terminator search over a report body stops at its final byte. */
  lemma {:induction false} BodyEnd(s: seq<Byte>, k: nat, e1: nat, e2: nat, e3: nat)
    requires k <= e1 < e2 < e3 < |s|
    requires s[e1] == SEMICOLON && s[e2] == SEMICOLON && IsMouseFinal(s[e3])
    requires AllDigits(s[k..e1]) && AllDigits(s[e1 + 1..e2]) && AllDigits(s[e2 + 1..e3])
    ensures FirstFrom(s, k, MouseFinal) == e3
  {
    DigitsIn(s, k, e1);
    DigitsIn(s, e1 + 1, e2);
    DigitsIn(s, e2 + 1, e3);
    FirstFromSkip(s, k, e3 - k, MouseFinal);
  }

  /** A report whose digit strings are db, dx and dy starts at index i of s. */
  predicate ReportAt(s: seq<Byte>, i: nat, db: seq<Byte>, dx: seq<Byte>, dy: seq<Byte>)
  {
    var e1 := i + 3 + |db|;
    var e2 := e1 + 1 + |dx|;
    var e3 := e2 + 1 + |dy|;
    && e3 < |s|
    && s[i] == ESC && s[i + 1] == LBRACKET && s[i + 2] == LESS
    && s[i + 3..e1] == db && s[e1] == SEMICOLON
    && s[e1 + 1..e2] == dx && s[e2] == SEMICOLON
    && s[e2 + 1..e3] == dy && IsMouseFinal(s[e3])
  }

  /** A report at i whose digit strings are db, dx and dy is one step of the
      decoder that consumes it through its final byte. */
  lemma {:induction false} ReportStepAt(s: seq<Byte>, i: nat, db: seq<Byte>, dx: seq<Byte>, dy: seq<Byte>,
                                        last: ClickState, now: int)
    requires AllDigits(db) && AllDigits(dx) && AllDigits(dy) && ReportAt(s, i, db, dx, dy)
    ensures var e3 := i + 3 + |db| + 1 + |dx| + 1 + |dy|;
      var c := Classify(DigitsValue(db), DigitsValue(dx), DigitsValue(dy), s[e3], last, now);
      Step(s, i, last, now) == Consumed(e3 + 1, [c.event], c.clicks)
  {
    StepIsReport(s, i, last, now);
    ReportBody(s, i, db, dx, dy, last, now);
  }

  /** `ESC [ <` at i hands the token to the report reader. */
  lemma {:induction false} StepIsReport(s: seq<Byte>, i: nat, last: ClickState, now: int)
    requires i + 3 <= |s| && s[i] == ESC && s[i + 1] == LBRACKET && s[i + 2] == LESS
    ensures Step(s, i, last, now) == ReportStep(s, i, last, now)
  {
  }

  lemma {:induction false} ReportBody(s: seq<Byte>, i: nat, db: seq<Byte>, dx: seq<Byte>, dy: seq<Byte>,
                                      last: ClickState, now: int)
    requires AllDigits(db) && AllDigits(dx) && AllDigits(dy) && ReportAt(s, i, db, dx, dy)
    ensures var e3 := i + 3 + |db| + 1 + |dx| + 1 + |dy|;
      var c := Classify(DigitsValue(db), DigitsValue(dx), DigitsValue(dy), s[e3], last, now);
      ReportStep(s, i, last, now) == Consumed(e3 + 1, [c.event], c.clicks)
  {
    ReportEnd(s, i, db, dx, dy);
    ReportFields(s, i, db, dx, dy);
  }

  /** The terminator search of a report at i stops at its final byte. */
  lemma {:induction false} ReportEnd(s: seq<Byte>, i: nat, db: seq<Byte>, dx: seq<Byte>, dy: seq<Byte>)
    requires AllDigits(db) && AllDigits(dx) && AllDigits(dy) && ReportAt(s, i, db, dx, dy)
    ensures FirstFrom(s, i + 3, MouseFinal) == i + 3 + |db| + 1 + |dx| + 1 + |dy|
  {
    var e1 := i + 3 + |db|;
    var e2 := e1 + 1 + |dx|;
    var e3 := e2 + 1 + |dy|;
    BodyEnd(s, i + 3, e1, e2, e3);
  }

  /** The fields read from a report at i are the values of its digit strings. */
  lemma {:induction false} ReportFields(s: seq<Byte>, i: nat, db: seq<Byte>, dx: seq<Byte>, dy: seq<Byte>)
    requires AllDigits(db) && AllDigits(dx) && AllDigits(dy) && ReportAt(s, i, db, dx, dy)
    ensures SgrFields(s, i + 3) == Fields(DigitsValue(db), DigitsValue(dx), DigitsValue(dy))
  {
    var e1 := i + 3 + |db|;
    var e2 := e1 + 1 + |dx|;
    var e3 := e2 + 1 + |dy|;
    BodyValues(s, i + 3, e1, e2, e3);
  }

  /** A report with digit strings db, dx, dy after any prefix is one step of
      the decoder that consumes exactly the report. */
  lemma {:induction false} WireIsStep(pre: seq<Byte>, db: seq<Byte>, dx: seq<Byte>, dy: seq<Byte>,
                                      final: Byte, rest: seq<Byte>, last: ClickState, now: int)
    requires AllDigits(db) && AllDigits(dx) && AllDigits(dy) && IsMouseFinal(final)
    ensures var c := Classify(DigitsValue(db), DigitsValue(dx), DigitsValue(dy), final, last, now);
      Step(pre + Wire(db, dx, dy, final) + rest, |pre|, last, now)
        == Consumed(|pre + Wire(db, dx, dy, final)|, [c.event], c.clicks)
  {
    WireLayout(pre, db, dx, dy, final, rest);
    ReportStepAt(pre + Wire(db, dx, dy, final) + rest, |pre|, db, dx, dy, last, now);
  }

  /** A complete report after any prefix is one step of the decoder that
      consumes exactly the report. */
  lemma {:induction false} ReportIsStep(pre: seq<Byte>, b: nat, x: nat, y: nat, final: Byte,
                                        rest: seq<Byte>, last: ClickState, now: int)
    requires IsMouseFinal(final)
    ensures var c := Classify(b, x, y, final, last, now);
      Step(pre + Report(b, x, y, final) + rest, |pre|, last, now)
        == Consumed(|pre + Report(b, x, y, final)|, [c.event], c.clicks)
  {
    WireIsStep(pre, DecimalDigits(b), DecimalDigits(x), DecimalDigits(y), final, rest, last, now);
  }

  /** Every complete report yields exactly one mouse event at the 0-indexed
      cell (x-1, y-1), consumes the whole report, and decoding resumes right
      after its terminator. */
  lemma {:induction false} DecodeReport(pre: seq<Byte>, b: nat, x: nat, y: nat, final: Byte,
                                        rest: seq<Byte>, last: ClickState, now: int)
    requires IsMouseFinal(final)
    ensures var s := pre + Report(b, x, y, final) + rest;
      var c := Classify(b, x, y, final, last, now);
      var tail := Decode(s, |pre + Report(b, x, y, final)|, c.clicks, now);
      && c.event.Mouse? && c.event.x == x - 1 && c.event.y == y - 1
      && Decode(s, |pre|, last, now) == Decoded(tail.stop, [c.event] + tail.events, tail.clicks)
  {
    var c := Classify(b, x, y, final, last, now);
    ReportIsStep(pre, b, x, y, final, rest, last, now);
    DecodeStep(pre + Report(b, x, y, final) + rest, |pre|, last, now,
               |pre + Report(b, x, y, final)|, [c.event], c.clicks);
  }

  /** A left press at column 11, row 6 as xterm reports it, `ESC[<0;11;6M`,
      decoded by src/cgt_linux.cpp:200-267 on a fresh tracker: a left click
      at the 0-indexed cell (10, 5), consuming all ten bytes. */
  lemma {:induction false} LeftClickExample(now: int)
    ensures Decode(Report(0, 11, 6, UPPER_M), 0, NoClick, now)
      == Decoded(10, [Mouse(10, 5, Left, Click)], ClickState(now, 10, 5, 0))
  {
    var r := Report(0, 11, 6, UPPER_M);
    AppendNil(r);
    DecodeReport([], 0, 11, 6, UPPER_M, [], NoClick, now);
    assert |r| == 10;
  }

  // ---------------------------------------------------------------------
  // Classification of reports

  /** The classification table of src/cgt_linux.cpp:219-265. */
  lemma {:induction false} ClassifyTable(b: int, x: int, y: int, final: Byte, last: ClickState, now: int)
    requires IsMouseFinal(final)
    ensures var c := Classify(b, x, y, final, last, now);
      var ev, next := c.event, c.clicks;
      && ev.Mouse? && ev.x == x - 1 && ev.y == y - 1
      && (final == UPPER_M && b >= 32 ==> ev.action == Move && ev.button == ButtonOf(b - 32) && next == last)
      && (final == UPPER_M && b >= 64 ==> ev.button == NoButton)
      && (final == UPPER_M && b == 3 ==> ev.action == Release && ev.button == NoButton && next == last)
      && (final == UPPER_M && b < 32 && b != 3 ==>
            (ev.action == Click || ev.action == DoubleClick) && ev.button == ButtonOf(b))
      && (final == LOWER_M ==>
            ev.button == NoButton && next == last && ev.action == (if b >= 32 then Move else Release))
  {
  }

  /** A click is a DoubleClick exactly when it repeats the recorded button on
      the same row, at most one column away, less than 400 ms later. A double
      click zeroes the recorded time and keeps the rest; a single click
      records (now, x, y, b). */
  lemma {:induction false} DoubleClickRule(b: int, x: int, y: int, last: ClickState, now: int)
    requires b < 32 && b != 3
    ensures var c := Classify(b, x, y, UPPER_M, last, now);
      var ev, next := c.event, c.clicks;
      && (ev.action == DoubleClick <==>
            b == last.button && (x - 1 - last.x <= 1 && last.x - (x - 1) <= 1)
            && y - 1 == last.y && now - last.time < 400)
      && (ev.action == DoubleClick ==> next == ClickState(0, last.x, last.y, last.button))
      && (ev.action == Click ==> next == ClickState(now, x - 1, y - 1, b))
  {
  }

  /** Once the clock reads 400 ms or more, the click after a double click is
      never folded into another double click. */
  lemma {:induction false} NoTripleClick(b: int, x: int, y: int, last: ClickState, now: int, later: int)
    requires b < 32 && b != 3 && now >= DoubleClickMs && later >= now
    requires Classify(b, x, y, UPPER_M, last, now).event.action == DoubleClick
    ensures var next := Classify(b, x, y, UPPER_M, last, now).clicks;
      Classify(b, x, y, UPPER_M, next, later).event.action == Click
  {
  }

  /** Three identical left clicks decoded together after time 400: a click, a
      double click, then a fresh click. */
  lemma {:induction false} ThreeClicks(x: nat, y: nat, now: int)
    requires now >= DoubleClickMs
    ensures var r := Report(0, x, y, UPPER_M);
      Decode(r + r + r, 0, NoClick, now).events
        == [Mouse(x - 1, y - 1, Left, Click), Mouse(x - 1, y - 1, Left, DoubleClick),
            Mouse(x - 1, y - 1, Left, Click)]
  {
    var r := Report(0, x, y, UPPER_M);
    var s := r + r + r;
    var c1 := Classify(0, x, y, UPPER_M, NoClick, now);
    var c2 := Classify(0, x, y, UPPER_M, c1.clicks, now);
    var c3 := Classify(0, x, y, UPPER_M, c2.clicks, now);
    assert c1.event == Mouse(x - 1, y - 1, Left, Click);
    assert c2.event == Mouse(x - 1, y - 1, Left, DoubleClick);
    assert c3.event == Mouse(x - 1, y - 1, Left, Click);
    AppendNil(r);
    AppendNil(s);
    SeqAssoc(r, r, r);
    DecodeReport([], 0, x, y, UPPER_M, r + r, NoClick, now);
    DecodeReport(r, 0, x, y, UPPER_M, r, c1.clicks, now);
    DecodeReport(r + r, 0, x, y, UPPER_M, [], c2.clicks, now);
    assert Decode(s, |s|, c3.clicks, now).events == [];
  }

  // ---------------------------------------------------------------------
  // Reassembly: decoding does not depend on where reads split the stream

  /** A token complete in `s` decodes the same way in any extension of `s`. */
  lemma {:induction false} StepExtend(s: seq<Byte>, more: seq<Byte>, i: nat, last: ClickState, now: int)
    requires i < |s| && Step(s, i, last, now).Consumed?
    ensures Step(s + more, i, last, now) == Step(s, i, last, now)
  {
    var t := s + more;
    assert t[i] == s[i];
    if s[i] == ESC && i + 2 < |s| && s[i + 1] == LBRACKET {
      assert t[i + 1] == s[i + 1] && t[i + 2] == s[i + 2];
      if s[i + 2] == LESS {
        ReportStepExtend(s, more, i, last, now);
      } else {
        FirstFromExtend(s, more, i + 2, CsiFinal);
      }
    }
  }

  lemma {:induction false} ReportStepExtend(s: seq<Byte>, more: seq<Byte>, i: nat, last: ClickState, now: int)
    requires i + 3 <= |s| && ReportStep(s, i, last, now).Consumed?
    ensures ReportStep(s + more, i, last, now) == ReportStep(s, i, last, now)
  {
    var p := FirstFrom(s, i + 3, MouseFinal);
    FirstFromExtend(s, more, i + 3, MouseFinal);
    SgrFieldsExtend(s, more, i + 3, p);
    assert (s + more)[p] == s[p];
  }

  /** A field read that starts at or before a non-digit at p ends there at the
      latest, whatever follows p. */
  lemma {:induction false} ParseIntExtend(s: seq<Byte>, more: seq<Byte>, k: nat, p: nat)
    requires k <= p < |s| && !IsDigit(s[p])
    ensures ParseInt(s + more, k) == ParseInt(s, k) && ParseInt(s, k).end <= p
  {
    var e := FirstFrom(s, k, NonDigit);
    FirstFromPassed(s, k, NonDigit);
    assert e <= p;
    FirstFromExtend(s, more, k, NonDigit);
    assert (s + more)[k..e] == s[k..e];
  }

  /** Field parsing of a report body from k whose terminator is at p never
      looks past p. */
  lemma {:induction false} SgrFieldsExtend(s: seq<Byte>, more: seq<Byte>, k: nat, p: nat)
    requires k <= p < |s| && IsMouseFinal(s[p])
    ensures SgrFields(s + more, k) == SgrFields(s, k)
  {
    var t := s + more;
    ParseIntExtend(s, more, k, p);
    var k1 := SkipSemicolon(s, ParseInt(s, k).end);
    assert SkipSemicolon(t, ParseInt(s, k).end) == k1 <= p;
    ParseIntExtend(s, more, k1, p);
    var k2 := SkipSemicolon(s, ParseInt(s, k1).end);
    assert SkipSemicolon(t, ParseInt(s, k1).end) == k2 <= p;
    ParseIntExtend(s, more, k2, p);
  }

  /** Decoding `a ++ b` in one call gives the events of decoding `a`, followed
      by those of resuming where `a` stopped with `b` appended: bytes that
      arrive later never change how earlier complete tokens decode. */
  lemma {:induction false} DecodeSplit(a: seq<Byte>, b: seq<Byte>, i: nat, last: ClickState, now: int)
    requires i <= |a|
    ensures var first := Decode(a, i, last, now);
      var second := Decode(a + b, first.stop, first.clicks, now);
      Decode(a + b, i, last, now) == Decoded(second.stop, first.events + second.events, second.clicks)
    decreases |a| - i
  {
    if i == |a| || Step(a, i, last, now).Incomplete? {
      var first := Decode(a, i, last, now);
      assert first == Decoded(i, [], last);
      var second := Decode(a + b, i, last, now);
      AppendNil(second.events);
    } else {
      var Consumed(j, evs, next) := Step(a, i, last, now);
      DecodeSplit(a, b, j, next, now);
      DecodeSplitStep(a, b, i, last, now, j, evs, next);
    }
  }

  /** The inductive step of `DecodeSplit`: the token at i is complete in `a`,
      so it decodes alike in `a ++ b`, and the claim from its end carries over. */
  lemma {:induction false} DecodeSplitStep(a: seq<Byte>, b: seq<Byte>, i: nat, last: ClickState, now: int,
                                           j: nat, evs: seq<Event>, next: ClickState)
    requires i < |a| && Step(a, i, last, now) == Consumed(j, evs, next)
    requires var mid := Decode(a, j, next, now);
      var second := Decode(a + b, mid.stop, mid.clicks, now);
      Decode(a + b, j, next, now) == Decoded(second.stop, mid.events + second.events, second.clicks)
    ensures var first := Decode(a, i, last, now);
      var second := Decode(a + b, first.stop, first.clicks, now);
      Decode(a + b, i, last, now) == Decoded(second.stop, first.events + second.events, second.clicks)
  {
    DecodeStep(a, i, last, now, j, evs, next);
    StepExtend(a, b, i, last, now);
    DecodeStep(a + b, i, last, now, j, evs, next);
    var mid := Decode(a, j, next, now);
    SeqAssoc(evs, mid.events, Decode(a + b, mid.stop, mid.clicks, now).events);
  }

  // ---------------------------------------------------------------------
  // Decoding after the buffer is compacted

  /** The bytes before n are never looked at: in a buffer `s` whose bytes
      from n on are `t`, the pass of the loop at k = n + i behaves as the
      pass at i in `t`, indices moved by n. */
  lemma {:induction false} StepShift(s: seq<Byte>, t: seq<Byte>, n: nat, i: nat, k: nat, last: ClickState, now: int)
    requires n <= |s| && s[n..] == t && i < |t| && k == n + i
    ensures Step(s, k, last, now).Incomplete? == Step(t, i, last, now).Incomplete?
    ensures var r := Step(t, i, last, now);
      r.Consumed? ==> Step(s, k, last, now) == Consumed(n + r.next, r.events, r.clicks)
  {
    assert s[k] == t[i];
    if t[i] == ESC && i + 2 < |t| && t[i + 1] == LBRACKET {
      assert s[k + 1] == t[i + 1] && s[k + 2] == t[i + 2];
      if t[i + 2] == LESS {
        ReportStepShift(s, t, n, i, k, last, now);
      } else {
        FirstFromShift(s, t, n, i + 2, CsiFinal);
      }
    } else if t[i] == ESC && i + 1 < |t| {
      assert s[k + 1] == t[i + 1];
    }
  }

  lemma {:induction false} ReportStepShift(s: seq<Byte>, t: seq<Byte>, n: nat, i: nat, k: nat, last: ClickState, now: int)
    requires n <= |s| && s[n..] == t && i + 3 <= |t| && k == n + i
    ensures ReportStep(s, k, last, now).Incomplete? == ReportStep(t, i, last, now).Incomplete?
    ensures var r := ReportStep(t, i, last, now);
      r.Consumed? ==> ReportStep(s, k, last, now) == Consumed(n + r.next, r.events, r.clicks)
  {
    var q := FirstFrom(t, i + 3, MouseFinal);
    FirstFromShift(s, t, n, i + 3, MouseFinal);
    SgrFieldsShift(s, t, n, i + 3);
    if q < |t| {
      assert s[n + q] == t[q];
    }
  }

  /** A field read from k in `t` reads the same value from n + k in `s`. */
  lemma {:induction false} ParseIntShift(s: seq<Byte>, t: seq<Byte>, n: nat, k: nat)
    requires n <= |s| && s[n..] == t && k <= |t|
    ensures ParseInt(s, n + k) == Field(ParseInt(t, k).value, n + ParseInt(t, k).end)
  {
    var e := FirstFrom(t, k, NonDigit);
    FirstFromShift(s, t, n, k, NonDigit);
    forall x | k <= x < e
      ensures s[n + x] == t[x]
    {
      assert s[n..][x] == s[n + x];
    }
    assert s[n + k..n + e] == t[k..e];
  }

  lemma {:induction false} SemicolonShift(s: seq<Byte>, t: seq<Byte>, n: nat, k: nat)
    requires n <= |s| && s[n..] == t && k <= |t|
    ensures SkipSemicolon(s, n + k) == n + SkipSemicolon(t, k)
  {
    if k < |t| {
      assert s[n + k] == t[k];
    }
  }

  lemma {:induction false} SgrFieldsShift(s: seq<Byte>, t: seq<Byte>, n: nat, k: nat)
    requires n <= |s| && s[n..] == t && k <= |t|
    ensures SgrFields(s, n + k) == SgrFields(t, k)
  {
    var f0 := ParseInt(t, k);
    var k1 := SkipSemicolon(t, f0.end);
    var f1 := ParseInt(t, k1);
    var k2 := SkipSemicolon(t, f1.end);
    ParseIntShift(s, t, n, k);
    SemicolonShift(s, t, n, f0.end);
    ParseIntShift(s, t, n, k1);
    SemicolonShift(s, t, n, f1.end);
    ParseIntShift(s, t, n, k2);
    FieldsLink(s, n + k, n + k1, n + k2, n, f0, f1, ParseInt(t, k2));
  }

  /** `SgrFields` from the three fields it reads, with their positions named. */
  lemma {:induction false} FieldsLink(s: seq<Byte>, k0: nat, k1: nat, k2: nat, n: nat, f0: Field, f1: Field, f2: Field)
    requires k0 <= |s| && k1 <= |s| && k2 <= |s|
    requires ParseInt(s, k0) == Field(f0.value, n + f0.end)
    requires SkipSemicolon(s, n + f0.end) == k1
    requires ParseInt(s, k1) == Field(f1.value, n + f1.end)
    requires SkipSemicolon(s, n + f1.end) == k2
    requires ParseInt(s, k2).value == f2.value
    ensures SgrFields(s, k0) == Fields(f0.value, f1.value, f2.value)
  {
  }

  /** Decoding from i in `t` and from n + i in a buffer whose bytes from n
      on are `t` queue the same events and leave the same tracker; the
      stops differ by n. */
  lemma {:induction false} DecodeShift(s: seq<Byte>, t: seq<Byte>, n: nat, i: nat, k: nat, last: ClickState, now: int)
    requires i <= |t| && n <= |s| && s[n..] == t && k == n + i
    ensures var r := Decode(t, i, last, now);
      Decode(s, k, last, now) == Decoded(n + r.stop, r.events, r.clicks)
    decreases |t| - i
  {
    if i == |t| || Step(t, i, last, now).Incomplete? {
      DecodeShiftStop(s, t, n, i, k, last, now);
    } else {
      var j, evs, next :| Step(t, i, last, now) == Consumed(j, evs, next);
      var m := n + j;
      DecodeShift(s, t, n, j, m, next, now);
      StepShiftTo(s, t, n, i, k, last, now, j, m, evs, next);
      DecodeShiftStep(s, t, n, i, k, last, now, j, m, evs, next);
    }
  }

  /** `DecodeShift` where decoding `t` stops at once. */
  lemma {:induction false} DecodeShiftStop(s: seq<Byte>, t: seq<Byte>, n: nat, i: nat, k: nat, last: ClickState, now: int)
    requires i <= |t| && n <= |s| && s[n..] == t && k == n + i
    requires i == |t| || Step(t, i, last, now).Incomplete?
    ensures Decode(t, i, last, now) == Decoded(i, [], last)
    ensures Decode(s, k, last, now) == Decoded(k, [], last)
  {
    if i < |t| {
      StepShift(s, t, n, i, k, last, now);
    }
  }

  /** `StepShift` for a complete token, its ends named j and m. */
  lemma {:induction false} StepShiftTo(s: seq<Byte>, t: seq<Byte>, n: nat, i: nat, k: nat, last: ClickState, now: int,
                                       j: nat, m: nat, evs: seq<Event>, next: ClickState)
    requires i < |t| && n <= |s| && s[n..] == t && k == n + i && m == n + j
    requires Step(t, i, last, now) == Consumed(j, evs, next)
    ensures Step(s, k, last, now) == Consumed(m, evs, next)
  {
    StepShift(s, t, n, i, k, last, now);
  }

  /** The inductive step of `DecodeShift`: the token read at i in `t` is
      read alike at k in `s`, and the claim from its end carries over. */
  lemma {:induction false} DecodeShiftStep(s: seq<Byte>, t: seq<Byte>, n: nat, i: nat, k: nat, last: ClickState, now: int,
                                           j: nat, m: nat, evs: seq<Event>, next: ClickState)
    requires i < |t| && k < |s| && k == n + i && m == n + j
    requires Step(t, i, last, now) == Consumed(j, evs, next)
    requires Step(s, k, last, now) == Consumed(m, evs, next)
    requires var r := Decode(t, j, next, now);
      Decode(s, m, next, now) == Decoded(n + r.stop, r.events, r.clicks)
    ensures var r := Decode(t, i, last, now);
      Decode(s, k, last, now) == Decoded(n + r.stop, r.events, r.clicks)
  {
    DecodeStep(t, i, last, now, j, evs, next);
    DecodeStep(s, k, last, now, m, evs, next);
  }

  /** What `memmove` does to the parser's view: decoding the kept bytes
      a[stop..] followed by new bytes b from index 0 is decoding a ++ b from
      stop, with the stop moved back by `stop`. */
  lemma {:induction false} DecodeCompacted(a: seq<Byte>, b: seq<Byte>, stop: nat, last: ClickState, now: int)
    requires stop <= |a|
    ensures var r := Decode(a[stop..] + b, 0, last, now);
      Decode(a + b, stop, last, now) == Decoded(stop + r.stop, r.events, r.clicks)
  {
    assert (a + b)[stop..] == a[stop..] + b;
    DecodeShift(a + b, a[stop..] + b, stop, 0, stop, last, now);
  }
}
