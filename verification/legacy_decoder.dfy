/** The input decoder of the older terminal layer (cgt_linux.cpp,
    `__cgt_parse_input`). It reads SGR mouse reports with
    `sscanf` and three `%d` conversions (cgt_linux.cpp:235), so a report can
    fail to scan; it knows drags only for codes 32-34, ends other control
    sequences only on an ASCII letter or '~', and has no double click. As written, an ESC followed by anything but
    '[' never advances the loop index (`Step`); the decoder the rest of the
    model uses drops that ESC instead (`FixedStep`, `Decode`). */
module LegacyDecoder {
  import opened Bytes
  import opened Events
  import opened Scan
  import SgrDecoder

  /** What the report scan at cgt_linux.cpp:235 reads: three decimal numbers
      separated by ';', then the final byte. */
  datatype Scanned = Scanned(b: int, x: int, y: int, kind: Byte)

  /** The scan when it returns 4, `None` when it returns fewer. A NUL ends
      the C string, so `%c` cannot read one. */
  function ScanReport(s: seq<Byte>, k: nat): (r: Option<Scanned>)
    requires k <= |s|
  {
    match ScanInt(s, k)
    case None => None
    case Some(b) =>
      if b.end < |s| && s[b.end] == SEMICOLON then
        match ScanInt(s, b.end + 1)
        case None => None
        case Some(x) =>
          if x.end < |s| && s[x.end] == SEMICOLON then
            match ScanInt(s, x.end + 1)
            case None => None
            case Some(y) =>
              if y.end < |s| && s[y.end] != NUL then Some(Scanned(b.value, x.value, y.value, s[y.end]))
              else None
          else None
      else None
  }

  /** The event a scanned report yields. A `%c` byte that is neither 'M' nor
      'm' still queues an event, with its button and action never written. */
  function Classify(r: Scanned): (ev: Event)
    ensures ev.IsMouse() && !ev.Key?
  {
    if r.kind == UPPER_M then
      if 32 <= r.b <= 34 then Mouse(r.x - 1, r.y - 1, ButtonOf(r.b - 32), Move)
      else if r.b == 3 then Mouse(r.x - 1, r.y - 1, NoButton, Release)
      else if 0 <= r.b <= 2 then Mouse(r.x - 1, r.y - 1, ButtonOf(r.b), Click)
      else Mouse(r.x - 1, r.y - 1, NoButton, Move)
    else if r.kind == LOWER_M then
      Mouse(r.x - 1, r.y - 1, NoButton, if r.b >= 32 then Move else Release)
    else MouseUnset(r.x - 1, r.y - 1)
  }

  /** What one pass of the parser loop does with its index at i: return i
      (`Wait`), or set the index to `next` after queueing `events`. */
  datatype StepResult = Wait | Next(next: nat, events: seq<Event>)

  /** An ESC at i followed by a byte other than '['. */
  predicate StrayEscape(s: seq<Byte>, i: nat) {
    i + 1 < |s| && s[i] == ESC && s[i + 1] != LBRACKET
  }

  /** One pass of the loop as written. */
  function Step(s: seq<Byte>, i: nat): (r: StepResult)
    requires i < |s|
    ensures r.Next? ==> i <= r.next <= |s| && |r.events| <= 1
  {
    if s[i] != ESC then Next(i + 1, [KeyOf(s[i])])
    else if i + 1 == |s| then Wait
    else if s[i + 1] != LBRACKET then Next(i, [])
    else if i + 2 == |s| then Wait
    else if s[i + 2] == LESS then ReportStep(s, i)
    else SkipCsi(s, i)
  }

  /** `ESC [ <` at i: find the 'M' or 'm', scan the report, skip it either
      way. */
  function ReportStep(s: seq<Byte>, i: nat): (r: StepResult)
    requires i + 3 <= |s|
    ensures r.Next? ==> i + 4 <= r.next <= |s| && |r.events| <= 1
  {
    var j := FirstFrom(s, i + 3, MouseFinal);
    if j == |s| then Wait
    else match ScanReport(s, i + 3)
      case Some(r) => Next(j + 1, [Classify(r)])
      case None => Next(j + 1, [])
  }

  /** Any other `ESC [` at i: skip through the first ASCII letter or '~'. */
  function SkipCsi(s: seq<Byte>, i: nat): (r: StepResult)
    requires i + 3 <= |s|
    ensures r.Next? ==> i + 3 <= r.next <= |s| && r.events == []
  {
    var j := FirstFrom(s, i + 2, LetterOrTilde);
    if j == |s| then Wait else Next(j + 1, [])
  }

  /** The step the rest of the model uses: a stray ESC is dropped, as the
      newer decoder does; everything else is as written. */
  function FixedStep(s: seq<Byte>, i: nat): (r: StepResult)
    requires i < |s|
    ensures r.Next? ==> i < r.next <= |s|
  {
    if StrayEscape(s, i) then Next(i + 1, []) else Step(s, i)
  }

  /** The value `__cgt_parse_input` returns and the events it queued. */
  datatype Decoded = Decoded(stop: nat, events: seq<Event>)

  /** The parser loop from index i, with the stray-ESC correction. */
  function Decode(s: seq<Byte>, i: nat): (r: Decoded)
    requires i <= |s|
    ensures i <= r.stop <= |s|
    decreases |s| - i
  {
    if i == |s| then Decoded(i, [])
    else match FixedStep(s, i)
      case Wait => Decoded(i, [])
      case Next(j, evs) =>
        var rest := Decode(s, j);
        Decoded(rest.stop, evs + rest.events)
  }

  // ---------------------------------------------------------------------
  // The stray ESC

  /** As written, a stray ESC leaves the index where it is and queues
      nothing, so every later pass of the loop sees the same state and the
      loop never ends. */
  lemma {:induction false} StrayEscapeStalls(s: seq<Byte>, i: nat)
    requires StrayEscape(s, i)
    ensures Step(s, i) == Next(i, [])
  {
  }

  /** The shortest input that hangs the loop: ESC then 'a' (Alt+a). */
  lemma {:induction false} AltKeyStalls()
    ensures Step([ESC, 0x61], 0) == Next(0, [])
  {
    StrayEscapeStalls([ESC, 0x61], 0);
  }

  /** Away from a stray ESC the corrected step is the step as written, and the
      step as written always makes progress. */
  lemma {:induction false} FixedStepAgrees(s: seq<Byte>, i: nat)
    requires i < |s| && !StrayEscape(s, i)
    ensures FixedStep(s, i) == Step(s, i)
    ensures Step(s, i).Next? ==> Step(s, i).next > i
  {
  }

  /** With the correction a stray ESC is dropped and the byte after it is
      decoded normally. */
  lemma {:induction false} DecodeStrayEscape(s: seq<Byte>, i: nat)
    requires StrayEscape(s, i)
    ensures Decode(s, i) == Decode(s, i + 1)
  {
    DecodeStep(s, i, i + 1, []);
    AppendNil(Decode(s, i + 1).events);
  }

  // ---------------------------------------------------------------------
  // Where decoding stops

  lemma {:induction false} DecodeStep(s: seq<Byte>, i: nat, j: nat, evs: seq<Event>)
    requires i < |s| && FixedStep(s, i) == Next(j, evs)
    ensures var rest := Decode(s, j);
      Decode(s, i) == Decoded(rest.stop, evs + rest.events)
  {
  }

  /** The loop returns early exactly in the four waiting cases: a lone ESC, a
      lone `ESC [`, a report with no 'M' or 'm' yet, and any other control
      sequence with no ASCII letter or '~' yet. */
  lemma {:induction false} WaitCases(s: seq<Byte>, i: nat)
    requires i < |s|
    ensures FixedStep(s, i).Wait? <==>
      && s[i] == ESC
      && (i + 1 == |s|
          || (&& s[i + 1] == LBRACKET
              && (i + 2 == |s|
                  || (s[i + 2] == LESS && forall t :: i + 3 <= t < |s| ==> !IsMouseFinal(s[t]))
                  || (s[i + 2] != LESS && forall t :: i + 2 <= t < |s| ==> !StopsAt(LetterOrTilde, s[t])))))
  {
    if s[i] == ESC && i + 2 < |s| && s[i + 1] == LBRACKET {
      if s[i + 2] == LESS {
        FirstFromPassed(s, i + 3, MouseFinal);
      } else {
        FirstFromPassed(s, i + 2, LetterOrTilde);
      }
    }
  }

  /** Decoding stops at the end of the input or at a token that must wait. */
  lemma {:induction false} DecodeStopsAtWait(s: seq<Byte>, i: nat)
    requires i <= |s|
    ensures var r := Decode(s, i);
      r.stop == |s| || FixedStep(s, r.stop).Wait?
    decreases |s| - i
  {
    if i < |s| {
      match FixedStep(s, i)
      case Wait =>
        assert Decode(s, i) == Decoded(i, []);
      case Next(j, evs) =>
        DecodeStep(s, i, j, evs);
        DecodeStopsAtWait(s, j);
    }
  }

  /** A byte other than ESC is one key event (CR read as LF). */
  lemma {:induction false} DecodeKey(s: seq<Byte>, i: nat)
    requires i < |s| && s[i] != ESC
    ensures var rest := Decode(s, i + 1);
      Decode(s, i) == Decoded(rest.stop, [Key(if s[i] == CR then LF else s[i])] + rest.events)
  {
    DecodeStep(s, i, i + 1, [KeyOf(s[i])]);
  }

  /** `ESC [ <` at i hands the token to the report reader. */
  lemma {:induction false} StepIsReport(s: seq<Byte>, i: nat)
    requires i + 3 <= |s| && s[i] == ESC && s[i + 1] == LBRACKET && s[i + 2] == LESS
    ensures FixedStep(s, i) == ReportStep(s, i)
  {
  }

  /** A report whose terminator is at j but which does not scan is skipped
      through j with no event. */
  lemma {:induction false} DecodeScanFailure(s: seq<Byte>, i: nat, j: nat)
    requires i + 3 <= j < |s| && s[i] == ESC && s[i + 1] == LBRACKET && s[i + 2] == LESS
    requires FirstFrom(s, i + 3, MouseFinal) == j && ScanReport(s, i + 3).None?
    ensures Decode(s, i) == Decode(s, j + 1)
  {
    assert FixedStep(s, i) == Next(j + 1, []) by {
      StepIsReport(s, i);
    }
    DecodeStep(s, i, j + 1, []);
    AppendNil(Decode(s, j + 1).events);
  }

  // ---------------------------------------------------------------------
  // Reports as a terminal writes them

  /** `%d` over a digit string d sitting at k and followed by a non-digit. */
  lemma {:induction false} ScanDigits(s: seq<Byte>, k: nat, d: seq<Byte>)
    requires |d| > 0 && AllDigits(d) && k + |d| < |s| && s[k..k + |d|] == d && !IsDigit(s[k + |d|])
    ensures ScanInt(s, k) == Some(Field(DigitsValue(d), k + |d|))
  {
    DigitRun(s, k, d);
    AllDigitsIndex(d);
    assert IsDigit(s[k]) by {
      assert s[k] == d[0];
    }
    ScanAt(s, k, k, k + |d|, false, DigitsValue(d));
  }

  /** Three conversions separated by ';' and followed by a byte that is not
      NUL make a scan of four. */
  lemma {:induction false} ScanReportOf(s: seq<Byte>, k: nat, e1: nat, e2: nat, e3: nat, b: int, x: int, y: int)
    requires k <= |s| && e3 < |s| && s[e3] != NUL
    requires ScanInt(s, k) == Some(Field(b, e1)) && e1 < |s| && s[e1] == SEMICOLON
    requires ScanInt(s, e1 + 1) == Some(Field(x, e2)) && e2 < |s| && s[e2] == SEMICOLON
    requires ScanInt(s, e2 + 1) == Some(Field(y, e3))
    ensures ScanReport(s, k) == Some(Scanned(b, x, y, s[e3]))
  {
  }

  /** The three conversions over a report at i whose digit strings are db,
      dx and dy. */
  lemma {:induction false} WireFields(s: seq<Byte>, i: nat, db: seq<Byte>, dx: seq<Byte>, dy: seq<Byte>)
    requires |db| > 0 && |dx| > 0 && |dy| > 0
    requires AllDigits(db) && AllDigits(dx) && AllDigits(dy) && SgrDecoder.ReportAt(s, i, db, dx, dy)
    ensures var e1 := i + 3 + |db|;
      var e2 := e1 + 1 + |dx|;
      var e3 := e2 + 1 + |dy|;
      && ScanInt(s, i + 3) == Some(Field(DigitsValue(db), e1)) && s[e1] == SEMICOLON
      && ScanInt(s, e1 + 1) == Some(Field(DigitsValue(dx), e2)) && s[e2] == SEMICOLON
      && ScanInt(s, e2 + 1) == Some(Field(DigitsValue(dy), e3)) && s[e3] != NUL
  {
    var e1 := i + 3 + |db|;
    var e2 := e1 + 1 + |dx|;
    var e3 := e2 + 1 + |dy|;
    assert s[e1] == SEMICOLON && s[e2] == SEMICOLON && IsMouseFinal(s[e3]);
    assert ScanInt(s, i + 3) == Some(Field(DigitsValue(db), e1)) by {
      ScanDigits(s, i + 3, db);
    }
    assert ScanInt(s, e1 + 1) == Some(Field(DigitsValue(dx), e2)) by {
      ScanDigits(s, e1 + 1, dx);
    }
    assert ScanInt(s, e2 + 1) == Some(Field(DigitsValue(dy), e3)) by {
      ScanDigits(s, e2 + 1, dy);
    }
  }

  /** The scan of a report at i whose digit strings are db, dx and dy. */
  lemma {:induction false} ScanWire(s: seq<Byte>, i: nat, db: seq<Byte>, dx: seq<Byte>, dy: seq<Byte>)
    requires |db| > 0 && |dx| > 0 && |dy| > 0
    requires AllDigits(db) && AllDigits(dx) && AllDigits(dy) && SgrDecoder.ReportAt(s, i, db, dx, dy)
    ensures var e3 := i + 3 + |db| + 1 + |dx| + 1 + |dy|;
      ScanReport(s, i + 3) == Some(Scanned(DigitsValue(db), DigitsValue(dx), DigitsValue(dy), s[e3]))
  {
    var e1 := i + 3 + |db|;
    var e2 := e1 + 1 + |dx|;
    WireFields(s, i, db, dx, dy);
    ScanReportOf(s, i + 3, e1, e2, e2 + 1 + |dy|, DigitsValue(db), DigitsValue(dx), DigitsValue(dy));
  }

  /** A report at i is one step that consumes it through its final byte and
      queues the event its numbers and final byte classify to. */
  lemma {:induction false} ReportStepAt(s: seq<Byte>, i: nat, db: seq<Byte>, dx: seq<Byte>, dy: seq<Byte>)
    requires |db| > 0 && |dx| > 0 && |dy| > 0
    requires AllDigits(db) && AllDigits(dx) && AllDigits(dy) && SgrDecoder.ReportAt(s, i, db, dx, dy)
    ensures var e3 := i + 3 + |db| + 1 + |dx| + 1 + |dy|;
      FixedStep(s, i) == Next(e3 + 1, [Classify(Scanned(DigitsValue(db), DigitsValue(dx), DigitsValue(dy), s[e3]))])
  {
    StepIsReport(s, i);
    ScanWire(s, i, db, dx, dy);
    SgrDecoder.ReportEnd(s, i, db, dx, dy);
  }

  /** The wire layout after any prefix is one such step. */
  lemma {:induction false} WireIsStep(pre: seq<Byte>, db: seq<Byte>, dx: seq<Byte>, dy: seq<Byte>, final: Byte, rest: seq<Byte>)
    requires |db| > 0 && |dx| > 0 && |dy| > 0
    requires AllDigits(db) && AllDigits(dx) && AllDigits(dy) && IsMouseFinal(final)
    ensures FixedStep(pre + SgrDecoder.Wire(db, dx, dy, final) + rest, |pre|)
      == Next(|pre + SgrDecoder.Wire(db, dx, dy, final)|,
              [Classify(Scanned(DigitsValue(db), DigitsValue(dx), DigitsValue(dy), final))])
  {
    SgrDecoder.WireLayout(pre, db, dx, dy, final, rest);
    ReportStepAt(pre + SgrDecoder.Wire(db, dx, dy, final) + rest, |pre|, db, dx, dy);
  }

  /** A complete report after any prefix scans to its own numbers and final
      byte and is one step that consumes exactly the report. */
  lemma {:induction false} ReportIsStep(pre: seq<Byte>, b: nat, x: nat, y: nat, final: Byte, rest: seq<Byte>)
    requires IsMouseFinal(final)
    ensures FixedStep(pre + SgrDecoder.Report(b, x, y, final) + rest, |pre|)
      == Next(|pre + SgrDecoder.Report(b, x, y, final)|, [Classify(Scanned(b, x, y, final))])
  {
    WireIsStep(pre, DecimalDigits(b), DecimalDigits(x), DecimalDigits(y), final, rest);
  }

  /** Every complete report yields exactly one event at (x-1, y-1), and
      decoding resumes right after its terminator. */
  lemma {:induction false} DecodeReport(pre: seq<Byte>, b: nat, x: nat, y: nat, final: Byte, rest: seq<Byte>)
    requires IsMouseFinal(final)
    ensures var s := pre + SgrDecoder.Report(b, x, y, final) + rest;
      var ev := Classify(Scanned(b, x, y, final));
      var tail := Decode(s, |pre + SgrDecoder.Report(b, x, y, final)|);
      && ev.Mouse? && ev.x == x - 1 && ev.y == y - 1
      && Decode(s, |pre|) == Decoded(tail.stop, [ev] + tail.events)
  {
    var s := pre + SgrDecoder.Report(b, x, y, final) + rest;
    var n := |pre + SgrDecoder.Report(b, x, y, final)|;
    var ev := Classify(Scanned(b, x, y, final));
    assert FixedStep(s, |pre|) == Next(n, [ev]) by {
      ReportIsStep(pre, b, x, y, final, rest);
    }
    DecodeStep(s, |pre|, n, [ev]);
  }

  /** A left press at column 11, row 6 as xterm reports it, `ESC[<0;11;6M`,
      decoded by cgt_linux.cpp:232-278: a left click at the 0-indexed cell
      (10, 5). */
  lemma {:induction false} LeftClickExample()
    ensures Decode(SgrDecoder.Report(0, 11, 6, UPPER_M), 0) == Decoded(10, [Mouse(10, 5, Left, Click)])
  {
    var r := SgrDecoder.Report(0, 11, 6, UPPER_M);
    AppendNil(r);
    DecodeReport([], 0, 11, 6, UPPER_M, []);
    assert |r| == 10;
  }

  /** The classification table of cgt_linux.cpp:241-274. */
  lemma {:induction false} ClassifyTable(r: Scanned)
    ensures var ev := Classify(r);
      && ev.x == r.x - 1 && ev.y == r.y - 1
      && (r.kind == UPPER_M && 32 <= r.b <= 34 ==> ev == Mouse(r.x - 1, r.y - 1, ButtonOf(r.b - 32), Move))
      && (r.kind == UPPER_M && r.b == 3 ==> ev == Mouse(r.x - 1, r.y - 1, NoButton, Release))
      && (r.kind == UPPER_M && 0 <= r.b <= 2 ==> ev == Mouse(r.x - 1, r.y - 1, ButtonOf(r.b), Click))
      && (r.kind == UPPER_M && !(0 <= r.b <= 3) && !(32 <= r.b <= 34) ==> ev == Mouse(r.x - 1, r.y - 1, NoButton, Move))
      && (r.kind == LOWER_M ==> ev == Mouse(r.x - 1, r.y - 1, NoButton, if r.b >= 32 then Move else Release))
      && (ev.Mouse? ==> ev.action != DoubleClick)
      && (ev.MouseUnset? <==> !IsMouseFinal(r.kind))
  {
  }
}
