/** The optimised terminal layer (src/cgt_linux.cpp) as one session: the
    4096-byte reassembly buffer and its length, the event queue, the
    double-click tracker, the render cache and the output written so far.
    `read` is a parameter holding the bytes one call returned, the clock a
    parameter `now`, and `printf` an appended log of tokens. */
module Console {
  import opened Bytes
  import opened Events
  import opened SgrDecoder
  import opened Scan
  import Render

  /** INPUT_BUF_SIZE */
  const InputBufSize: nat := 4096

  /** The most one `read` into `readBuf` returns. */
  const ReadChunk: nat := 2048

  // ---------------------------------------------------------------------
  // Reassembly

  /** The bytes the parser sees after a read: new bytes are appended when
      the total stays below the buffer size; otherwise the buffered bytes are
      discarded together with the new ones. */
  function Admitted(pending: seq<Byte>, input: seq<Byte>): (s: seq<Byte>)
  {
    if |input| == 0 then pending
    else if |pending| + |input| < InputBufSize then pending + input
    else []
  }

  /** The buffer, the events queued and the tracker after one read. */
  datatype Outcome = Outcome(pending: seq<Byte>, events: seq<Event>, clicks: ClickState)

  /** `__cgt_read_input_to_buffer`: admit the read, parse, keep the
      unconsumed tail. */
  function ReadInput(pending: seq<Byte>, clicks: ClickState, input: seq<Byte>, now: int): Outcome
  {
    var s := Admitted(pending, input);
    var d := Decode(s, 0, clicks, now);
    Outcome(s[d.stop..], d.events, d.clicks)
  }

  /** What a read keeps: the buffer always stays below its size; an overflow
      leaves nothing buffered and queues nothing; otherwise the buffer ends up
      holding exactly the unconsumed suffix of the old bytes followed by the
      new ones, which is empty or starts with an incomplete token. */
  lemma {:induction false} ReadInputShape(pending: seq<Byte>, clicks: ClickState, input: seq<Byte>, now: int)
    requires |pending| < InputBufSize
    ensures var o := ReadInput(pending, clicks, input, now);
      var s := Admitted(pending, input);
      && |o.pending| < InputBufSize
      && (input != [] && |pending| + |input| >= InputBufSize ==> o == Outcome([], [], clicks))
      && (input == [] || |pending| + |input| < InputBufSize ==> s == pending + input)
      && (exists stop :: 0 <= stop <= |s| && o.pending == s[stop..])
      && (o.pending == [] || Step(s, |s| - |o.pending|, o.clicks, now).Incomplete?)
  {
    var s := Admitted(pending, input);
    var d := Decode(s, 0, clicks, now);
    DecodeStopsAtIncomplete(s, 0, clicks, now);
    if input == [] {
      assert s == pending + input;
    }
    if s == [] {
      assert d == Decoded(0, [], clicks);
    }
    assert |s| - |s[d.stop..]| == d.stop;
  }

  /** Reads that fit the buffer are admitted whole. */
  lemma {:induction false} AdmittedFits(pending: seq<Byte>, input: seq<Byte>)
    requires |pending| + |input| < InputBufSize
    ensures Admitted(pending, input) == pending + input
  {
    if input == [] {
      assert pending + input == pending;
    }
  }

  /** Reassembly: two reads in a row (same clock) queue exactly what one read
      of both chunks queues, in order, and leave the same buffered bytes and
      tracker. So a token split across reads decodes as if it had arrived at
      once, as long as the buffer does not overflow. */
  lemma {:induction false} ReadInputTwice(pending: seq<Byte>, clicks: ClickState, x: seq<Byte>, y: seq<Byte>, now: int)
    requires |pending| + |x| + |y| < InputBufSize
    ensures var o1 := ReadInput(pending, clicks, x, now);
      var o2 := ReadInput(o1.pending, o1.clicks, y, now);
      ReadInput(pending, clicks, x + y, now) == Outcome(o2.pending, o1.events + o2.events, o2.clicks)
  {
    var s1 := pending + x;
    AdmittedFits(pending, x);
    var d1 := Decode(s1, 0, clicks, now);
    var kept := s1[d1.stop..];
    AdmittedFits(kept, y);
    var d2 := Decode(kept + y, 0, d1.clicks, now);
    AdmittedFits(pending, x + y);
    SeqAssoc(pending, x, y);
    DecodeSplit(s1, y, 0, clicks, now);
    DecodeCompacted(s1, y, d1.stop, d1.clicks, now);
    TwiceTail(s1, y, d1.stop, d2.stop);
  }

  /** The bytes the one-read buffer keeps are those the second read keeps. */
  lemma {:induction false} TwiceTail(s: seq<Byte>, y: seq<Byte>, stop: nat, stop2: nat)
    requires stop <= |s| && stop2 <= |s[stop..] + y|
    ensures (s + y)[stop + stop2..] == (s[stop..] + y)[stop2..]
  {
    assert s + y == s[..stop] + (s[stop..] + y);
  }

  // ---------------------------------------------------------------------
  // The event queue

  /** The index of the first event of the requested kind (mouse when
      `mouse`, key otherwise), or the queue's length when there is none. */
  function FirstOf(q: seq<Event>, mouse: bool): (k: nat)
    ensures k <= |q|
    ensures k < |q| ==> q[k].IsMouse() == mouse
    ensures forall t :: 0 <= t < k ==> q[t].IsMouse() != mouse
    decreases |q|
  {
    if |q| == 0 then 0
    else if q[0].IsMouse() == mouse then 0
    else 1 + FirstOf(q[1..], mouse)
  }

  /** The events of one kind, in queue order. */
  function OfKind(q: seq<Event>, mouse: bool): seq<Event>
    decreases |q|
  {
    if |q| == 0 then []
    else (if q[0].IsMouse() == mouse then [q[0]] else []) + OfKind(q[1..], mouse)
  }

  lemma {:induction false} OfKindAppend(a: seq<Event>, b: seq<Event>, mouse: bool)
    ensures OfKind(a + b, mouse) == OfKind(a, mouse) + OfKind(b, mouse)
    decreases |a|
  {
    if |a| > 0 {
      assert (a + b)[1..] == a[1..] + b;
      OfKindAppend(a[1..], b, mouse);
      var h := if a[0].IsMouse() == mouse then [a[0]] else [];
      SeqAssoc(h, OfKind(a[1..], mouse), OfKind(b, mouse));
    } else {
      assert a + b == b;
    }
  }

  lemma {:induction false} OfKindNone(a: seq<Event>, mouse: bool)
    requires forall t :: 0 <= t < |a| ==> a[t].IsMouse() != mouse
    ensures OfKind(a, mouse) == []
    decreases |a|
  {
    if |a| > 0 {
      OfKindNone(a[1..], mouse);
    }
  }

  /** Taking out the first event x of one kind, with only events of the
      other kind in front of it (the queue as `TakeKind` sees it), takes the
      oldest event of that kind and leaves the events of the other kind, and
      their order, as they were. */
  lemma {:induction false} TakeFirst(a: seq<Event>, x: Event, b: seq<Event>, mouse: bool)
    requires OfKind(a, mouse) == [] && x.IsMouse() == mouse
    ensures OfKind(a + [x] + b, mouse) == [x] + OfKind(a + b, mouse)
    ensures OfKind(a + b, !mouse) == OfKind(a + [x] + b, !mouse)
  {
    TakeFirstOther(a, x, b, mouse);
    OfKindSplit(a, x, b, mouse);
    var rest := OfKind(b, mouse);
    assert [] + [x] + rest == [x] + rest && [] + rest == rest;
  }

  /** Taking x out leaves the events of the other kind as they were. */
  lemma {:induction false} TakeFirstOther(a: seq<Event>, x: Event, b: seq<Event>, mouse: bool)
    requires x.IsMouse() == mouse
    ensures OfKind(a + b, !mouse) == OfKind(a + [x] + b, !mouse)
  {
    OfKindSplit(a, x, b, !mouse);
    var before, after := OfKind(a, !mouse), OfKind(b, !mouse);
    assert before + [] + after == before + after;
  }

  /** `TakeFirst` at the index `FirstOf` finds. */
  lemma {:induction false} TakeAt(q: seq<Event>, mouse: bool)
    requires FirstOf(q, mouse) < |q|
    ensures var k := FirstOf(q, mouse);
      && OfKind(q, mouse) == [q[k]] + OfKind(q[..k] + q[k + 1..], mouse)
      && OfKind(q[..k] + q[k + 1..], !mouse) == OfKind(q, !mouse)
  {
    var k := FirstOf(q, mouse);
    var a, b := q[..k], q[k + 1..];
    assert q == a + [q[k]] + b;
    assert OfKind(a, mouse) == [] by {
      OfKindNone(a, mouse);
    }
    TakeFirst(a, q[k], b, mouse);
  }

  /** The events of one kind in a queue with x between a and b. */
  lemma {:induction false} OfKindSplit(a: seq<Event>, x: Event, b: seq<Event>, mouse: bool)
    ensures OfKind(a + [x] + b, mouse) == OfKind(a, mouse) + (if x.IsMouse() == mouse then [x] else []) + OfKind(b, mouse)
    ensures OfKind(a + b, mouse) == OfKind(a, mouse) + OfKind(b, mouse)
  {
    var one := if x.IsMouse() == mouse then [x] else [];
    assert OfKind([x], mouse) == one by {
      assert [x][1..] == [];
    }
    OfKindAppend(a, [x], mouse);
    OfKindAppend(a + [x], b, mouse);
    OfKindAppend(a, b, mouse);
  }

  // ---------------------------------------------------------------------
  // The cursor-position reply

  /** The reply a terminal sends to `ESC [ 6 n`: `ESC [ row ; col R`. */
  function CursorReport(row: int, col: int): seq<Byte>
  {
    ReportBytes(Decimal(row), Decimal(col))
  }

  function ReportBytes(r: seq<Byte>, c: seq<Byte>): seq<Byte>
  {
    [ESC, LBRACKET] + r + [SEMICOLON] + c + [UPPER_R]
  }

  /** How `cgt_getxy` reads the bytes it collected: from the last '[' of the
      C string, `sscanf("[%d;%dR")` must make both conversions; the cell is
      (col - 1, row - 1). The 'R' is never checked, since `sscanf` counts
      conversions only. */
  function CursorReply(reply: seq<Byte>): Option<Render.Pos>
  {
    var c := UpToNul(reply);
    match LastIndex(c, LBRACKET)
    case None => None
    case Some(p) => ReplyFields(c, p + 1)
  }

  /** The `%d;%d` part of the reply, read from k. */
  function ReplyFields(c: seq<Byte>, k: nat): Option<Render.Pos>
    requires k <= |c|
  {
    match ScanInt(c, k)
    case None => None
    case Some(row) =>
      if row.end < |c| && c[row.end] == SEMICOLON then
        match ScanInt(c, row.end + 1)
        case None => None
        case Some(col) => Some(Render.Pos(col.value - 1, row.value - 1))
      else None
  }

  /** A reply that ends the collected bytes is read back as the cell it
      reports, whatever came before it. */
  lemma {:induction false} CursorReplyRoundTrip(pre: seq<Byte>, row: int, col: int)
    requires NoNul(pre)
    ensures CursorReply(pre + CursorReport(row, col)) == Some(Render.Pos(col - 1, row - 1))
  {
    var s := pre + CursorReport(row, col);
    ReplyBracket(pre, row, col);
    ReplyNumbers(pre, row, col);
    CursorReplyOf(s, |pre| + 1);
  }

  /** The '[' of a reply after `pre` is the last one, and no NUL cuts the
      C string short. */
  lemma {:induction false} ReplyBracket(pre: seq<Byte>, row: int, col: int)
    requires NoNul(pre)
    ensures var s := pre + CursorReport(row, col);
      NoNul(s) && LastIndex(s, LBRACKET) == Some(|pre| + 1)
  {
    var r, c := Decimal(row), Decimal(col);
    DecimalBytes(row);
    DecimalBytes(col);
    ReportLayout(pre, r, c);
    LastIndexAt(pre + ReportBytes(r, c), LBRACKET, |pre| + 1);
  }

  /** The two fields of a reply after `pre` read back. */
  lemma {:induction false} ReplyNumbers(pre: seq<Byte>, row: int, col: int)
    requires NoNul(pre)
    ensures ReplyFields(pre + CursorReport(row, col), |pre| + 2) == Some(Render.Pos(col - 1, row - 1))
  {
    var r, c := Decimal(row), Decimal(col);
    var s := pre + ReportBytes(r, c);
    var i := |pre|;
    var e1, e2 := i + 2 + |r|, i + 3 + |r| + |c|;
    DecimalBytes(row);
    DecimalBytes(col);
    ReplyPieces(pre, r, c);
    assert s[i + 2..e1] == Decimal(row) && s[e1 + 1..e2] == Decimal(col);
    assert e2 < |s| && s[e1] == SEMICOLON && !IsDigit(s[e2]);
    ReplyFieldsAt(s, i + 2, e1, e2, row, col);
  }

  /** The two numbers of a reply after `pre` and the bytes around them. */
  lemma {:induction false} ReplyPieces(pre: seq<Byte>, r: seq<Byte>, c: seq<Byte>)
    requires NoNul(pre) && Numeral(r) && Numeral(c)
    ensures var s := pre + ReportBytes(r, c);
      var e1 := |pre| + 2 + |r|;
      var e2 := e1 + 1 + |c|;
      e2 < |s| && s[|pre| + 2..e1] == r && s[e1] == SEMICOLON && s[e1 + 1..e2] == c && !IsDigit(s[e2])
  {
    ReportLayout(pre, r, c);
  }

  /** The reply read from the C string's last '['. */
  lemma {:induction false} CursorReplyOf(s: seq<Byte>, p: nat)
    requires NoNul(s) && LastIndex(s, LBRACKET) == Some(p)
    ensures CursorReply(s) == ReplyFields(s, p + 1)
  {
    UpToNulOfNoNul(s);
  }

  /** `%d;%d` reads back two numbers `printf` wrote at k, when no digit
      follows them. */
  lemma {:induction false} ReplyFieldsAt(c: seq<Byte>, k: nat, e1: nat, e2: nat, row: int, col: int)
    requires e1 == k + |Decimal(row)| && e2 == e1 + 1 + |Decimal(col)| && e2 <= |c|
    requires c[k..e1] == Decimal(row) && c[e1] == SEMICOLON && c[e1 + 1..e2] == Decimal(col)
    requires e2 == |c| || !IsDigit(c[e2])
    ensures ReplyFields(c, k) == Some(Render.Pos(col - 1, row - 1))
  {
    assert ScanInt(c, k) == Some(Field(row, e1)) by {
      ScanIntDecimal(c, k, e1, row);
    }
    assert ScanInt(c, e1 + 1) == Some(Field(col, e2)) by {
      ScanIntDecimal(c, e1 + 1, e2, col);
    }
    ReplyFieldsOf(c, k, row, e1, col, e2);
  }

  lemma {:induction false} ReplyFieldsOf(c: seq<Byte>, k: nat, row: int, e1: nat, col: int, e2: nat)
    requires k <= |c| && ScanInt(c, k) == Some(Field(row, e1))
    requires e1 < |c| && c[e1] == SEMICOLON && ScanInt(c, e1 + 1) == Some(Field(col, e2))
    ensures ReplyFields(c, k) == Some(Render.Pos(col - 1, row - 1))
  {
  }

  /** Where the pieces of a reply sit after `pre`, and that no byte after its
      '[' is another '[' or a NUL. */
  lemma {:induction false} ReportLayout(pre: seq<Byte>, r: seq<Byte>, c: seq<Byte>)
    requires NoNul(pre) && Numeral(r) && Numeral(c)
    ensures var s := pre + ReportBytes(r, c);
      var i := |pre|;
      var e1 := i + 2 + |r|;
      var e2 := e1 + 1 + |c|;
      && |s| == e2 + 1 && NoNul(s)
      && s[i + 1] == LBRACKET && (forall t :: i + 1 < t < |s| ==> s[t] != LBRACKET)
      && s[i + 2..e1] == r && s[e1] == SEMICOLON
      && s[e1 + 1..e2] == c && !IsDigit(s[e2])
  {
    var rep := ReportBytes(r, c);
    var s := pre + rep;
    var i := |pre|;
    ReplyLayout(r, c);
    forall t | 0 <= t < |s| ensures s[t] != NUL && (i + 1 < t ==> s[t] != LBRACKET) {
      if t < i { assert s[t] == pre[t]; } else { assert s[t] == rep[t - i]; }
    }
    Shifted(pre, rep, 2, 2 + |r|);
    Shifted(pre, rep, 3 + |r|, 3 + |r| + |c|);
  }

  /** A slice of the right operand of a concatenation, seen through it. */
  lemma {:induction false} Shifted<T>(pre: seq<T>, rep: seq<T>, a: nat, b: nat)
    requires a <= b <= |rep|
    ensures (pre + rep)[|pre| + a..|pre| + b] == rep[a..b]
  {
  }

  /** Where the pieces of a reply sit, and that only its second byte is a
      '[' and none is a NUL. */
  lemma {:induction false} ReplyLayout(r: seq<Byte>, c: seq<Byte>)
    requires Numeral(r) && Numeral(c)
    ensures var rep := ReportBytes(r, c);
      var n1, n2 := |r|, |c|;
      && |rep| == n1 + n2 + 4
      && rep[1] == LBRACKET && rep[2 + n1] == SEMICOLON && rep[3 + n1 + n2] == UPPER_R
      && rep[2..2 + n1] == r && rep[3 + n1..3 + n1 + n2] == c
      && (forall t :: 0 <= t < |rep| ==> rep[t] != NUL && (1 < t ==> rep[t] != LBRACKET))
  {
    var head := [ESC, LBRACKET] + r + [SEMICOLON];
    var rep := ReportBytes(r, c);
    var n1, n2 := |r|, |c|;
    assert rep[2..2 + n1] == r by {
      assert rep[..2 + n1] == [ESC, LBRACKET] + r;
    }
    assert rep[3 + n1..3 + n1 + n2] == c by {
      assert rep[..3 + n1 + n2] == head + c;
    }
    forall t | 0 <= t < |rep| ensures rep[t] != NUL && (1 < t ==> rep[t] != LBRACKET) {
      if 2 <= t < 2 + n1 {
        assert rep[t] == r[t - 2];
      } else if 3 + n1 <= t < 3 + n1 + n2 {
        assert rep[t] == c[t - 3 - n1];
      }
    }
  }

  /** The events a pass of the parser loop queues. */
  function Queued(r: StepResult): seq<Event>
  {
    if r.Consumed? then r.events else []
  }

  /** The tracker after a pass of the parser loop. */
  function ClicksAfter(r: StepResult, last: ClickState): ClickState
  {
    if r.Consumed? then r.clicks else last
  }

  function Abs(n: int): nat { if n < 0 then -n else n }

  // ---------------------------------------------------------------------
  // The session

  class Session {
    /** `__cgt_partial_input_buffer` and `__cgt_buffer_len`. */
    var buf: array<Byte>
    var len: int
    /** `inputBuffer`. */
    var queue: seq<Event>
    /** `_g_last_click_*`. */
    var clicks: ClickState
    /** `_g_cur_fg`, `_g_cur_bg`, `_g_cur_x`, `_g_cur_y`. */
    var fg: int
    var bg: int
    var curX: int
    var curY: int
    /** Everything written to the terminal. */
    var out: seq<Render.Token>

    ghost predicate Valid()
      reads this
    {
      buf.Length == InputBufSize && 0 <= len < InputBufSize
    }

    /** The bytes waiting in the reassembly buffer. */
    ghost function Pending(): seq<Byte>
      reads this, buf
      requires Valid()
    {
      buf[..len]
    }

    function Cache(): Render.Cache
      reads this
    {
      Render.Cache(fg, bg, curX, curY)
    }

    /** The state of the statics before any call. */
    constructor ()
      ensures Valid() && fresh(buf)
      ensures Pending() == [] && queue == [] && clicks == NoClick
      ensures Cache() == Render.Fresh && out == []
    {
      buf := new Byte[InputBufSize](_ => NUL);
      len := 0;
      queue := [];
      clicks := NoClick;
      fg, bg, curX, curY := -1, -1, -1, -1;
      out := [];
    }

    // -------------------------------------------------------------------
    // Input

    /** `fast_parse_int` from k over the buffered bytes, which hold a
        non-digit at `stop`: the value of the digit run and the index just
        past it. */
    method FastParseInt(k: int, stop: int) returns (f: Field)
      requires Valid() && 0 <= k <= stop < len && !IsDigit(buf[stop])
      ensures f == ParseInt(Pending(), k) && f.end <= stop
    {
      ghost var s := Pending();
      var p := k;
      var val := 0;
      while IsDigit(buf[p])
        invariant k <= p <= stop
        invariant FirstFrom(s, k, NonDigit) == FirstFrom(s, p, NonDigit)
        invariant AllDigits(s[k..p]) && val == DigitsValue(s[k..p])
        decreases stop - p
      {
        assert s[k..p + 1] == s[k..p] + [s[p]];
        DigitsValueSnoc(s[k..p], s[p]);
        val := val * 10 + (buf[p] - ZERO);
        p := p + 1;
      }
      f := Field(val, p);
    }

    /** A forward scan of the buffered bytes from k for the first byte
        `stop` accepts, ending at the buffer's length. */
    method ScanFor(k: int, stop: Stop) returns (p: int)
      requires Valid() && 0 <= k <= len
      ensures p == FirstFrom(Pending(), k, stop)
    {
      ghost var s := Pending();
      p := k;
      while p < len && !StopsAt(stop, buf[p])
        invariant k <= p <= len
        invariant FirstFrom(s, k, stop) == FirstFrom(s, p, stop)
      {
        p := p + 1;
      }
    }

    /** The classification of a complete report, updating the tracker. */
    method ClassifyReport(b: int, x: int, y: int, final: Byte, now: int) returns (ev: Event)
      modifies this`clicks
      ensures Classified(ev, clicks) == Classify(b, x, y, final, old(clicks), now)
    {
      if final == UPPER_M {
        if b >= 32 {
          ev := Mouse(x - 1, y - 1, ButtonOf(b - 32), Move);
        } else if b == 3 {
          ev := Mouse(x - 1, y - 1, NoButton, Release);
        } else {
          var isDouble := false;
          if b == clicks.button && Abs(x - 1 - clicks.x) <= 1 && Abs(y - 1 - clicks.y) <= 0
             && now - clicks.time < DoubleClickMs
          {
            isDouble := true;
            clicks := clicks.(time := 0);
          } else {
            clicks := ClickState(now, x - 1, y - 1, b);
          }
          ev := Mouse(x - 1, y - 1, ButtonOf(b), if isDouble then DoubleClick else Click);
        }
      } else {
        ev := Mouse(x - 1, y - 1, NoButton, if b >= 32 then Move else Release);
      }
    }

    /** One pass of the loop of `__cgt_parse_input` with its index at i. */
    method ParseStep(i: int, now: int) returns (r: StepResult)
      requires Valid() && 0 <= i < len
      modifies this`queue, this`clicks
      ensures r == Step(Pending(), i, old(clicks), now)
      ensures queue == old(queue) + Queued(r) && clicks == ClicksAfter(r, old(clicks))
    {
      if buf[i] == ESC {
        if i + 1 >= len {
          return Incomplete;
        }
        if buf[i + 1] == LBRACKET {
          if i + 2 >= len {
            return Incomplete;
          }
          if buf[i + 2] == LESS {
            r := ParseReport(i, now);
            return;
          }
          r := SkipOther(i);
          return;
        }
        return Consumed(i + 1, [], clicks);
      }
      var ch := if buf[i] == CR then LF else buf[i];
      queue := queue + [Key(ch)];
      return Consumed(i + 1, [Key(ch)], clicks);
    }

    /** The mouse-report branch: `ESC [ <` sits at i. */
    method ParseReport(i: int, now: int) returns (r: StepResult)
      requires Valid() && 0 <= i && i + 3 <= len
      modifies this`queue, this`clicks
      ensures r == ReportStep(Pending(), i, old(clicks), now)
      ensures queue == old(queue) + Queued(r) && clicks == ClicksAfter(r, old(clicks))
    {
      var p := ScanFor(i + 3, MouseFinal);
      if p == len {
        r := Incomplete;
      } else {
        var f := ReportFields(i + 3, p);
        var ev := ClassifyReport(f.b, f.x, f.y, buf[p], now);
        queue := queue + [ev];
        r := Consumed(p + 1, [ev], clicks);
      }
    }

    /** The three `fast_parse_int` calls of a report whose final byte is at
        p, each field optionally followed by one ';'. */
    method ReportFields(k: int, p: int) returns (f: Fields)
      requires Valid() && 0 <= k <= p < len && IsMouseFinal(buf[p])
      ensures f == SgrFields(Pending(), k)
    {
      ghost var s := Pending();
      var b := FastParseInt(k, p);
      var q := if buf[b.end] == SEMICOLON then b.end + 1 else b.end;
      assert q == SkipSemicolon(s, b.end);
      var x := FastParseInt(q, p);
      q := if buf[x.end] == SEMICOLON then x.end + 1 else x.end;
      assert q == SkipSemicolon(s, x.end);
      var y := FastParseInt(q, p);
      f := Fields(b.value, x.value, y.value);
    }

    /** Any other control sequence: skip through its final byte. */
    method SkipOther(i: int) returns (r: StepResult)
      requires Valid() && 0 <= i && i + 3 <= len
      ensures r == SkipCsi(Pending(), i, clicks)
    {
      var j := ScanFor(i + 2, CsiFinal);
      if j == len {
        return Incomplete;
      }
      return Consumed(j + 1, [], clicks);
    }

    /** `__cgt_parse_input` over the buffered bytes: the index it returns,
        the events it appends and the tracker it leaves are those of
        `Decode`. */
    method ParseInput(now: int) returns (consumed: int)
      requires Valid()
      modifies this`queue, this`clicks
      ensures var d := Decode(Pending(), 0, old(clicks), now);
        consumed == d.stop && queue == old(queue) + d.events && clicks == d.clicks
    {
      ghost var s := Pending();
      ghost var whole := Decode(s, 0, clicks, now);
      ghost var done: seq<Event> := [];
      AppendNil(whole.events);
      var i := 0;
      while i < len
        invariant 0 <= i <= len && queue == old(queue) + done
        invariant var rest := Decode(s, i, clicks, now);
          whole == Decoded(rest.stop, done + rest.events, rest.clicks)
        decreases len - i
      {
        ghost var before := clicks;
        var r := ParseStep(i, now);
        if r.Incomplete? {
          assert Decode(s, i, before, now) == Decoded(i, [], before);
          SeqAssoc(done, [], []);
          return i;
        }
        DecodeStep(s, i, before, now, r.next, r.events, r.clicks);
        SeqAssoc(done, r.events, Decode(s, r.next, r.clicks, now).events);
        done := done + r.events;
        i := r.next;
      }
      SeqAssoc(done, [], []);
      return i;
    }

    /** `__cgt_read_input_to_buffer` with the bytes one `read` returned
        (none when it returned 0 or an error). */
    method ReadInputToBuffer(input: seq<Byte>, now: int)
      requires Valid() && |input| <= ReadChunk
      modifies this`len, this`queue, this`clicks, buf
      ensures Valid()
      ensures var o := ReadInput(old(Pending()), old(clicks), input, now);
        Pending() == o.pending && queue == old(queue) + o.events && clicks == o.clicks
    {
      Admit(input);
      if len == 0 {
        assert Decode([], 0, clicks, now) == Decoded(0, [], clicks);
        AppendNil(queue);
      } else {
        var consumed := ParseInput(now);
        Compact(consumed);
      }
    }

    /** The `memcpy` of a read into the buffer, or the discarding of
        everything when it would not fit. */
    method Admit(input: seq<Byte>)
      requires Valid() && |input| <= ReadChunk
      modifies this`len, buf
      ensures Valid() && Pending() == Admitted(old(Pending()), input)
    {
      if |input| > 0 {
        if len + |input| < InputBufSize {
          forall t | 0 <= t < |input| {
            buf[len + t] := input[t];
          }
          assert buf[..len + |input|] == old(Pending()) + input;
          len := len + |input|;
        } else {
          len := 0;
        }
      }
    }

    /** The `memmove` that keeps the bytes the parser left unconsumed. */
    method Compact(consumed: int)
      requires Valid() && 0 <= consumed <= len
      modifies this`len, buf
      ensures Valid() && Pending() == old(Pending())[consumed..]
    {
      if consumed > 0 {
        if consumed < len {
          forall t | 0 <= t < len - consumed {
            buf[t] := buf[consumed + t];
          }
          len := len - consumed;
        } else {
          len := 0;
        }
      }
    }

    /** `cgt_has_mouse`: read, then look for a mouse event. */
    method HasMouse(input: seq<Byte>, now: int) returns (found: bool)
      requires Valid() && |input| <= ReadChunk
      modifies this`len, this`queue, this`clicks, buf
      ensures Valid()
      ensures var o := ReadInput(old(Pending()), old(clicks), input, now);
        Pending() == o.pending && queue == old(queue) + o.events && clicks == o.clicks
      ensures found <==> FirstOf(queue, true) < |queue|
    {
      ReadInputToBuffer(input, now);
      found := HasKind(true);
    }

    /** `cgt_has_key`: read, then look for a key event. */
    method HasKey(input: seq<Byte>, now: int) returns (found: bool)
      requires Valid() && |input| <= ReadChunk
      modifies this`len, this`queue, this`clicks, buf
      ensures Valid()
      ensures var o := ReadInput(old(Pending()), old(clicks), input, now);
        Pending() == o.pending && queue == old(queue) + o.events && clicks == o.clicks
      ensures found <==> FirstOf(queue, false) < |queue|
    {
      ReadInputToBuffer(input, now);
      found := HasKind(false);
    }

    /** The scan of the queue both `cgt_has_*` functions end with. */
    method HasKind(mouse: bool) returns (found: bool)
      ensures found <==> exists t :: 0 <= t < |queue| && queue[t].IsMouse() == mouse
      ensures found <==> FirstOf(queue, mouse) < |queue|
    {
      var k := 0;
      while k < |queue|
        invariant 0 <= k <= |queue|
        invariant forall t :: 0 <= t < k ==> queue[t].IsMouse() != mouse
      {
        if queue[k].IsMouse() == mouse {
          return true;
        }
        k := k + 1;
      }
      return false;
    }

    /** `cgt_get_mouse`: take the first mouse event out of the queue. When
        there is none the out-parameters of the C function are left alone,
        which `found == false` stands for. */
    method GetMouse() returns (found: bool, ev: Event)
      modifies this`queue
      ensures var k := FirstOf(old(queue), true);
        && found == (k < |old(queue)|)
        && (found ==> ev == old(queue)[k] && ev.IsMouse() && queue == old(queue)[..k] + old(queue)[k + 1..])
        && (!found ==> queue == old(queue))
      ensures found ==> OfKind(old(queue), true) == [ev] + OfKind(queue, true)
      ensures OfKind(queue, false) == OfKind(old(queue), false)
    {
      found, ev := TakeKind(true);
    }

    /** `cgt_get_key`: take the first key event out of the queue. */
    method GetKey() returns (found: bool, ch: Byte)
      modifies this`queue
      ensures var k := FirstOf(old(queue), false);
        && found == (k < |old(queue)|)
        && (found ==> old(queue)[k] == Key(ch) && queue == old(queue)[..k] + old(queue)[k + 1..])
        && (!found ==> queue == old(queue))
      ensures found ==> OfKind(old(queue), false) == [Key(ch)] + OfKind(queue, false)
      ensures OfKind(queue, true) == OfKind(old(queue), true)
    {
      var ev;
      found, ev := TakeKind(false);
      ch := if found && ev.Key? then ev.ch else NUL;
    }

    /** The loop both `cgt_get_*` functions run: the first event of the kind
        is erased from the queue. */
    method TakeKind(mouse: bool) returns (found: bool, ev: Event)
      modifies this`queue
      ensures var k := FirstOf(old(queue), mouse);
        && found == (k < |old(queue)|)
        && (found ==> ev == old(queue)[k] && ev.IsMouse() == mouse && queue == old(queue)[..k] + old(queue)[k + 1..])
        && (!found ==> queue == old(queue))
      ensures found ==> OfKind(old(queue), mouse) == [ev] + OfKind(queue, mouse)
      ensures OfKind(queue, !mouse) == OfKind(old(queue), !mouse)
      ensures !found ==> OfKind(queue, mouse) == []
    {
      var k := 0;
      while k < |queue|
        invariant 0 <= k <= |queue| && queue == old(queue)
        invariant forall t :: 0 <= t < k ==> queue[t].IsMouse() != mouse
      {
        if queue[k].IsMouse() == mouse {
          FirstOfAt(queue, mouse, k);
          TakeAt(queue, mouse);
          ev := queue[k];
          queue := queue[..k] + queue[k + 1..];
          return true, ev;
        }
        k := k + 1;
      }
      FirstOfAt(queue, mouse, |queue|);
      OfKindNone(queue, mouse);
      return false, Key(NUL);
    }

    // -------------------------------------------------------------------
    // Output

    /** `cgt_set_color`. */
    method SetColor(foreground: int, background: int)
      modifies this`fg, this`bg, this`out
      ensures var e := Render.SetColor(old(Cache()), foreground, background);
        Cache() == e.cache && out == old(out) + e.emitted
    {
      if foreground == fg && background == bg {
        assert out == out + [];
        return;
      }
      out := out + [Render.Sgr([Render.AnsiFg(foreground), Render.AnsiBg(background)])];
      fg := foreground;
      bg := background;
    }

    /** `cgt_reset_color`. */
    method ResetColor()
      modifies this`fg, this`bg, this`out
      ensures var e := Render.ResetColor(old(Cache()));
        Cache() == e.cache && out == old(out) + e.emitted
    {
      out := out + [Render.Sgr([0])];
      fg, bg := -1, -1;
    }

    /** `cgt_clear_screen`. */
    method ClearScreen(colour: int)
      modifies this`fg, this`bg, this`curX, this`curY, this`out
      ensures var e := Render.ClearScreen(old(Cache()), colour);
        Cache() == e.cache && out == old(out) + e.emitted
    {
      out := out + [Render.Sgr([Render.AnsiBg(colour)])];
      out := out + [Render.EraseDisplay, Render.CursorHome, Render.Sgr([0])];
      fg, bg := -1, -1;
      curX, curY := 0, 0;
    }

    /** `cgt_gotoxy`. */
    method GotoXY(x: int, y: int)
      modifies this`curX, this`curY, this`out
      ensures var e := Render.GotoXY(old(Cache()), x, y);
        Cache() == e.cache && out == old(out) + e.emitted
    {
      var currentX, currentY := curX, curY;
      var tx, ty := x, y;
      if tx == -1 { tx := if currentX == -1 then 0 else currentX; }
      if ty == -1 { ty := if currentY == -1 then 0 else currentY; }
      if tx == currentX && ty == currentY {
        assert out == out + [];
        return;
      }
      out := out + [Render.CursorPosition(ty + 1, tx + 1)];
      curX, curY := tx, ty;
    }

    /** The tail every print function shares: write the text, then move the
        cached column past it when it is known. */
    method Emit(text: seq<Byte>)
      modifies this`curX, this`out
      ensures Cache() == Render.Advance(old(Cache()), |text|)
      ensures out == old(out) + [Render.Text(text)]
    {
      out := out + [Render.Text(text)];
      if curX != -1 {
        curX := curX + |text|;
      }
    }

    /** The print functions: colour, move, write, advance. */
    method Print(text: seq<Byte>, x: int, y: int, foreground: int, background: int)
      modifies this`fg, this`bg, this`curX, this`curY, this`out
      ensures var e := Render.Print(old(Cache()), text, x, y, foreground, background);
        Cache() == e.cache && out == old(out) + e.emitted
    {
      SetColor(foreground, background);
      ghost var afterColour := out;
      GotoXY(x, y);
      ghost var afterMove := out;
      Emit(text);
      SeqAssoc(old(out), afterColour[|old(out)|..], afterMove[|afterColour|..]);
    }

    /** `cgt_print_str`: the text is the C string up to its NUL. */
    method PrintStr(str: seq<Byte>, x: int, y: int, foreground: int, background: int)
      modifies this`fg, this`bg, this`curX, this`curY, this`out
      ensures var e := Render.Print(old(Cache()), UpToNul(str), x, y, foreground, background);
        Cache() == e.cache && out == old(out) + e.emitted
    {
      Print(UpToNul(str), x, y, foreground, background);
    }

    /** `cgt_print_char`: one byte, advancing one column. */
    method PrintChar(ch: Byte, x: int, y: int, foreground: int, background: int)
      modifies this`fg, this`bg, this`curX, this`curY, this`out
      ensures var e := Render.Print(old(Cache()), [ch], x, y, foreground, background);
        Cache() == e.cache && out == old(out) + e.emitted
    {
      Print([ch], x, y, foreground, background);
    }

    /** `cgt_print_int`: the `%d` text, advancing by the count `printf`
        returns. */
    method PrintInt(num: int, x: int, y: int, foreground: int, background: int)
      modifies this`fg, this`bg, this`curX, this`curY, this`out
      ensures var e := Render.Print(old(Cache()), Decimal(num), x, y, foreground, background);
        Cache() == e.cache && out == old(out) + e.emitted
    {
      Print(Decimal(num), x, y, foreground, background);
    }

    /** `cgt_getxy` with the bytes its polling loop collected (at most 127):
        when the reply parses, the cell is returned and cached; otherwise the
        cache and the C function's out-parameters are left alone. The bytes
        are consumed either way: nothing reaches the input buffer or the
        queue. */
    method GetXY(reply: seq<Byte>) returns (found: bool, x: int, y: int)
      requires |reply| <= 127
      modifies this`curX, this`curY, this`out
      ensures out == old(out) + [Render.ReportCursor]
      ensures found == CursorReply(reply).Some?
      ensures found ==> Render.Pos(x, y) == CursorReply(reply).value && curX == x && curY == y
      ensures !found ==> curX == old(curX) && curY == old(curY)
    {
      out := out + [Render.ReportCursor];
      var r := CursorReply(reply);
      found := r.Some?;
      x, y := 0, 0;
      if found {
        x, y := r.value.x, r.value.y;
        curX, curY := x, y;
      }
    }
  }

  /** FirstOf finds k when k is the first index of the kind. */
  lemma {:induction false} FirstOfAt(q: seq<Event>, mouse: bool, k: nat)
    requires k <= |q| && (k < |q| ==> q[k].IsMouse() == mouse)
    requires forall t :: 0 <= t < k ==> q[t].IsMouse() != mouse
    ensures FirstOf(q, mouse) == k
  {
  }
}
