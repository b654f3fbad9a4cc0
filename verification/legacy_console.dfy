/** The input side of the older terminal layer (cgt_linux.cpp): the 256-byte
    NUL-terminated partial-input string the parser's leftovers are kept in,
    the event queue, and the way `cgt_getxy` finds the last cursor report
    among the bytes it collected and feeds everything around it back to the
    parser. The parser loop here is the corrected one of `LegacyDecoder`: a
    stray ESC is dropped instead of stalling the loop. */
module LegacyConsole {
  import opened Bytes
  import opened Events
  import opened Scan
  import opened LegacyDecoder
  import Console

  /** `sizeof(__cgt_partial_input_buffer)` and of `cgt_getxy`'s local buffer. */
  const PartialSize := 256
  /** The most one `read` in `__cgt_read_input_to_buffer` asks for. */
  const ReadChunk := 63

  /** What a parse of some bytes leaves: the bytes `strcat`/`strncat` append
      to the partial string, and the events queued. */
  datatype Refed = Refed(pending: seq<Byte>, events: seq<Event>)

  /** `__cgt_parse_input` over s, then the C string from the first unconsumed
      byte, as the string functions that keep it see it. */
  function Reparse(s: seq<Byte>): (r: Refed)
    ensures NoNul(r.pending) && |r.pending| <= |s|
  {
    var d := Decode(s, 0);
    Refed(UpToNul(s[d.stop..]), d.events)
  }

  /** `__cgt_read_input_to_buffer`: the partial string `text` with the C
      string of the bytes one `read` returned appended (none when it returned
      nothing), parsed from the start; what is left becomes the new partial
      string. */
  function ReadInput(text: seq<Byte>, input: seq<Byte>): (r: Refed)
  {
    Reparse(text + UpToNul(input))
  }

  /** After a read, the partial string is exactly the suffix the parser did
      not consume, and it is either empty or starts with a token that must
      wait for more bytes. */
  lemma {:induction false} ReadInputShape(text: seq<Byte>, input: seq<Byte>)
    requires NoNul(text)
    ensures var s := text + UpToNul(input);
      var d := Decode(s, 0);
      var r := ReadInput(text, input);
      && r.pending == s[d.stop..] && r.events == d.events
      && (r.pending == [] || FixedStep(s, d.stop).Wait?)
  {
    var s := text + UpToNul(input);
    var d := Decode(s, 0);
    assert NoNul(s) by {
      forall t | 0 <= t < |s| ensures s[t] != NUL {
        if t >= |text| { assert s[t] == UpToNul(input)[t - |text|]; }
      }
    }
    assert NoNul(s[d.stop..]);
    UpToNulOfNoNul(s[d.stop..]);
    DecodeStopsAtWait(s, 0);
  }

  // ---------------------------------------------------------------------
  // Finding the cursor report

  /** The backward scan from k: it moves towards the start of the buffer until
      it sits on b or on index 0 (cgt_linux.cpp:462, 466). */
  function ScanBack(s: seq<Byte>, k: nat, b: Byte): (q: nat)
    requires k < |s|
    ensures q <= k && (q == 0 || s[q] == b)
    ensures forall u :: q < u <= k ==> s[u] != b
    decreases k
  {
    if k == 0 || s[k] == b then k else ScanBack(s, k - 1, b)
  }

  /** Where the report sits in the collected bytes (from its ESC to just past
      its 'R') and the 0-indexed cell it names. */
  datatype Found = Found(start: nat, end: nat, x: int, y: int)

  /** The report search of `cgt_getxy` in the C string t: the last 'R', the
      ';' before it, a `%d` after that ';', the '[' before the ';', an ESC
      right before the '[', and a `%d` after the '['. An 'R' at index 0 makes
      the C code read before its buffer; that case is taken as no report. */
  function Locate(t: seq<Byte>): (r: Option<Found>)
    ensures r.Some? ==> r.value.start < r.value.end <= |t|
  {
    match LastIndex(t, UPPER_R)
    case None => None
    case Some(p) => if p == 0 then None else AtSemicolon(t, p, ScanBack(t, p - 1, SEMICOLON))
  }

  /** The search once the backward scan for ';' from before the 'R' at p
      stopped at q. */
  function AtSemicolon(t: seq<Byte>, p: nat, q: nat): (r: Option<Found>)
    requires q < p < |t|
    ensures r.Some? ==> r.value.start < r.value.end == p + 1
  {
    if t[q] != SEMICOLON then None
    else match ScanInt(t, q + 1)
      case None => None
      case Some(col) => AtBracket(t, p, col.value, ScanBack(t, q, LBRACKET))
  }

  /** The search once the column was read and the backward scan for '['
      stopped at o. */
  function AtBracket(t: seq<Byte>, p: nat, col: int, o: nat): (r: Option<Found>)
    requires o < p < |t|
    ensures r.Some? ==> r.value.start < r.value.end == p + 1
  {
    if t[o] == LBRACKET && o > 0 && t[o - 1] == ESC then
      match ScanInt(t, o + 1)
      case None => None
      case Some(row) => Some(Found(o - 1, p + 1, col - 1, row.value - 1))
    else None
  }

  /** What `cgt_getxy` does with the bytes b it collected: the report it
      found, the new partial string and the events queued. Around a report,
      the bytes after it are parsed first and the bytes before it second, and
      the leftovers are appended in that order; with no report, everything
      is parsed. */
  datatype Reply = Reply(report: Option<Found>, pending: seq<Byte>, events: seq<Event>)

  function Refeed(b: seq<Byte>): (r: Reply)
    ensures NoNul(r.pending) && |r.pending| <= |b|
  {
    match Locate(UpToNul(b))
    case Some(f) =>
      var after, before := Reparse(b[f.end..]), Reparse(b[..f.start]);
      Reply(Some(f), after.pending + before.pending, after.events + before.events)
    case None =>
      var all := Reparse(b);
      Reply(None, all.pending, all.events)
  }

  /** A scan back passes over bytes that are not b. */
  lemma {:induction false} ScanBackSkip(s: seq<Byte>, lo: nat, k: nat, b: Byte)
    requires lo <= k < |s| && forall u :: lo < u <= k ==> s[u] != b
    ensures ScanBack(s, k, b) == ScanBack(s, lo, b)
    decreases k - lo
  {
    if k > lo {
      ScanBackSkip(s, lo, k - 1, b);
    }
  }

  /** A reply with the numerals r and c sits in s with its ESC at i, and no
      'R' follows it. */
  predicate LaidOut(s: seq<Byte>, i: nat, r: seq<Byte>, c: seq<Byte>) {
    var e1 := i + 2 + |r|;
    var e2 := e1 + 1 + |c|;
    && e2 < |s| && s[i] == ESC && s[i + 1] == LBRACKET
    && s[i + 2..e1] == r && s[e1] == SEMICOLON
    && s[e1 + 1..e2] == c && s[e2] == UPPER_R
    && (forall u :: i + 1 < u < e1 ==> s[u] != LBRACKET)
    && (forall u :: e1 < u < e2 ==> s[u] != SEMICOLON)
    && (forall u :: e2 < u < |s| ==> s[u] != UPPER_R)
  }

  /** The search succeeds on a cursor report for (row, col) laid out in s
      with its ESC at i, its ';' at e1 and its 'R' at e2. */
  lemma {:induction false} LocateLayout(s: seq<Byte>, i: nat, e1: nat, e2: nat, row: int, col: int)
    requires LaidOut(s, i, Decimal(row), Decimal(col))
    requires e1 == i + 2 + |Decimal(row)| && e2 == e1 + 1 + |Decimal(col)|
    ensures Locate(s) == Some(Found(i, e2 + 1, col - 1, row - 1))
  {
    LayoutBacks(s, i, e1, e2, Decimal(row), Decimal(col));
    LayoutCol(s, i, e1, e2, row, col);
    LayoutRow(s, i, e1, e2, row, col);
    LayoutFound(s, i, e1, e2, row, col);
  }

  /** What the backward scans and `strrchr` find on such a layout. */
  lemma {:induction false} LayoutBacks(s: seq<Byte>, i: nat, e1: nat, e2: nat, r: seq<Byte>, c: seq<Byte>)
    requires LaidOut(s, i, r, c) && e1 == i + 2 + |r| && e2 == e1 + 1 + |c|
    ensures LastIndex(s, UPPER_R) == Some(e2)
    ensures ScanBack(s, e2 - 1, SEMICOLON) == e1 && ScanBack(s, e1, LBRACKET) == i + 1
  {
    LastIndexAt(s, UPPER_R, e2);
    ScanBackSkip(s, e1, e2 - 1, SEMICOLON);
    ScanBackSkip(s, i + 1, e1, LBRACKET);
  }

  /** What the `%d` conversion of the column reads on such a layout. */
  lemma {:induction false} LayoutCol(s: seq<Byte>, i: nat, e1: nat, e2: nat, row: int, col: int)
    requires LaidOut(s, i, Decimal(row), Decimal(col))
    requires e1 == i + 2 + |Decimal(row)| && e2 == e1 + 1 + |Decimal(col)|
    ensures ScanInt(s, e1 + 1) == Some(Field(col, e2))
  {
    ScanIntDecimal(s, e1 + 1, e2, col);
  }

  /** What the `%d` conversion of the row reads on such a layout. */
  lemma {:induction false} LayoutRow(s: seq<Byte>, i: nat, e1: nat, e2: nat, row: int, col: int)
    requires LaidOut(s, i, Decimal(row), Decimal(col))
    requires e1 == i + 2 + |Decimal(row)| && e2 == e1 + 1 + |Decimal(col)|
    ensures ScanInt(s, i + 2) == Some(Field(row, e1))
  {
    ScanIntDecimal(s, i + 2, e1, row);
  }

  /** The search assembles what its scans read. */
  lemma {:induction false} LayoutFound(s: seq<Byte>, i: nat, e1: nat, e2: nat, row: int, col: int)
    requires i + 1 < e1 < e2 < |s| && s[i] == ESC && s[i + 1] == LBRACKET && s[e1] == SEMICOLON
    requires LastIndex(s, UPPER_R) == Some(e2)
    requires ScanBack(s, e2 - 1, SEMICOLON) == e1 && ScanBack(s, e1, LBRACKET) == i + 1
    requires ScanInt(s, e1 + 1) == Some(Field(col, e2)) && ScanInt(s, i + 2) == Some(Field(row, e1))
    ensures Locate(s) == Some(Found(i, e2 + 1, col - 1, row - 1))
  {
    var f := Found(i, e2 + 1, col - 1, row - 1);
    AtSemicolonOf(s, e2, e1, col, i + 1, Some(f));
    LocateOf(s, e2, e1, Some(f));
  }

  /** The first stage of the search, once the last 'R' and the ';' before it
      are known. */
  lemma {:induction false} LocateOf(t: seq<Byte>, p: nat, q: nat, r: Option<Found>)
    requires 0 < p < |t| && q < p
    requires LastIndex(t, UPPER_R) == Some(p) && ScanBack(t, p - 1, SEMICOLON) == q
    requires AtSemicolon(t, p, q) == r
    ensures Locate(t) == r
  {
  }

  /** The second stage of the search, once the column and the '[' are known. */
  lemma {:induction false} AtSemicolonOf(t: seq<Byte>, p: nat, q: nat, col: int, o: nat, r: Option<Found>)
    requires o <= q < p < |t| && t[q] == SEMICOLON
    requires ScanInt(t, q + 1) == Some(Field(col, p)) && ScanBack(t, q, LBRACKET) == o
    requires AtBracket(t, p, col, o) == r
    ensures AtSemicolon(t, p, q) == r
  {
  }

  /** Where the pieces of a reply sit after `pre`. */
  lemma {:induction false} ReplyAt(pre: seq<Byte>, r: seq<Byte>, c: seq<Byte>)
    requires Numeral(r) && Numeral(c)
    ensures |Console.ReportBytes(r, c)| == |r| + |c| + 4
    ensures LaidOut(pre + Console.ReportBytes(r, c), |pre|, r, c)
  {
    var rep := Console.ReportBytes(r, c);
    var s := pre + rep;
    var i := |pre|;
    var e1 := i + 2 + |r|;
    var e2 := e1 + 1 + |c|;
    Console.ReplyLayout(r, c);
    Console.Shifted(pre, rep, 2, 2 + |r|);
    Console.Shifted(pre, rep, 3 + |r|, 3 + |r| + |c|);
    forall u | i + 1 < u < e1 ensures s[u] != LBRACKET {
      assert s[u] == rep[u - i];
    }
    forall u | e1 < u < e2 ensures s[u] != SEMICOLON {
      assert s[u] == s[e1 + 1..e2][u - e1 - 1];
    }
  }

  /** Bytes with no 'R' after a laid-out reply keep it laid out. */
  lemma {:induction false} LaidOutExtend(s: seq<Byte>, post: seq<Byte>, i: nat, r: seq<Byte>, c: seq<Byte>)
    requires LaidOut(s, i, r, c) && forall u :: 0 <= u < |post| ==> post[u] != UPPER_R
    ensures LaidOut(s + post, i, r, c)
  {
    var t := s + post;
    var e1 := i + 2 + |r|;
    var e2 := e1 + 1 + |c|;
    assert t[i + 2..e1] == s[i + 2..e1];
    assert t[e1 + 1..e2] == s[e1 + 1..e2];
    forall u | e2 < u < |t| ensures t[u] != UPPER_R {
      if u >= |s| {
        assert t[u] == post[u - |s|];
      }
    }
  }

  /** A cursor report followed by bytes with no 'R' is found, whatever came
      before it: its span and the cell (col - 1, row - 1). */
  lemma {:induction false} LocateRoundTrip(pre: seq<Byte>, row: int, col: int, post: seq<Byte>)
    requires forall u :: 0 <= u < |post| ==> post[u] != UPPER_R
    ensures Locate(pre + Console.CursorReport(row, col) + post)
      == Some(Found(|pre|, |pre + Console.CursorReport(row, col)|, col - 1, row - 1))
  {
    var r, c := Decimal(row), Decimal(col);
    var rep := Console.CursorReport(row, col);
    var s := pre + rep + post;
    var e1 := |pre| + 2 + |r|;
    var e2 := e1 + 1 + |c|;
    DecimalBytes(row);
    DecimalBytes(col);
    assert LaidOut(s, |pre|, r, c) && |pre + rep| == e2 + 1 by {
      ReplyAt(pre, r, c);
      LaidOutExtend(pre + rep, post, |pre|, r, c);
    }
    LocateLayout(s, |pre|, e1, e2, row, col);
    assert Found(|pre|, e2 + 1, col - 1, row - 1) == Found(|pre|, |pre + rep|, col - 1, row - 1);
  }

  /** A reply between two C strings leaves a C string. */
  lemma {:induction false} ReplyNoNul(pre: seq<Byte>, row: int, col: int, post: seq<Byte>)
    requires NoNul(pre) && NoNul(post)
    ensures NoNul(pre + Console.CursorReport(row, col) + post)
  {
    var rep := Console.CursorReport(row, col);
    var s := pre + rep + post;
    DecimalBytes(row);
    DecimalBytes(col);
    Console.ReplyLayout(Decimal(row), Decimal(col));
    forall u | 0 <= u < |s| ensures s[u] != NUL {
      if u < |pre| {
        assert s[u] == pre[u];
      } else if u >= |pre + rep| {
        assert s[u] == post[u - |pre + rep|];
      } else {
        assert s[u] == rep[u - |pre|];
      }
    }
  }

  /** Around a report, the bytes after it are parsed and queued before the
      bytes before it, and their leftovers are kept in the same order. */
  lemma {:induction false} RefeedAround(pre: seq<Byte>, row: int, col: int, post: seq<Byte>)
    requires NoNul(pre) && NoNul(post) && forall u :: 0 <= u < |post| ==> post[u] != UPPER_R
    ensures var rep := Console.CursorReport(row, col);
      var after, before := Reparse(post), Reparse(pre);
      Refeed(pre + rep + post)
        == Reply(Some(Found(|pre|, |pre + rep|, col - 1, row - 1)),
                 after.pending + before.pending, after.events + before.events)
  {
    var rep := Console.CursorReport(row, col);
    var s := pre + rep + post;
    var f := Found(|pre|, |pre + rep|, col - 1, row - 1);
    assert UpToNul(s) == s by {
      ReplyNoNul(pre, row, col, post);
      UpToNulOfNoNul(s);
    }
    assert Locate(s) == Some(f) by {
      LocateRoundTrip(pre, row, col, post);
    }
    Sides(pre, rep, post);
    RefeedSplit(s, pre, post, f);
  }

  /** `Refeed` of a C string in which the search found f between pre and
      post. */
  lemma {:induction false} RefeedSplit(s: seq<Byte>, pre: seq<Byte>, post: seq<Byte>, f: Found)
    requires UpToNul(s) == s && Locate(s) == Some(f)
    requires f.end <= |s| && s[f.end..] == post && s[..f.start] == pre
    ensures Refeed(s) == Reply(Some(f), Reparse(post).pending + Reparse(pre).pending,
                               Reparse(post).events + Reparse(pre).events)
  {
  }

  /** `Refeed` when the search found f. */
  lemma {:induction false} RefeedFound(b: seq<Byte>, f: Found)
    requires Locate(UpToNul(b)) == Some(f)
    ensures f.start <= f.end <= |b|
    ensures Refeed(b) == Reply(Some(f), Reparse(b[f.end..]).pending + Reparse(b[..f.start]).pending,
                               Reparse(b[f.end..]).events + Reparse(b[..f.start]).events)
  {
  }

  /** Nothing to parse leaves nothing. */
  lemma {:induction false} ReparseEmpty(s: seq<Byte>)
    requires s == []
    ensures Reparse(s) == Refed([], [])
  {
    assert Decode(s, 0) == Decoded(0, []);
  }

  /** With no 'R' in the C string, everything collected is parsed. */
  lemma {:induction false} RefeedNoReport(b: seq<Byte>)
    requires forall u :: 0 <= u < |UpToNul(b)| ==> UpToNul(b)[u] != UPPER_R
    ensures Refeed(b) == Reply(None, Reparse(b).pending, Reparse(b).events)
  {
  }

  /** A single plain byte is one key and leaves nothing. */
  lemma {:induction false} ReparseKey(b: Byte)
    requires b != ESC && b != NUL
    ensures Reparse([b]) == Refed([], [Key(if b == CR then LF else b)])
  {
    DecodeKey([b], 0);
    assert Decode([b], 1) == Decoded(1, []);
    assert [b][1..] == [];
  }

  /** A key typed before the reply is queued after a key typed after it. */
  lemma {:induction false} RefeedOrderExample()
    ensures Refeed([0x61] + Console.CursorReport(3, 7) + [0x62]).events == [Key(0x62), Key(0x61)]
  {
    ReparseKey(0x61);
    ReparseKey(0x62);
    RefeedAround([0x61], 3, 7, [0x62]);
  }

  // ---------------------------------------------------------------------
  // The session

  /** A forward scan of s from k for the first byte `stop` accepts. */
  method ScanFor(s: seq<Byte>, k: int, stop: Stop) returns (p: int)
    requires 0 <= k <= |s|
    ensures p == FirstFrom(s, k, stop)
  {
    p := k;
    while p < |s| && !StopsAt(stop, s[p])
      invariant k <= p <= |s|
      invariant FirstFrom(s, k, stop) == FirstFrom(s, p, stop)
    {
      p := p + 1;
    }
  }

  /** `strlen` of a string whose terminator is at or before `bound`. */
  method CStrLen(a: array<Byte>, ghost bound: int) returns (len: int)
    requires 0 <= bound < a.Length && a[bound] == NUL
    ensures 0 <= len <= bound && a[..len] == UpToNul(a[..bound])
  {
    len := 0;
    while a[len] != NUL
      invariant 0 <= len <= bound && NoNul(a[..len])
      decreases bound - len
    {
      assert a[..len + 1] == a[..len] + [a[len]];
      len := len + 1;
    }
    if len == bound {
      UpToNulOfNoNul(a[..bound]);
    } else {
      assert a[..bound] == a[..len] + [NUL] + a[len + 1..bound];
      UpToNulTerminated(a[..len], a[len + 1..bound]);
    }
  }

  /** The backward scan of `cgt_getxy` from k down to a b or to index 0. */
  method ScanBackFor(t: seq<Byte>, k: int, b: Byte) returns (q: int)
    requires 0 <= k < |t|
    ensures q == ScanBack(t, k, b)
  {
    q := k;
    while q > 0 && t[q] != b
      invariant 0 <= q <= k
      invariant ScanBack(t, k, b) == ScanBack(t, q, b)
    {
      q := q - 1;
    }
  }

  /** The report search over the C string t the collected bytes hold. */
  method FindReport(t: seq<Byte>) returns (found: bool, f: Found)
    ensures Locate(t) == (if found then Some(f) else None)
  {
    found, f := false, Found(0, 0, 0, 0);
    var p := FindLast(t, UPPER_R);
    if p > 0 {
      var q := ScanBackFor(t, p - 1, SEMICOLON);
      found, f := FindColumn(t, p, q);
    }
  }

  /** `strrchr`: a backward scan for the last b, -1 when there is none. */
  method FindLast(t: seq<Byte>, b: Byte) returns (p: int)
    ensures -1 <= p < |t| && LastIndex(t, b) == (if p < 0 then None else Some(p))
  {
    p := |t| - 1;
    while p >= 0 && t[p] != b
      invariant -1 <= p < |t|
      invariant forall u :: p < u < |t| ==> t[u] != b
    {
      p := p - 1;
    }
    if p >= 0 {
      LastIndexAt(t, b, p);
    }
  }

  /** The part of the search after the last 'R', at p, was found and the
      ';' scan stopped at q. */
  method FindColumn(t: seq<Byte>, p: int, q: int) returns (found: bool, f: Found)
    requires 0 <= q < p < |t|
    ensures AtSemicolon(t, p, q) == (if found then Some(f) else None)
  {
    found, f := false, Found(0, 0, 0, 0);
    if t[q] == SEMICOLON {
      var col := ScanInt(t, q + 1);
      if col.Some? {
        var o := ScanBackFor(t, q, LBRACKET);
        found, f := FindBracket(t, p, col.value.value, o);
      }
    }
  }

  /** The part of the search after the column was read and the '[' scan
      stopped at o. */
  method FindBracket(t: seq<Byte>, p: int, col: int, o: int) returns (found: bool, f: Found)
    requires 0 <= o < p < |t|
    ensures AtBracket(t, p, col, o) == (if found then Some(f) else None)
  {
    found, f := false, Found(0, 0, 0, 0);
    if t[o] == LBRACKET && o > 0 && t[o - 1] == ESC {
      var row := ScanInt(t, o + 1);
      if row.Some? {
        found, f := true, Found(o - 1, p + 1, col - 1, row.value.value - 1);
      }
    }
  }

  class LegacySession {
    /** `__cgt_partial_input_buffer`. */
    var partial: array<Byte>
    /** `inputBuffer`. */
    var queue: seq<Event>

    /** The partial input, as the string functions see it. */
    ghost function Text(): seq<Byte>
      reads this, partial
    {
      UpToNul(partial[..])
    }

    ghost predicate Valid()
      reads this, partial
    {
      partial.Length == PartialSize && |Text()| < PartialSize
    }

    /** The statics before any call: an empty string and an empty queue. */
    constructor ()
      ensures Valid() && fresh(partial) && Text() == [] && queue == []
    {
      partial := new Byte[PartialSize](_ => NUL);
      queue := [];
    }

    /** One pass of the corrected parser loop over s with its index at i. */
    method ParseStep(s: seq<Byte>, i: int) returns (r: StepResult)
      requires 0 <= i < |s|
      modifies this`queue
      ensures r == FixedStep(s, i)
      ensures queue == old(queue) + (if r.Next? then r.events else [])
    {
      if s[i] == ESC {
        if i + 1 >= |s| {
          r := Wait;
        } else if s[i + 1] == LBRACKET {
          if i + 2 >= |s| {
            r := Wait;
          } else if s[i + 2] == LESS {
            r := ParseReport(s, i);
          } else {
            var j := ScanFor(s, i + 2, LetterOrTilde);
            r := if j == |s| then Wait else Next(j + 1, []);
          }
        } else {
          // The source leaves i where it is here; the ESC is dropped instead.
          r := Next(i + 1, []);
        }
      } else {
        var ev := Key(if s[i] == CR then LF else s[i]);
        queue := queue + [ev];
        r := Next(i + 1, [ev]);
      }
    }

    /** The report branch: `ESC [ <` sits at i. */
    method ParseReport(s: seq<Byte>, i: int) returns (r: StepResult)
      requires 0 <= i && i + 3 <= |s|
      modifies this`queue
      ensures r == ReportStep(s, i)
      ensures queue == old(queue) + (if r.Next? then r.events else [])
    {
      var j := ScanFor(s, i + 3, MouseFinal);
      if j == |s| {
        r := Wait;
      } else {
        var scanned := ScanReport(s, i + 3);
        if scanned.Some? {
          var ev := Classify(scanned.value);
          queue := queue + [ev];
          r := Next(j + 1, [ev]);
        } else {
          r := Next(j + 1, []);
        }
      }
    }

    /** `__cgt_parse_input` over the bytes s: the index it returns and the
        events it queues are those of `Decode`. */
    method ParseInput(s: seq<Byte>) returns (consumed: int)
      modifies this`queue
      ensures var d := Decode(s, 0);
        consumed == d.stop && queue == old(queue) + d.events
    {
      ghost var whole := Decode(s, 0);
      ghost var done: seq<Event> := [];
      AppendNil(whole.events);
      var i := 0;
      while i < |s|
        invariant 0 <= i <= |s| && queue == old(queue) + done
        invariant var rest := Decode(s, i);
          whole == Decoded(rest.stop, done + rest.events)
        decreases |s| - i
      {
        var r := ParseStep(s, i);
        if r.Wait? {
          assert Decode(s, i) == Decoded(i, []);
          SeqAssoc(done, [], []);
          return i;
        }
        DecodeStep(s, i, r.next, r.events);
        SeqAssoc(done, r.events, Decode(s, r.next).events);
        done := done + r.events;
        i := r.next;
      }
      SeqAssoc(done, [], []);
      return i;
    }

    /** `strlen(__cgt_partial_input_buffer)`. */
    method Strlen() returns (len: int)
      requires Valid()
      ensures len == |Text()| && partial[..len] == Text()
    {
      len := CStrLen(partial, |Text()|);
      UpToNulOfNoNul(Text());
    }

    /** `strcat` onto the partial string: the C string of src is appended.
        The C function does not check the 256-byte bound; the caller must. */
    method AppendC(src: seq<Byte>)
      requires Valid() && |Text()| + |UpToNul(src)| < PartialSize
      modifies partial
      ensures Valid() && Text() == old(Text()) + UpToNul(src)
    {
      ghost var text := Text();
      ghost var add := UpToNul(src);
      var k := Strlen();
      var i := 0;
      AppendNil(text);
      while i < |src| && src[i] != NUL
        invariant 0 <= i <= |src| && i <= |add|
        invariant add[..i] == src[..i]
        invariant partial[..k + i] == text + src[..i]
        decreases |src| - i
      {
        partial[k + i] := src[i];
        assert src[..i + 1] == src[..i] + [src[i]];
        i := i + 1;
      }
      assert add == src[..i] by {
        assert NoNul(src[..i]) by {
          assert add[..i] == src[..i];
        }
        UpToNulAt(src, i);
      }
      partial[k + i] := NUL;
      assert partial[..][..k + i] == text + add;
      NoNulAppend(text, add);
      UpToNulAt(partial[..], k + i);
    }

    /** `__cgt_read_input_to_buffer` with the bytes one `read` returned (none
        when there was no data). */
    method ReadInputToBuffer(input: seq<Byte>)
      requires Valid() && |input| <= ReadChunk
      requires |Text()| + |UpToNul(input)| < PartialSize
      modifies this`queue, partial
      ensures Valid()
      ensures var r := ReadInput(old(Text()), input);
        Text() == r.pending && queue == old(queue) + r.events
    {
      if |input| > 0 {
        AppendC(input);
      } else {
        AppendNil(Text());
      }
      ParsePartial();
    }

    /** The parse of the whole partial string and the keeping of what it
        left. */
    method ParsePartial()
      requires Valid()
      modifies this`queue, partial
      ensures Valid()
      ensures var r := Reparse(old(Text()));
        Text() == r.pending && queue == old(queue) + r.events
    {
      ghost var s := Text();
      var total := Strlen();
      if total == 0 {
        ReparseEmpty(s);
        AppendNil(queue);
        SeqAssoc(queue, [], []);
      } else {
        var consumed := ParseInput(partial[..total]);
        Keep(consumed, total);
        UpToNulOfNoNul(s[consumed..]);
      }
    }

    /** The `memmove` of the unconsumed bytes to the front and the new
        terminator, or the emptying of the string when nothing is left. */
    method Keep(consumed: int, total: int)
      requires Valid() && total == |Text()| && 0 <= consumed <= total
      modifies partial
      ensures Valid() && Text() == old(Text())[consumed..]
    {
      ghost var text := Text();
      assert partial[..total] == text;
      if consumed < total {
        forall t | 0 <= t < total - consumed {
          partial[t] := partial[consumed + t];
        }
        partial[total - consumed] := NUL;
        assert partial[..] == text[consumed..] + [NUL] + partial[total - consumed + 1..];
        UpToNulTerminated(text[consumed..], partial[total - consumed + 1..]);
      } else {
        partial[0] := NUL;
        assert partial[..] == [] + [NUL] + partial[1..];
        UpToNulTerminated([], partial[1..]);
      }
    }

    /** `cgt_getxy` once its polling loop has collected `more` after the
        partial string: the cell of the report it found, or (0, 0). */
    method GetXY(more: seq<Byte>) returns (x: int, y: int)
      requires Valid() && |Text()| + |more| < PartialSize
      modifies this`queue, partial
      ensures Valid()
      ensures var r := Refeed(old(Text()) + more);
        && Text() == r.pending && queue == old(queue) + r.events
        && (r.report.Some? ==> x == r.report.value.x && y == r.report.value.y)
        && (r.report.None? ==> x == 0 && y == 0)
    {
      var buf, bytesRead := Collect(more);
      var len := CStrLen(buf, bytesRead);
      var b, t := buf[..bytesRead], buf[..len];
      var found, f := FindReport(t);
      x, y := 0, 0;
      if found {
        x, y := f.x, f.y;
        FeedReport(b, f);
      } else {
        FeedAll(b);
      }
    }

    /** The re-feed when the search found f in the collected bytes b. */
    method FeedReport(b: seq<Byte>, f: Found)
      requires Valid() && Text() == [] && |b| < PartialSize
      requires Locate(UpToNul(b)) == Some(f)
      modifies this`queue, partial
      ensures Valid()
      ensures var r := Refeed(b);
        r.report == Some(f) && Text() == r.pending && queue == old(queue) + r.events
    {
      RefeedFound(b, f);
      FeedAround(b, f);
    }

    /** The re-feed around the report at f in b: first the bytes after it,
        then the bytes before it. */
    method FeedAround(b: seq<Byte>, f: Found)
      requires Valid() && Text() == [] && |b| < PartialSize && f.start <= f.end <= |b|
      modifies this`queue, partial
      ensures Valid()
      ensures var after, before := Reparse(b[f.end..]), Reparse(b[..f.start]);
        Text() == after.pending + before.pending && queue == old(queue) + (after.events + before.events)
    {
      FeedRest(b[f.end..]);
      AppendNil(Reparse(b[f.end..]).pending);
      FeedRest(b[..f.start]);
      SeqAssoc(old(queue), Reparse(b[f.end..]).events, Reparse(b[..f.start]).events);
    }

    /** A parse of s when s is not empty, and its leftover appended. */
    method FeedRest(s: seq<Byte>)
      requires Valid() && |Text()| + |s| < PartialSize
      modifies this`queue, partial
      ensures Valid()
      ensures var r := Reparse(s);
        Text() == old(Text()) + r.pending && queue == old(queue) + r.events
    {
      if |s| > 0 {
        var consumed := ParseInput(s);
        if consumed < |s| {
          AppendC(s[consumed..]);
        } else {
          AppendNil(Text());
        }
      } else {
        ReparseEmpty(s);
        AppendNil(Text());
        SeqAssoc(queue, [], []);
      }
    }

    /** With no report, everything collected is parsed. */
    method FeedAll(b: seq<Byte>)
      requires Valid() && Text() == [] && |b| < PartialSize
      requires Locate(UpToNul(b)).None?
      modifies this`queue, partial
      ensures Valid()
      ensures var r := Refeed(b);
        r.report.None? && Text() == r.pending && queue == old(queue) + r.events
    {
      FeedRest(b);
      AppendNil(Text());
    }

    /** The local buffer of `cgt_getxy`: the partial string, which is then
        emptied, followed by the bytes read. */
    method Collect(more: seq<Byte>) returns (buf: array<Byte>, bytesRead: int)
      requires Valid() && |Text()| + |more| < PartialSize
      modifies partial
      ensures Valid() && Text() == [] && fresh(buf)
      ensures buf.Length == PartialSize && 0 <= bytesRead < PartialSize && buf[bytesRead] == NUL
      ensures buf[..bytesRead] == old(Text()) + more
    {
      ghost var text := Text();
      buf := new Byte[PartialSize](_ => NUL);
      var n := Strlen();
      forall t | 0 <= t < n {
        buf[t] := partial[t];
      }
      forall t | 0 <= t < |more| {
        buf[n + t] := more[t];
      }
      bytesRead := n + |more|;
      assert buf[..bytesRead] == text + more;
      if n > 0 {
        partial[0] := NUL;
        assert partial[..] == [] + [NUL] + partial[1..];
        UpToNulTerminated([], partial[1..]);
      }
    }
  }
}
