/** The render cache of the optimised terminal layer (src/cgt_linux.cpp): the
    colour pair and cursor cell the layer believes the terminal shows, and the
    control sequences each drawing call emits given that belief. Output is a
    log of tokens, one per escape sequence or piece of text. */
module Render {
  import opened Bytes

  // ---------------------------------------------------------------------
  // Colour tables

  /** The sixteen colours of cgt.h, numbered in the order the colour tables
      list them. cgt.h is not part of this model; the tables only need the
      sixteen values to be distinct. */
  const Black := 0
  const Red := 1
  const Green := 2
  const Yellow := 3
  const Blue := 4
  const Magenta := 5
  const Cyan := 6
  const White := 7
  const LightBlack := 8
  const LightWhite := 15

  predicate IsNamedColour(colour: int) { Black <= colour <= LightWhite }

  /** `cgt_color_to_ansi_fg`: the SGR foreground code of a colour. Unknown
      colours fall back to 37, the code of White. */
  function AnsiFg(colour: int): (code: int)
    ensures 30 <= code <= 37 || 90 <= code <= 97
    ensures !IsNamedColour(colour) ==> code == 37
  {
    match colour
    case 0 => 30 case 1 => 31 case 2 => 32 case 3 => 33
    case 4 => 34 case 5 => 35 case 6 => 36 case 7 => 37
    case 8 => 90 case 9 => 91 case 10 => 92 case 11 => 93
    case 12 => 94 case 13 => 95 case 14 => 96 case 15 => 97
    case _ => 37
  }

  /** `cgt_color_to_ansi_bg`: the SGR background code of a colour. Unknown
      colours fall back to 40, the code of Black. */
  function AnsiBg(colour: int): (code: int)
    ensures 40 <= code <= 47 || 100 <= code <= 107
    ensures !IsNamedColour(colour) ==> code == 40
  {
    match colour
    case 0 => 40 case 1 => 41 case 2 => 42 case 3 => 43
    case 4 => 44 case 5 => 45 case 6 => 46 case 7 => 47
    case 8 => 100 case 9 => 101 case 10 => 102 case 11 => 103
    case 12 => 104 case 13 => 105 case 14 => 106 case 15 => 107
    case _ => 40
  }

  /** The two tables agree: a named colour's background code is its
      foreground code plus ten, the low eight colours use the normal range and
      the high eight the bright range, and no two named colours share a code. */
  lemma {:induction false} AnsiTables(c: int, d: int)
    requires IsNamedColour(c) && IsNamedColour(d)
    ensures AnsiBg(c) == AnsiFg(c) + 10
    ensures (c < LightBlack <==> AnsiFg(c) < 90)
    ensures AnsiFg(c) == AnsiFg(d) ==> c == d
    ensures AnsiBg(c) == AnsiBg(d) ==> c == d
  {
  }

  // ---------------------------------------------------------------------
  // Output tokens and what the terminal shows after them

  datatype Token =
    | Sgr(params: seq<int>)               // ESC [ p ; ... m   select graphic rendition
    | EraseDisplay                        // ESC [ 2 J
    | CursorHome                          // ESC [ H
    | CursorPosition(row: int, col: int)  // ESC [ row ; col H, 1-indexed
    | ReportCursor                        // ESC [ 6 n         device status report
    | Text(bytes: seq<Byte>)

  /** A 0-indexed cell. */
  datatype Pos = Pos(x: int, y: int)

  /** What the terminal shows that the cache is about: the parameters of the
      last SGR sequence and the cursor cell, each unknown until output fixes
      it. Text moves the cursor right by its length. */
  datatype Screen = Screen(sgr: Option<seq<int>>, cursor: Option<Pos>)

  const Unseen: Screen := Screen(None, None)

  function Apply(s: Screen, t: Token): Screen {
    match t
    case Sgr(params) => s.(sgr := Some(params))
    case CursorHome => s.(cursor := Some(Pos(0, 0)))
    case CursorPosition(row, col) => s.(cursor := Some(Pos(col - 1, row - 1)))
    case Text(bytes) =>
      if s.cursor.Some? then s.(cursor := Some(Pos(s.cursor.value.x + |bytes|, s.cursor.value.y)))
      else s
    case _ => s
  }

  /** The screen after a token log, applied in order. */
  function Run(s: Screen, log: seq<Token>): Screen
    decreases |log|
  {
    if log == [] then s else Apply(Run(s, log[..|log| - 1]), log[|log| - 1])
  }

  /** Output written in two pieces shows the same as output written at once. */
  lemma {:induction false} RunAppend(s: Screen, a: seq<Token>, b: seq<Token>)
    ensures Run(s, a + b) == Run(Run(s, a), b)
    decreases |b|
  {
    if b != [] {
      var init := b[..|b| - 1];
      assert (a + b)[..|a + b| - 1] == a + init;
      RunAppend(s, a, init);
    } else {
      assert a + b == a;
    }
  }

  // ---------------------------------------------------------------------
  // The cache and the drawing calls

  /** `-1`, the cache's value for "not known". */
  const Unknown: int := -1

  /** `_g_cur_fg`, `_g_cur_bg`, `_g_cur_x`, `_g_cur_y`. */
  datatype Cache = Cache(fg: int, bg: int, x: int, y: int)

  const Fresh: Cache := Cache(Unknown, Unknown, Unknown, Unknown)

  /** A drawing call's new cache and the tokens it writes. */
  datatype Effect = Effect(cache: Cache, emitted: seq<Token>)

  /** `cgt_set_color`. */
  function SetColor(c: Cache, fg: int, bg: int): Effect {
    if fg == c.fg && bg == c.bg then Effect(c, [])
    else Effect(c.(fg := fg, bg := bg), [Sgr([AnsiFg(fg), AnsiBg(bg)])])
  }

  /** `cgt_reset_color`. */
  function ResetColor(c: Cache): Effect {
    Effect(c.(fg := Unknown, bg := Unknown), [Sgr([0])])
  }

  /** `cgt_clear_screen`: paint the background, erase, home the cursor, reset
      the attributes. */
  function ClearScreen(c: Cache, colour: int): Effect {
    Effect(Cache(Unknown, Unknown, 0, 0), [Sgr([AnsiBg(colour)]), EraseDisplay, CursorHome, Sgr([0])])
  }

  /** A `cgt_gotoxy` coordinate: -1 keeps the cached one, or 0 when that is
      unknown too. */
  function Resolve(coord: int, cached: int): int {
    if coord == -1 then (if cached == Unknown then 0 else cached) else coord
  }

  /** `cgt_gotoxy`. */
  function GotoXY(c: Cache, x: int, y: int): Effect {
    var tx := Resolve(x, c.x);
    var ty := Resolve(y, c.y);
    if tx == c.x && ty == c.y then Effect(c, [])
    else Effect(c.(x := tx, y := ty), [CursorPosition(ty + 1, tx + 1)])
  }

  /** The cached column moves right by what was printed, when it is known. */
  function Advance(c: Cache, n: nat): Cache {
    if c.x != Unknown then c.(x := c.x + n) else c
  }

  /** `cgt_print_str`, `cgt_print_char` and `cgt_print_int` with the bytes
      they print: set the colour, move, write, advance. */
  function Print(c: Cache, text: seq<Byte>, x: int, y: int, fg: int, bg: int): Effect {
    var colour := SetColor(c, fg, bg);
    var move := GotoXY(colour.cache, x, y);
    Effect(Advance(move.cache, |text|), colour.emitted + move.emitted + [Text(text)])
  }

  // ---------------------------------------------------------------------
  // What the cache promises

  /** The cache describes the screen: a known colour pair is the last SGR
      written, a known cursor is where the output left the cursor, and the
      two coordinates are known or unknown together. Stated for on-screen
      cells (coordinates from -1 up), the only ones the cache can describe. */
  predicate Tracked(c: Cache, log: seq<Token>) {
    var s := Run(Unseen, log);
    && (c.x == Unknown <==> c.y == Unknown)
    && c.x >= Unknown && c.y >= Unknown
    && (c.fg != Unknown || c.bg != Unknown ==> s.sgr == Some([AnsiFg(c.fg), AnsiBg(c.bg)]))
    && (c.x != Unknown ==> s.cursor == Some(Pos(c.x, c.y)))
  }

  lemma {:induction false} FreshTracked()
    ensures Tracked(Fresh, [])
  {
  }

  /** `cgt_set_color` writes nothing only when the terminal already shows the
      requested pair, and then leaves the cache as it was; otherwise it writes
      exactly one SGR sequence. A second identical call writes nothing. */
  lemma {:induction false} SetColorSound(c: Cache, log: seq<Token>, fg: int, bg: int)
    requires Tracked(c, log)
    ensures var e := SetColor(c, fg, bg);
      && Tracked(e.cache, log + e.emitted)
      && e.cache == c.(fg := fg, bg := bg)
      && |e.emitted| <= 1
      && (e.emitted == [] && (fg != Unknown || bg != Unknown) ==>
            Run(Unseen, log).sgr == Some([AnsiFg(fg), AnsiBg(bg)]))
      && SetColor(e.cache, fg, bg) == Effect(e.cache, [])
  {
    var e := SetColor(c, fg, bg);
    if e.emitted != [] {
      ApplyOne(log, e.emitted[0]);
    } else {
      assert log + e.emitted == log;
    }
  }

  /** One token appended to a log is applied to the screen the log shows. */
  lemma {:induction false} ApplyOne(log: seq<Token>, t: Token)
    ensures Run(Unseen, log + [t]) == Apply(Run(Unseen, log), t)
  {
    assert (log + [t])[..|log|] == log;
  }

  /** `cgt_reset_color` forgets the colour pair and keeps the cursor. */
  lemma {:induction false} ResetColorSound(c: Cache, log: seq<Token>)
    requires Tracked(c, log)
    ensures var e := ResetColor(c);
      && Tracked(e.cache, log + e.emitted)
      && e.cache.fg == Unknown && e.cache.bg == Unknown
      && e.cache.x == c.x && e.cache.y == c.y
  {
    ApplyOne(log, Sgr([0]));
  }

  /** `cgt_clear_screen` forgets the colours and knows the cursor is home. */
  lemma {:induction false} ClearScreenSound(c: Cache, log: seq<Token>, colour: int)
    requires Tracked(c, log)
    ensures var e := ClearScreen(c, colour);
      && Tracked(e.cache, log + e.emitted)
      && e.cache == Cache(Unknown, Unknown, 0, 0)
      && Run(Unseen, log + e.emitted).sgr == Some([0])
  {
    var e := ClearScreen(c, colour);
    RunAppend(Unseen, log, e.emitted);
    var s := Run(Unseen, log);
    var ts := e.emitted;
    assert ts[..3] == [Sgr([AnsiBg(colour)]), EraseDisplay, CursorHome];
    assert ts[..3][..2] == [Sgr([AnsiBg(colour)]), EraseDisplay];
    assert ts[..3][..2][..1] == [Sgr([AnsiBg(colour)])];
    assert ts[..3][..2][..1][..0] == [];
  }

  /** `cgt_gotoxy` to an on-screen cell: the cache then holds the resolved
      target, nothing is written exactly when the terminal's cursor is
      already there, otherwise one 1-indexed cursor-position sequence is
      written; a second identical call writes nothing. */
  lemma {:induction false} GotoXYSound(c: Cache, log: seq<Token>, x: int, y: int)
    requires Tracked(c, log) && x >= -1 && y >= -1
    ensures var e := GotoXY(c, x, y);
      var tx, ty := Resolve(x, c.x), Resolve(y, c.y);
      && Tracked(e.cache, log + e.emitted)
      && e.cache == c.(x := tx, y := ty)
      && tx >= 0 && ty >= 0 && (x >= 0 ==> tx == x) && (y >= 0 ==> ty == y)
      && (e.emitted == [] ==> Run(Unseen, log).cursor == Some(Pos(tx, ty)))
      && (e.emitted != [] ==> e.emitted == [CursorPosition(ty + 1, tx + 1)])
      && GotoXY(e.cache, x, y) == Effect(e.cache, [])
  {
    var tx, ty := Resolve(x, c.x), Resolve(y, c.y);
    if tx == c.x && ty == c.y {
      assert GotoXY(c, x, y) == Effect(c, []);
      assert log + [] == log;
    } else {
      assert GotoXY(c, x, y) == Effect(c.(x := tx, y := ty), [CursorPosition(ty + 1, tx + 1)]);
      ApplyOne(log, CursorPosition(ty + 1, tx + 1));
    }
  }

  /** Printing keeps the cache sound and, at an explicit on-screen cell,
      leaves the cached cursor just after the printed text on the same row,
      with the text as the last token written. */
  lemma {:induction false} PrintSound(c: Cache, log: seq<Token>, text: seq<Byte>, x: int, y: int, fg: int, bg: int)
    requires Tracked(c, log) && x >= -1 && y >= -1
    ensures var e := Print(c, text, x, y, fg, bg);
      && Tracked(e.cache, log + e.emitted)
      && e.cache.fg == fg && e.cache.bg == bg
      && e.emitted[|e.emitted| - 1] == Text(text)
      && (x >= 0 && y >= 0 ==> e.cache.x == x + |text| && e.cache.y == y)
  {
    var colour := SetColor(c, fg, bg);
    SetColorSound(c, log, fg, bg);
    var log1 := log + colour.emitted;
    var move := GotoXY(colour.cache, x, y);
    GotoXYSound(colour.cache, log1, x, y);
    var log2 := log1 + move.emitted;
    TextSound(move.cache, log2, text);
    SeqAssoc(log, colour.emitted + move.emitted, [Text(text)]);
    SeqAssoc(log, colour.emitted, move.emitted);
  }

  /** Text keeps the cache sound once the known column moves past it. */
  lemma {:induction false} TextSound(c: Cache, log: seq<Token>, text: seq<Byte>)
    requires Tracked(c, log)
    ensures Tracked(Advance(c, |text|), log + [Text(text)])
  {
    ApplyOne(log, Text(text));
  }
}
