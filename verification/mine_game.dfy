/** The minesweeper game of game.cpp: the globals `rows`, `cols`,
    `mineCount` and `mine`, the board setup, the flood reveal `AutoSwitch`,
    the chord `TryChord`, and the player's side of one game as
    `ProcessGameLoop` keeps it (the marks array `userMine`, the `flag`
    counter and the `winTarget` it is compared with). Screen painting is not
    modelled. */
module MineGame {
  import opened MineGrid
  import Bytes

  // ---------------------------------------------------------------------
  // Screen coordinates.

  /** C++ `a / b` for b > 0: the quotient truncated toward zero. */
  function CDiv(a: int, b: int): int
    requires b > 0
  {
    if a >= 0 then a / b else -((-a) / b)
  }

  /** The board row of screen line y. */
  function CellRow(y: int): int {
    CDiv(y - 5, 3)
  }

  /** The board column of screen column x. */
  function CellCol(x: int): int {
    CDiv(x - 5, 4)
  }

  /** The screen column of the centre of board column c. */
  function ScreenX(c: int): int {
    5 + c * 4
  }

  /** The screen line of the centre of board row r. */
  function ScreenY(r: int): int {
    5 + r * 3
  }

  /** (x, y) is the centre of some cell, on the board or just off it. */
  predicate Aligned(x: int, y: int) {
    (x - 5) % 4 == 0 && (y - 5) % 3 == 0
  }

  /** Every cell, the ones one step off the board included, maps to the
      centre of a cell and back to itself. */
  lemma {:induction false} ScreenRoundTrip(r: int, c: int)
    ensures Aligned(ScreenX(c), ScreenY(r))
    ensures CellRow(ScreenY(r)) == r && CellCol(ScreenX(c)) == c
  {
    assert (ScreenX(c) - 5) / 4 == c;
    assert (ScreenY(r) - 5) / 3 == r;
  }

  /** A centre is the centre of the cell it maps to. */
  lemma {:induction false} AlignedScreen(x: int, y: int)
    requires Aligned(x, y)
    ensures x == ScreenX(CellCol(x)) && y == ScreenY(CellRow(y))
  {
  }

  /** From a centre, 4 columns and 3 lines over is the centre of the
      neighbouring cell. */
  lemma {:induction false} ScreenStep(x: int, y: int, dx: int, dy: int)
    requires Aligned(x, y) && -1 <= dx <= 1 && -1 <= dy <= 1
    ensures Aligned(x + 4 * dx, y + 3 * dy)
    ensures CellCol(x + 4 * dx) == CellCol(x) + dx && CellRow(y + 3 * dy) == CellRow(y) + dy
  {
    AlignedScreen(x, y);
    assert x + 4 * dx == ScreenX(CellCol(x) + dx);
    assert y + 3 * dy == ScreenY(CellRow(y) + dy);
    ScreenRoundTrip(CellRow(y) + dy, CellCol(x) + dx);
  }

  /** From a centre (x, y), the screen position (nx, ny) is the centre of
      neighbour n. */
  predicate Lands(x: int, y: int, n: int, nx: int, ny: int) {
    Aligned(x, y) ==> Aligned(nx, ny) && CellRow(ny) == CellRow(y) + DR(n) && CellCol(nx) == CellCol(x) + DC(n)
  }

  /** The first four positions `AutoSwitch` steps to are the left, right,
      upper and lower neighbours. */
  lemma {:induction false} SideLandings(x: int, y: int)
    ensures Lands(x, y, 0, x - 4, y) && Lands(x, y, 1, x + 4, y)
    ensures Lands(x, y, 2, x, y - 3) && Lands(x, y, 3, x, y + 3)
  {
    if Aligned(x, y) {
      ScreenStep(x, y, -1, 0);
      ScreenStep(x, y, 1, 0);
      ScreenStep(x, y, 0, -1);
      ScreenStep(x, y, 0, 1);
    }
  }

  /** The last four are the corners, top row first. */
  lemma {:induction false} CornerLandings(x: int, y: int)
    ensures Lands(x, y, 4, x - 4, y - 3) && Lands(x, y, 5, x + 4, y - 3)
    ensures Lands(x, y, 6, x - 4, y + 3) && Lands(x, y, 7, x + 4, y + 3)
  {
    if Aligned(x, y) {
      ScreenStep(x, y, -1, -1);
      ScreenStep(x, y, 1, -1);
      ScreenStep(x, y, -1, 1);
      ScreenStep(x, y, 1, 1);
    }
  }

  /** The division truncates: a click one column left of cell 0's centre
      still lands in column 0, where flooring would give -1. */
  lemma {:induction false} TruncatesTowardZero()
    ensures CellCol(4) == 0 && CellRow(4) == 0 && CellCol(1) == -1 && (4 - 5) / 4 == -1
  {
  }

  // ---------------------------------------------------------------------
  // Difficulty levels.

  datatype Size = Size(rows: nat, cols: nat, mines: nat)

  /** The board each menu choice sets up; other choices set nothing. */
  function Level(mode: int): (s: Bytes.Option<Size>)
    ensures s.Some? <==> 1 <= mode <= 3
    ensures s.Some? ==> 0 < s.value.mines < s.value.rows * s.value.cols
  {
    if mode == 1 then Bytes.Some(Size(6, 6, 6))
    else if mode == 2 then Bytes.Some(Size(9, 16, 20))
    else if mode == 3 then Bytes.Some(Size(12, 30, 80))
    else Bytes.None
  }

  /** The row and column offsets of the eight neighbours, in the order
      `AutoSwitch` visits them: left, right, up, down, then the corners
      up-left, up-right, down-left, down-right. */
  function DR(k: int): int {
    if k < 2 then 0 else if k == 2 || k == 4 || k == 5 then -1 else 1
  }

  function DC(k: int): int {
    if k == 2 || k == 3 then 0 else if k == 1 || k == 5 || k == 7 then 1 else -1
  }

  /** The first n neighbours of (r, c) are shown. */
  ghost predicate ShownUpTo(g: Grid, rows: int, cols: int, r: int, c: int, n: int) {
    forall k :: 0 <= k < n ==> Shown(g, rows, cols, r + DR(k), c + DC(k))
  }

  /** How far the recursion of `AutoSwitch` on a cell holding 0 at (x, y)
      has got, from the board g0 before the click: the cell is revealed,
      every call so far only uncovered cells, and on a centre every call so
      far closed the zeros it revealed, changed nothing but the cell and the
      neighbours of zero cells it revealed, and showed the first n
      neighbours. */
  ghost predicate Progress(g0: Grid, g: Grid, rows: int, cols: int, x: int, y: int, n: int) {
    var r, c := CellRow(y), CellCol(x);
    Shaped(g0, rows, cols) && InBounds(rows, cols, r, c) && g0[r][c] == 0 && 0 <= n <= 8 &&
    Uncovers(SetCell(g0, r, c, Revealed(0)), g, rows, cols) && Tally(g, Covered) < Tally(g0, Covered) &&
    (Aligned(x, y) ==> Floods(SetCell(g0, r, c, Revealed(0)), g, rows, cols) && ShownUpTo(g, rows, cols, r, c, n) &&
                       Reached(g0, g, rows, cols, r, c, 4, 5))
  }

  /** Revealing the zero cell itself starts the recursion. */
  lemma {:induction false} ProgressStart(g0: Grid, rows: int, cols: int, x: int, y: int)
    requires Shaped(g0, rows, cols) && InBounds(rows, cols, CellRow(y), CellCol(x)) && g0[CellRow(y)][CellCol(x)] == 0
    ensures Progress(g0, SetCell(g0, CellRow(y), CellCol(x), Revealed(0)), rows, cols, x, y, 0)
  {
    var r, c := CellRow(y), CellCol(x);
    var g1 := SetCell(g0, r, c, Revealed(0));
    TallySet(g0, r, c, Revealed(0), Covered);
    FloodsRefl(g1, rows, cols);
    ReachedOne(g0, rows, cols, r, c, Revealed(0));
  }

  /** The call on neighbour n keeps the recursion on track. */
  lemma {:induction false} ProgressStep(g0: Grid, g: Grid, h: Grid, rows: int, cols: int, x: int, y: int, n: int)
    requires Progress(g0, g, rows, cols, x, y, n) && n < 8
    requires Uncovers(g, h, rows, cols)
    requires Aligned(x, y) ==> Floods(g, h, rows, cols) && Shown(h, rows, cols, CellRow(y) + DR(n), CellCol(x) + DC(n)) &&
                               Reached(g, h, rows, cols, CellRow(y) + DR(n), CellCol(x) + DC(n), 4, 5)
    ensures Progress(g0, h, rows, cols, x, y, n + 1)
  {
    var r, c := CellRow(y), CellCol(x);
    var g1 := SetCell(g0, r, c, Revealed(0));
    UncoversTrans(g1, g, h, rows, cols);
    UncoversBelow(g, h, rows, cols);
    if Aligned(x, y) {
      FloodsTrans(g1, g, h, rows, cols);
      ShownUpToStep(g, h, rows, cols, r, c, n);
      ProgressReach(g0, g, h, rows, cols, r, c, r + DR(n), c + DC(n));
    }
  }

  /** The call on a neighbour of the opened zero cell (r, c) stays within
      the flood's bound. */
  lemma {:induction false} ProgressReach(g0: Grid, g: Grid, h: Grid, rows: int, cols: int, r: int, c: int, nr: int, nc: int)
    requires Shaped(g0, rows, cols) && InBounds(rows, cols, r, c) && g0[r][c] == 0
    requires Uncovers(SetCell(g0, r, c, Revealed(0)), g, rows, cols) && Uncovers(g, h, rows, cols)
    requires Reached(g0, g, rows, cols, r, c, 4, 5) && Reached(g, h, rows, cols, nr, nc, 4, 5)
    requires IsNeighbour(nr, nc, r, c)
    ensures Reached(g0, h, rows, cols, r, c, 4, 5)
  {
    var g1 := SetCell(g0, r, c, Revealed(0));
    assert Uncovers(g0, g1, rows, cols);
    UncoversTrans(g0, g1, g, rows, cols);
    assert OpenedZero(g0, h, rows, cols, r, c);
    ReachedThen(g0, g, h, rows, cols, r, c, 4, 5, 5, nr, nc);
  }

  /** Uncovering keeps the neighbours shown, and one more is added. */
  lemma {:induction false} ShownUpToStep(g: Grid, h: Grid, rows: int, cols: int, r: int, c: int, n: int)
    requires ShownUpTo(g, rows, cols, r, c, n) && Uncovers(g, h, rows, cols)
    requires Shown(h, rows, cols, r + DR(n), c + DC(n))
    ensures ShownUpTo(h, rows, cols, r, c, n + 1)
  {
    forall k | 0 <= k < n + 1
      ensures Shown(h, rows, cols, r + DR(k), c + DC(k))
    {
      if k < n {
        ShownStays(g, h, rows, cols, r + DR(k), c + DC(k));
      }
    }
  }

  /** All eight neighbours shown: none is hidden. */
  lemma {:induction false} EightShown(g: Grid, rows: int, cols: int, r: int, c: int)
    requires Shaped(g, rows, cols) && ShownUpTo(g, rows, cols, r, c, 8)
    ensures NeighboursRevealed(g, rows, cols, r, c)
  {
    assert Shown(g, rows, cols, r + DR(0), c + DC(0));
    assert Shown(g, rows, cols, r + DR(1), c + DC(1));
    assert Shown(g, rows, cols, r + DR(2), c + DC(2));
    assert Shown(g, rows, cols, r + DR(3), c + DC(3));
    assert Shown(g, rows, cols, r + DR(4), c + DC(4));
    assert Shown(g, rows, cols, r + DR(5), c + DC(5));
    assert Shown(g, rows, cols, r + DR(6), c + DC(6));
    assert Shown(g, rows, cols, r + DR(7), c + DC(7));
    AllShown(g, rows, cols, r, c);
  }

  /** After the eighth call the click was one flood step from g0. */
  lemma {:induction false} ProgressEnd(g0: Grid, g: Grid, rows: int, cols: int, x: int, y: int)
    requires Progress(g0, g, rows, cols, x, y, 8)
    ensures Uncovers(g0, g, rows, cols) && g[CellRow(y)][CellCol(x)] == Revealed(0)
    ensures Shown(g, rows, cols, CellRow(y), CellCol(x))
    ensures Aligned(x, y) ==> Floods(g0, g, rows, cols) && Reached(g0, g, rows, cols, CellRow(y), CellCol(x), 4, 5)
  {
    var r, c := CellRow(y), CellCol(x);
    var g1 := SetCell(g0, r, c, Revealed(0));
    assert Uncovers(g0, g1, rows, cols);
    UncoversTrans(g0, g1, g, rows, cols);
    if Aligned(x, y) {
      EightShown(g, rows, cols, r, c);
      FloodsAround(g0, g1, g, rows, cols, r, c);
    }
  }

  // ---------------------------------------------------------------------
  // Chording.

  /** The neighbour (nr, nc) of (r, c) is on the board, not flagged, and
      holds a mine. */
  ghost predicate HitsMine(g: Grid, u: Grid, rows: int, cols: int, r: int, c: int, nr: int, nc: int) {
    Shaped(g, rows, cols) && Shaped(u, rows, cols) && IsNeighbour(r, c, nr, nc) &&
    InBounds(rows, cols, nr, nc) && u[nr][nc] != FLAG && g[nr][nc] == MINE
  }

  /** The neighbour of (r, c) at offset number k `HitsMine`. */
  ghost predicate HitAt(g: Grid, u: Grid, rows: int, cols: int, r: int, c: int, k: int) {
    HitsMine(g, u, rows, cols, r, c, r + RowOffset(k), c + ColOffset(k))
  }

  /** The number of the first offset from k on, in row-major order, whose
      neighbour of (r, c) `HitsMine`; 9 when there is none. */
  ghost function FirstHit(g: Grid, u: Grid, rows: int, cols: int, r: int, c: int, k: int): (f: int)
    requires Shaped(g, rows, cols) && Shaped(u, rows, cols) && 0 <= k <= 9
    ensures k <= f <= 9
    ensures f < 9 ==> HitAt(g, u, rows, cols, r, c, f)
    ensures forall j :: k <= j < f ==> !HitAt(g, u, rows, cols, r, c, j)
    decreases 9 - k
  {
    if k == 9 then 9
    else if HitAt(g, u, rows, cols, r, c, k) then k
    else FirstHit(g, u, rows, cols, r, c, k + 1)
  }

  /** The search at offset (dr, dc) stops there on a hit and moves on
      otherwise. */
  lemma {:induction false} FirstHitNext(g: Grid, u: Grid, rows: int, cols: int, r: int, c: int, dr: int, dc: int)
    requires Shaped(g, rows, cols) && Shaped(u, rows, cols) && -1 <= dr <= 1 && -1 <= dc <= 1
    ensures var k := 3 * (dr + 1) + (dc + 1);
      FirstHit(g, u, rows, cols, r, c, k) ==
        if HitsMine(g, u, rows, cols, r, c, r + dr, c + dc) then k else FirstHit(g, u, rows, cols, r, c, k + 1)
  {
    Offsets(dr, dc);
  }

  /** Some neighbour hits a mine exactly when the search finds one. */
  lemma {:induction false} FirstHitFound(g: Grid, u: Grid, rows: int, cols: int, r: int, c: int)
    requires Shaped(g, rows, cols) && Shaped(u, rows, cols)
    ensures FirstHit(g, u, rows, cols, r, c, 0) < 9 <==> exists nr, nc :: HitsMine(g, u, rows, cols, r, c, nr, nc)
  {
    var f := FirstHit(g, u, rows, cols, r, c, 0);
    if f < 9 {
      assert HitAt(g, u, rows, cols, r, c, f);
    }
    forall nr, nc | HitsMine(g, u, rows, cols, r, c, nr, nc)
      ensures f < 9
    {
      var j := 3 * (nr - r + 1) + (nc - c + 1);
      Offsets(nr - r, nc - c);
      assert HitAt(g, u, rows, cols, r, c, j);
    }
  }

  /** The chord condition of `TryChord` on (r, c): the cell is on the board,
      not a hidden number, and its flags are as many as the mines it shows. */
  predicate Chords(g: Grid, u: Grid, rows: int, cols: int, r: int, c: int)
    requires Shaped(g, rows, cols) && Shaped(u, rows, cols)
  {
    InBounds(rows, cols, r, c) && g[r][c] <= 0 && FlagsAround(u, rows, cols, r, c) == -g[r][c] - 1
  }

  /** Every unflagged neighbour of (r, c) on the board that comes before
      offset (dr, dc) in row-major order is revealed. */
  ghost predicate ClearedBefore(g: Grid, u: Grid, rows: int, cols: int, r: int, c: int, dr: int, dc: int)
    requires Shaped(g, rows, cols) && Shaped(u, rows, cols)
  {
    forall nr, nc ::
      IsNeighbour(r, c, nr, nc) && InBounds(rows, cols, nr, nc) && u[nr][nc] != FLAG &&
      (nr < r + dr || (nr == r + dr && nc < c + dc))
      ==> g[nr][nc] < 0
  }

  /** Every unflagged neighbour of (r, c) on the board is revealed. */
  ghost predicate Cleared(g: Grid, u: Grid, rows: int, cols: int, r: int, c: int)
    requires Shaped(g, rows, cols) && Shaped(u, rows, cols)
  {
    ClearedBefore(g, u, rows, cols, r, c, 2, -1)
  }

  /** Every flag sits on a mine. */
  ghost predicate FlagsOnMines(u: Grid, g: Grid, rows: int, cols: int) {
    Shaped(u, rows, cols) && Shaped(g, rows, cols) &&
    forall i, j :: InBounds(rows, cols, i, j) && u[i][j] == FLAG ==> g[i][j] == MINE
  }

  /** Counting term by term: when each term of one count is at most the
      matching term of another, so is the sum. */
  lemma {:induction false} AroundLe(h: Grid, g: Grid, rows: int, cols: int, r: int, c: int, p: Probe, q: Probe, k: int)
    requires Shaped(h, rows, cols) && Shaped(g, rows, cols) && 0 <= k <= 9
    requires forall j :: 0 <= j < k ==> Term(h, rows, cols, r, c, p, false, j) <= Term(g, rows, cols, r, c, q, false, j)
    ensures Around(h, rows, cols, r, c, p, false, k) <= Around(g, rows, cols, r, c, q, false, k)
    decreases k
  {
    if k > 0 {
      AroundLe(h, g, rows, cols, r, c, p, q, k - 1);
      assert Term(h, rows, cols, r, c, p, false, k - 1) <= Term(g, rows, cols, r, c, q, false, k - 1);
    }
  }

  /** ... and when the sums are equal, so is every pair of terms. */
  lemma {:induction false} AroundTight(h: Grid, g: Grid, rows: int, cols: int, r: int, c: int, p: Probe, q: Probe, k: int, i: int)
    requires Shaped(h, rows, cols) && Shaped(g, rows, cols) && 0 <= i < k <= 9
    requires forall j :: 0 <= j < k ==> Term(h, rows, cols, r, c, p, false, j) <= Term(g, rows, cols, r, c, q, false, j)
    requires Around(h, rows, cols, r, c, p, false, k) == Around(g, rows, cols, r, c, q, false, k)
    ensures Term(h, rows, cols, r, c, p, false, i) == Term(g, rows, cols, r, c, q, false, i)
    decreases k
  {
    AroundLe(h, g, rows, cols, r, c, p, q, k - 1);
    assert Term(h, rows, cols, r, c, p, false, k - 1) <= Term(g, rows, cols, r, c, q, false, k - 1);
    if i < k - 1 {
      AroundTight(h, g, rows, cols, r, c, p, q, k - 1, i);
    }
  }

  /** A chord is safe when the player flagged right: if every flag sits on
      a mine and the flags around (r, c) are as many as the mines there, no
      unflagged neighbour holds a mine, so `TryChord` cannot be lost. */
  lemma {:induction false} ChordSafe(g: Grid, u: Grid, rows: int, cols: int, r: int, c: int, nr: int, nc: int)
    requires FlagsOnMines(u, g, rows, cols) && InBounds(rows, cols, r, c) && !IsMine(g[r][c])
    requires FlagsAround(u, rows, cols, r, c) == Adjacent(g, rows, cols, r, c)
    ensures !HitsMine(g, u, rows, cols, r, c, nr, nc)
  {
    AroundCentre(g, rows, cols, r, c, Mines, 9);
    FlagTermsBelow(g, u, rows, cols, r, c);
    if IsNeighbour(r, c, nr, nc) && InBounds(rows, cols, nr, nc) && u[nr][nc] != FLAG {
      UnflaggedClear(g, u, rows, cols, r, c, nr, nc);
    }
  }

  /** The step of `ChordSafe` for one unflagged neighbour: its flag term is
      0, so by tightness its mine term is 0 too. */
  lemma {:induction false} UnflaggedClear(g: Grid, u: Grid, rows: int, cols: int, r: int, c: int, nr: int, nc: int)
    requires Shaped(g, rows, cols) && Shaped(u, rows, cols)
    requires IsNeighbour(r, c, nr, nc) && InBounds(rows, cols, nr, nc) && u[nr][nc] != FLAG
    requires forall j :: 0 <= j < 9 ==> Term(u, rows, cols, r, c, Holds(FLAG), false, j) <= Term(g, rows, cols, r, c, Mines, false, j)
    requires Around(u, rows, cols, r, c, Holds(FLAG), false, 9) == Around(g, rows, cols, r, c, Mines, false, 9)
    ensures g[nr][nc] != MINE
  {
    var j := 3 * (nr - r + 1) + (nc - c + 1);
    TermAt(u, rows, cols, r, c, Holds(FLAG), nr, nc);
    AroundTight(u, g, rows, cols, r, c, Holds(FLAG), Mines, 9, j);
    TermAt(g, rows, cols, r, c, Mines, nr, nc);
    assert Counts(g[nr][nc], Mines) == Term(g, rows, cols, r, c, Mines, false, j) == 0;
  }

  /** Where every flag sits on a mine, each flag term is at most the
      matching mine term. */
  lemma {:induction false} FlagTermsBelow(g: Grid, u: Grid, rows: int, cols: int, r: int, c: int)
    requires FlagsOnMines(u, g, rows, cols)
    ensures forall j :: 0 <= j < 9 ==> Term(u, rows, cols, r, c, Holds(FLAG), false, j) <= Term(g, rows, cols, r, c, Mines, false, j)
  {
    forall j | 0 <= j < 9
      ensures Term(u, rows, cols, r, c, Holds(FLAG), false, j) <= Term(g, rows, cols, r, c, Mines, false, j)
    {
    }
  }

  /** Neighbour (nr, nc) of (r, c) is term number 3 (nr - r + 1) + (nc - c + 1). */
  lemma {:induction false} TermAt(g: Grid, rows: int, cols: int, r: int, c: int, p: Probe, nr: int, nc: int)
    requires Shaped(g, rows, cols) && IsNeighbour(r, c, nr, nc) && InBounds(rows, cols, nr, nc)
    ensures 0 <= 3 * (nr - r + 1) + (nc - c + 1) < 9
    ensures Term(g, rows, cols, r, c, p, false, 3 * (nr - r + 1) + (nc - c + 1)) == Counts(g[nr][nc], p)
  {
    Offsets(nr - r, nc - c);
  }

  /** A cell still covered after uncovering holds what it held before. */
  lemma {:induction false} StillCovered(g0: Grid, g: Grid, rows: int, cols: int, r: int, c: int)
    requires Uncovers(g0, g, rows, cols) && InBounds(rows, cols, r, c) && g[r][c] >= 0
    ensures g0[r][c] == g[r][c]
  {
  }

  /** Uncovering keeps revealed neighbours revealed. */
  lemma {:induction false} ClearedStays(g: Grid, h: Grid, u: Grid, rows: int, cols: int, r: int, c: int, dr: int, dc: int)
    requires Shaped(u, rows, cols) && Uncovers(g, h, rows, cols) && ClearedBefore(g, u, rows, cols, r, c, dr, dc)
    ensures ClearedBefore(h, u, rows, cols, r, c, dr, dc)
  {
    forall nr, nc | IsNeighbour(r, c, nr, nc) && InBounds(rows, cols, nr, nc) && u[nr][nc] != FLAG &&
      (nr < r + dr || (nr == r + dr && nc < c + dc))
      ensures h[nr][nc] < 0
    {
      assert g[nr][nc] < 0;
    }
  }

  /** One more offset handled: the centre, a cell off the board, a flagged
      cell or a revealed one. */
  lemma {:induction false} ClearedNext(g: Grid, u: Grid, rows: int, cols: int, r: int, c: int, dr: int, dc: int)
    requires Shaped(g, rows, cols) && Shaped(u, rows, cols) && ClearedBefore(g, u, rows, cols, r, c, dr, dc)
    requires (dr == 0 && dc == 0) || !InBounds(rows, cols, r + dr, c + dc) || u[r + dr][c + dc] == FLAG || g[r + dr][c + dc] < 0
    ensures ClearedBefore(g, u, rows, cols, r, c, dr, dc + 1)
  {
  }

  /** How far the second loop of a chord on (r, c) has got, from the board
      g0 it started on to the board g, before the offset (dr, dc): cells
      only flooded, no mine revealed, every unflagged neighbour before the
      offset revealed, nothing changed but those neighbours and the cells
      next to zero cells revealed, and no hit before the offset. */
  ghost predicate OnTrack(g0: Grid, g: Grid, u: Grid, rows: int, cols: int, r: int, c: int, dr: int, dc: int) {
    Shaped(u, rows, cols) && Floods(g0, g, rows, cols) && MinesHidden(g0, g, rows, cols) &&
    0 <= 3 * (dr + 1) + (dc + 1) <= 9 && ClearedBefore(g, u, rows, cols, r, c, dr, dc) &&
    Reached(g0, g, rows, cols, r, c, 0, 3 * (dr + 1) + (dc + 1)) &&
    FirstHit(g0, u, rows, cols, r, c, 0) == FirstHit(g0, u, rows, cols, r, c, 3 * (dr + 1) + (dc + 1))
  }

  /** The loop starts on track. */
  lemma {:induction false} OnTrackStart(g0: Grid, u: Grid, rows: int, cols: int, r: int, c: int)
    requires Shaped(g0, rows, cols) && Shaped(u, rows, cols)
    ensures OnTrack(g0, g0, u, rows, cols, r, c, -1, -1)
  {
    FloodsRefl(g0, rows, cols);
  }

  /** Past the last column of a row of offsets, the next row starts. */
  lemma {:induction false} OnTrackRow(g0: Grid, g: Grid, u: Grid, rows: int, cols: int, r: int, c: int, dr: int)
    requires OnTrack(g0, g, u, rows, cols, r, c, dr, 2) && dr <= 1
    ensures OnTrack(g0, g, u, rows, cols, r, c, dr + 1, -1)
  {
    assert 3 * (dr + 1) + 3 == 3 * (dr + 2);
  }

  /** Past the last offset every unflagged neighbour is revealed and no
      neighbour hits a mine. */
  lemma {:induction false} OnTrackEnd(g0: Grid, g: Grid, u: Grid, rows: int, cols: int, r: int, c: int)
    requires OnTrack(g0, g, u, rows, cols, r, c, 2, -1)
    ensures Cleared(g, u, rows, cols, r, c) && FirstHit(g0, u, rows, cols, r, c, 0) == 9
  {
  }

  /** The chord's reveal of its neighbour at offset (dr, dc), which hits no
      mine, with a flood from g to h bounded by that neighbour keeps the
      chord on track. */
  lemma {:induction false} OpenedNeighbour(g0: Grid, g: Grid, h: Grid, u: Grid, rows: int, cols: int,
                                           r: int, c: int, dr: int, dc: int)
    requires OnTrack(g0, g, u, rows, cols, r, c, dr, dc) && -1 <= dr <= 1 && -1 <= dc <= 1
    requires !HitsMine(g0, u, rows, cols, r, c, r + dr, c + dc)
    requires Floods(g0, h, rows, cols) && Uncovers(g, h, rows, cols) && Shown(h, rows, cols, r + dr, c + dc)
    requires Reached(g, h, rows, cols, r + dr, c + dc, 4, 5) && MinesHidden(g, h, rows, cols)
    ensures OnTrack(g0, h, u, rows, cols, r, c, dr, dc + 1)
  {
    FirstHitNext(g0, u, rows, cols, r, c, dr, dc);
    ClearedStays(g, h, u, rows, cols, r, c, dr, dc);
    ClearedNext(h, u, rows, cols, r, c, dr, dc);
    MinesHiddenTrans(g0, g, h, rows, cols);
    ReachedThen(g0, g, h, rows, cols, r, c, 0, 3 * (dr + 1) + (dc + 1), 3 * (dr + 1) + (dc + 1) + 1, r + dr, c + dc);
  }

  /** A neighbour the chord skips, the centre, one off the board, a flagged
      one or a revealed one, hits no mine and moves the chord on. */
  lemma {:induction false} Skipped(g0: Grid, g: Grid, u: Grid, rows: int, cols: int, r: int, c: int, dr: int, dc: int)
    requires OnTrack(g0, g, u, rows, cols, r, c, dr, dc) && -1 <= dr <= 1 && -1 <= dc <= 1
    requires (dr == 0 && dc == 0) || !InBounds(rows, cols, r + dr, c + dc) || u[r + dr][c + dc] == FLAG || g[r + dr][c + dc] < 0
    ensures !HitsMine(g0, u, rows, cols, r, c, r + dr, c + dc)
    ensures OnTrack(g0, g, u, rows, cols, r, c, dr, dc + 1)
  {
    FirstHitNext(g0, u, rows, cols, r, c, dr, dc);
    ClearedNext(g, u, rows, cols, r, c, dr, dc);
    ReachedWiden(g0, g, rows, cols, r, c, 0, 3 * (dr + 1) + (dc + 1), 3 * (dr + 1) + (dc + 1) + 1);
  }

  class Game {
    var rows: int
    var cols: int
    var mineCount: int
    var mine: array2<int>
    /** The board `mine` holds, as a value. */
    ghost var board: Grid

    /** The player's marks, `userMine`: FLAG on a flagged cell, 0 elsewhere. */
    var marks: array2<int>
    /** The marks as a value. */
    ghost var flags: Grid
    /** The flags standing on mines, counted by the right-click handler. */
    var flag: int
    /** The number of mines to flag for a win. */
    var winTarget: int
    /** The board as generated, before any cell was revealed. */
    ghost var layout: Grid

    ghost predicate BoardValid()
      reads this`rows, this`cols, this`mine, this`board, mine
    {
      mine.Length0 == rows && mine.Length1 == cols && Shaped(board, rows, cols) &&
      forall i, j :: InBounds(rows, cols, i, j) ==> mine[i, j] == board[i][j]
    }

    ghost predicate MarksValid()
      reads this`rows, this`cols, this`mine, this`marks, this`flags, marks
    {
      marks != mine && marks.Length0 == rows && marks.Length1 == cols && Shaped(flags, rows, cols) &&
      forall i, j :: InBounds(rows, cols, i, j) ==> marks[i, j] == flags[i][j]
    }

    /** The board of a game in progress: the generated layout, whose cells
        each hold their count, with some cells revealed and every mine still
        hidden. */
    ghost predicate Sound()
      reads this`rows, this`cols, this`mine, this`board, this`layout, mine
    {
      BoardValid() && Consistent(layout, rows, cols) && Uncovers(layout, board, rows, cols) &&
      MinesHidden(layout, board, rows, cols)
    }

    /** The state of a game in progress: the board is sound, `flag` counts
        the flags that sit on mines, and the mine counter on screen is the
        mine total less the flags set. */
    ghost predicate Playing()
      reads this`rows, this`cols, this`mine, this`board, this`marks, this`flags, this`layout
      reads this`flag, this`winTarget, this`mineCount, mine, marks
    {
      Sound() && MarksValid() &&
      flag == FlaggedMines(flags, layout, rows, cols) && Tally(layout, Mines) == winTarget &&
      mineCount + Tally(flags, Holds(FLAG)) == winTarget
    }

    constructor ()
      ensures rows == 0 && cols == 0 && mineCount == 0 && flag == 0 && winTarget == 0
      ensures BoardValid() && MarksValid()
    {
      rows, cols, mineCount := 0, 0, 0;
      mine := new int[0, 0];
      board := [];
      marks := new int[0, 0];
      flags := [];
      flag, winTarget := 0, 0;
      layout := [];
    }

    /** The menu choice sets the board size and the mine count. */
    method Mode(mode: int)
      modifies this`rows, this`cols, this`mineCount
      ensures Level(mode).Some? ==>
        rows == Level(mode).value.rows && cols == Level(mode).value.cols && mineCount == Level(mode).value.mines
      ensures Level(mode).None? ==> rows == old(rows) && cols == old(cols) && mineCount == old(mineCount)
    {
      if mode == 1 {
        rows := 6;
        cols := 6;
        mineCount := 6;
      } else if mode == 2 {
        rows := 9;
        cols := 16;
        mineCount := 20;
      } else if mode == 3 {
        rows := 12;
        cols := 30;
        mineCount := 80;
      }
    }

    /** A fresh board of the current size, mined with the given picks (one
        `randomInt` result per round) and numbered. */
    method InitializeGame(picks: seq<int>)
      requires 0 <= rows && 0 <= cols && |picks| == mineCount && ValidPicks(rows, cols, picks)
      modifies this`mine, this`board
      ensures fresh(mine) && BoardValid()
      ensures NumberedFrom(board, Mined(rows, cols, picks), rows, cols)
    {
      mine := new int[rows, cols];
      GenerateMines(picks);
    }

    /** A game of the given menu choice up to its first click: the board is
        set up, every mark is cleared, no flag is counted, and the win
        target is the level's mine count. */
    method Start(mode: int, picks: seq<int>)
      requires 1 <= mode <= 3 && |picks| == Level(mode).value.mines
      requires ValidPicks(Level(mode).value.rows, Level(mode).value.cols, picks)
      modifies this
      ensures Playing() && Size(rows, cols, winTarget) == Level(mode).value
      ensures NumberedFrom(board, Mined(rows, cols, picks), rows, cols) && Consistent(layout, rows, cols)
      ensures layout == board && flags == Zeros(rows, cols) && flag == 0
    {
      Mode(mode);
      Setup(picks, if mode == 1 then 6 else if mode == 2 then 20 else 80);
    }

    /** The rest of `Game` once the size is chosen: the board is generated
        and play begins with the given win target. */
    method Setup(picks: seq<int>, target: int)
      requires 0 <= rows && 0 <= cols && |picks| == mineCount == target && ValidPicks(rows, cols, picks)
      modifies this`mine, this`board, this`marks, this`flags, this`flag, this`winTarget, this`layout
      ensures Playing() && winTarget == target
      ensures NumberedFrom(board, Mined(rows, cols, picks), rows, cols) && Consistent(layout, rows, cols)
      ensures layout == board && flags == Zeros(rows, cols) && flag == 0
    {
      InitializeGame(picks);
      MinesPlaced(picks);
      BeginPlay(target);
    }

    /** The generated board holds one mine per pick, and each other cell
        holds its count. */
    lemma {:induction false} MinesPlaced(picks: seq<int>)
      requires Shaped(board, rows, cols) && 0 <= rows && 0 <= cols && ValidPicks(rows, cols, picks)
      requires NumberedFrom(board, Mined(rows, cols, picks), rows, cols)
      ensures Tally(board, Mines) == |picks| && Consistent(board, rows, cols)
    {
      NumberedIsConsistent(board, Mined(rows, cols, picks), rows, cols);
      SameMinesTally(board, Mined(rows, cols, picks), rows, cols);
    }

    /** The player's side of a new game: every mark cleared, no flag counted,
        and the win target the number of mines placed. */
    method BeginPlay(target: int)
      requires BoardValid() && Consistent(board, rows, cols) && target == mineCount == Tally(board, Mines)
      modifies this`marks, this`flags, this`flag, this`winTarget, this`layout
      ensures Playing() && fresh(marks) && layout == board && flags == Zeros(rows, cols)
      ensures flag == 0 && winTarget == target
    {
      NewMarks();
      flag := 0;
      winTarget := target;
      layout := board;
      ZerosTally(rows, cols);
      FlaggedNone(layout, rows, cols);
      FloodsRefl(board, rows, cols);
    }

    /** The player's marks of `Game`, a zero-initialised array the size of
        the board. */
    method NewMarks()
      requires BoardValid()
      modifies this`marks, this`flags
      ensures fresh(marks) && MarksValid() && flags == Zeros(rows, cols)
    {
      marks := new int[rows, cols]((i, j) => 0);
      flags := Zeros(rows, cols);
    }

    /** Clears the board, runs one selection round per pick and numbers the
        board. */
    method GenerateMines(picks: seq<int>)
      requires mine.Length0 == rows && mine.Length1 == cols && 0 <= rows && 0 <= cols
      requires |picks| == mineCount && ValidPicks(rows, cols, picks)
      modifies this`board, mine
      ensures BoardValid() && NumberedFrom(board, Mined(rows, cols, picks), rows, cols)
    {
      ClearBoard();
      var generated := 0;
      while generated < mineCount
        invariant 0 <= generated <= mineCount && BoardValid()
        invariant board == Mined(rows, cols, picks[..generated])
        decreases mineCount - generated
      {
        var mineIdx := picks[generated];
        var hit := PlaceMine(mineIdx);
        assert picks[..generated + 1][..generated] == picks[..generated];
        if hit {
          generated := generated + 1;
        }
      }
      assert picks[..generated] == picks;
      NumberBoard();
    }

    /** The first loop of `generateMines`: every cell set to 0. */
    method ClearBoard()
      requires mine.Length0 == rows && mine.Length1 == cols && 0 <= rows && 0 <= cols
      modifies this`board, mine
      ensures BoardValid() && board == Zeros(rows, cols)
    {
      var r := 0;
      while r < rows
        invariant 0 <= r <= rows
        invariant forall i, j :: 0 <= i < r && 0 <= j < cols ==> mine[i, j] == 0
      {
        var c := 0;
        while c < cols
          invariant 0 <= c <= cols
          invariant forall i, j :: 0 <= i < r && 0 <= j < cols ==> mine[i, j] == 0
          invariant forall j :: 0 <= j < c ==> mine[r, j] == 0
        {
          mine[r, c] := 0;
          c := c + 1;
        }
        r := r + 1;
      }
      board := Zeros(rows, cols);
    }

    /** One round of the selection loop: counting the free cells in
        row-major order, the one numbered mineIdx becomes a mine. `hit` is
        the round's `generated++`. */
    method PlaceMine(mineIdx: int) returns (hit: bool)
      requires BoardValid() && 0 <= mineIdx < Tally(board, Free)
      modifies this`board, mine
      ensures BoardValid() && hit && board == Place(old(board), mineIdx)
    {
      ghost var g0 := board;
      ghost var target := Seek(g0, mineIdx, 0);
      var count := 0;
      hit := false;
      var r := 0;
      while r < rows
        invariant 0 <= r <= rows && BoardValid()
        invariant !hit ==> board == g0 && count == InRows(g0, r, Free) && count <= mineIdx
        invariant hit ==> board == Place(g0, mineIdx) && count > mineIdx
      {
        var c := 0;
        while c < cols
          invariant 0 <= c <= cols && BoardValid()
          invariant !hit ==> board == g0 && count == Rank(g0, r, c) && count <= mineIdx
          invariant hit ==> board == Place(g0, mineIdx) && count > mineIdx
        {
          if IsMine(mine[r, c]) {
            c := c + 1;
            continue;
          }
          if count == mineIdx {
            RankUnique(g0, rows, cols, r, c, target.0, target.1);
            mine[r, c] := MINE;
            board := SetCell(board, r, c, MINE);
            hit := true;
            count := count + 1;
            break;
          } else {
            count := count + 1;
          }
          c := c + 1;
        }
        r := r + 1;
      }
    }

    /** The number a cell gets: unchanged when it holds a mine, otherwise the
        mines of its in-bounds 3 x 3 block. */
    method UpdateAdjacentCount(row: int, col: int)
      requires BoardValid() && InBounds(rows, cols, row, col)
      modifies this`board, mine
      ensures BoardValid()
      ensures IsMine(old(board)[row][col]) ==> board == old(board)
      ensures !IsMine(old(board)[row][col]) ==>
        board == SetCell(old(board), row, col, Adjacent(old(board), rows, cols, row, col))
    {
      if IsMine(mine[row, col]) {
        return;
      }
      var count := CountMines(row, col);
      mine[row, col] := count;
      board := SetCell(board, row, col, count);
    }

    /** The counting loops of `updateAdjacentCount`: every in-bounds cell of
        the 3 x 3 block around (row, col), the cell itself included, adds 1
        when it holds a mine. */
    method CountMines(row: int, col: int) returns (count: int)
      requires BoardValid()
      ensures count == Adjacent(board, rows, cols, row, col)
    {
      count := 0;
      ghost var k := 0;
      var dr := -1;
      while dr <= 1
        invariant -1 <= dr <= 2 && k == 3 * (dr + 1)
        invariant count == Around(board, rows, cols, row, col, Mines, true, k)
      {
        var dc := -1;
        while dc <= 1
          invariant -1 <= dc <= 2 && k == 3 * (dr + 1) + (dc + 1)
          invariant count == Around(board, rows, cols, row, col, Mines, true, k)
        {
          var nr := row + dr;
          var nc := col + dc;
          ghost var before := count;
          if nr >= 0 && nr < rows && nc >= 0 && nc < cols {
            count := count + if IsMine(mine[nr, nc]) then 1 else 0;
          }
          AroundNext(board, rows, cols, row, col, Mines, true, k, dr, dc, before, count);
          dc := dc + 1;
          k := k + 1;
        }
        dr := dr + 1;
      }
    }

    /** The last loop of `generateMines`: every cell numbered in row-major
        order, in place. */
    method NumberBoard()
      requires BoardValid()
      modifies this`board, mine
      ensures BoardValid() && NumberedFrom(board, old(board), rows, cols)
    {
      ghost var g0 := board;
      NumberedStart(g0, rows, cols);
      var r := 0;
      while r < rows
        invariant 0 <= r <= rows && BoardValid()
        invariant NumberedUpTo(board, g0, rows, cols, r, 0)
      {
        var c := 0;
        while c < cols
          invariant 0 <= c <= cols && BoardValid()
          invariant NumberedUpTo(board, g0, rows, cols, r, c)
        {
          NumberedStep(board, g0, rows, cols, r, c);
          UpdateAdjacentCount(r, c);
          c := c + 1;
        }
        NumberedRow(board, g0, rows, cols, r);
        r := r + 1;
      }
      NumberedEnd(board, g0, rows, cols);
    }
  
    /** Reveals the cell under (x, y): nothing happens off the board or on a
        cell already revealed; otherwise the cell's value v becomes -(v + 1),
        and a cell that held 0 reveals its eight neighbours the same way. */
    method AutoSwitch(x: int, y: int)
      requires BoardValid()
      modifies this`board, mine
      ensures BoardValid() && Uncovers(old(board), board, rows, cols)
      ensures Shown(board, rows, cols, CellRow(y), CellCol(x))
      ensures var r, c := CellRow(y), CellCol(x);
        (!InBounds(rows, cols, r, c) || old(board)[r][c] < 0 ==> board == old(board)) &&
        (InBounds(rows, cols, r, c) && old(board)[r][c] >= 0 ==> board[r][c] == Revealed(old(board)[r][c])) &&
        (InBounds(rows, cols, r, c) && old(board)[r][c] > 0 ==> board == SetCell(old(board), r, c, Revealed(old(board)[r][c])))
      ensures Aligned(x, y) ==> Floods(old(board), board, rows, cols)
      ensures Aligned(x, y) ==> Reached(old(board), board, rows, cols, CellRow(y), CellCol(x), 4, 5)
      decreases Tally(board, Covered), 2
    {
      var r := CellRow(y);
      var c := CellCol(x);
      if r < 0 || r >= rows || c < 0 || c >= cols {
        return;
      }
      if mine[r, c] < 0 {
        return;
      }
      var val := mine[r, c];
      ghost var g0 := board;
      mine[r, c] := -(val + 1);
      board := SetCell(board, r, c, Revealed(val));
      TallySet(g0, r, c, Revealed(val), Covered);
      if val == 0 {
        ProgressStart(g0, rows, cols, x, y);
        SpreadAcross(g0, x, y);
        SpreadAlong(g0, x, y);
        SpreadAbove(g0, x, y);
        SpreadBelow(g0, x, y);
        ProgressEnd(g0, board, rows, cols, x, y);
      } else {
        assert Floods(g0, board, rows, cols);
        ReachedOne(g0, rows, cols, r, c, Revealed(val));
      }
    }

    /** The zero-cell branch of `AutoSwitch`, in four parts of two calls each:
        first the left and right neighbours of (x, y), */
    method SpreadAcross(ghost g0: Grid, x: int, y: int)
      requires BoardValid() && Progress(g0, board, rows, cols, x, y, 0)
      modifies this`board, mine
      ensures BoardValid() && Progress(g0, board, rows, cols, x, y, 2)
      decreases Tally(g0, Covered), 1
    {
      SideLandings(x, y);
      Visit(g0, x, y, 0, x - 4, y);
      Visit(g0, x, y, 1, x + 4, y);
    }

    /** then the upper and lower ones, */
    method SpreadAlong(ghost g0: Grid, x: int, y: int)
      requires BoardValid() && Progress(g0, board, rows, cols, x, y, 2)
      modifies this`board, mine
      ensures BoardValid() && Progress(g0, board, rows, cols, x, y, 4)
      decreases Tally(g0, Covered), 1
    {
      SideLandings(x, y);
      Visit(g0, x, y, 2, x, y - 3);
      Visit(g0, x, y, 3, x, y + 3);
    }

    /** then the two upper corners, */
    method SpreadAbove(ghost g0: Grid, x: int, y: int)
      requires BoardValid() && Progress(g0, board, rows, cols, x, y, 4)
      modifies this`board, mine
      ensures BoardValid() && Progress(g0, board, rows, cols, x, y, 6)
      decreases Tally(g0, Covered), 1
    {
      CornerLandings(x, y);
      Visit(g0, x, y, 4, x - 4, y - 3);
      Visit(g0, x, y, 5, x + 4, y - 3);
    }

    /** and last the two lower corners. */
    method SpreadBelow(ghost g0: Grid, x: int, y: int)
      requires BoardValid() && Progress(g0, board, rows, cols, x, y, 6)
      modifies this`board, mine
      ensures BoardValid() && Progress(g0, board, rows, cols, x, y, 8)
      decreases Tally(g0, Covered), 1
    {
      CornerLandings(x, y);
      Visit(g0, x, y, 6, x - 4, y + 3);
      Visit(g0, x, y, 7, x + 4, y + 3);
    }

    /** The recursive call of `AutoSwitch` on neighbour n of the zero cell
        at (x, y), which held 0 on the board g0 before the click; (nx, ny)
        is where the call lands. */
    method Visit(ghost g0: Grid, x: int, y: int, n: int, nx: int, ny: int)
      requires BoardValid() && Progress(g0, board, rows, cols, x, y, n) && n < 8
      requires Lands(x, y, n, nx, ny)
      modifies this`board, mine
      ensures BoardValid() && Progress(g0, board, rows, cols, x, y, n + 1)
      decreases Tally(g0, Covered), 0
    {
      ghost var g := board;
      AutoSwitch(nx, ny);
      ProgressStep(g0, g, board, rows, cols, x, y, n);
    }

    /** The first loop of `TryChord`: the flags on the eight cells around
        (row, col). */
    method CountFlags(row: int, col: int) returns (count: int)
      requires MarksValid()
      ensures count == FlagsAround(flags, rows, cols, row, col)
    {
      count := 0;
      for dr := -1 to 2
        invariant count == Around(flags, rows, cols, row, col, Holds(FLAG), false, 3 * (dr + 1))
      {
        for dc := -1 to 2
          invariant count == Around(flags, rows, cols, row, col, Holds(FLAG), false, 3 * (dr + 1) + (dc + 1))
        {
          var k := 3 * (dr + 1) + (dc + 1);
          if dr == 0 && dc == 0 {
            AroundNext(flags, rows, cols, row, col, Holds(FLAG), false, k, dr, dc, count, count);
            continue;
          }
          var nr := row + dr;
          var nc := col + dc;
          ghost var before := count;
          if nr >= 0 && nr < rows && nc >= 0 && nc < cols {
            if marks[nr, nc] == FLAG {
              count := count + 1;
            }
          }
          AroundNext(flags, rows, cols, row, col, Holds(FLAG), false, k, dr, dc, before, count);
        }
      }
    }

    /** A chord on the revealed cell under (x, y): when as many of its
        neighbours are flagged as the number it shows, the unflagged hidden
        neighbours are revealed in row-major order, and the chord is lost,
        and stops, on the first one holding a mine. Each reveal floods, so
        a neighbour after the losing one may already be revealed. */
    method TryChord(x: int, y: int) returns (lost: bool)
      requires Playing()
      modifies this`board, mine
      ensures Playing() && Floods(old(board), board, rows, cols)
      ensures var r, c := CellRow(y), CellCol(x);
        !Chords(old(board), flags, rows, cols, r, c) ==> !lost && board == old(board)
      ensures var r, c := CellRow(y), CellCol(x);
        Chords(old(board), flags, rows, cols, r, c) ==>
          (lost <==> exists nr, nc :: HitsMine(old(board), flags, rows, cols, r, c, nr, nc)) &&
          Reached(old(board), board, rows, cols, r, c, 0, FirstHit(old(board), flags, rows, cols, r, c, 0)) &&
          (!lost ==> Cleared(board, flags, rows, cols, r, c))
    {
      var r := CellRow(y);
      var c := CellCol(x);
      if r < 0 || r >= rows || c < 0 || c >= cols {
        return false;
      }
      if mine[r, c] > 0 {
        return false;
      }
      var realMineCount := -mine[r, c] - 1;
      var flagCount := CountFlags(r, c);
      if flagCount != realMineCount {
        return false;
      }
      ghost var g0 := board;
      assert Chords(g0, flags, rows, cols, r, c);
      lost := ChordReveal(r, c);
      FirstHitFound(g0, flags, rows, cols, r, c);
    }

    /** The second loop of `TryChord`, on the cell (r, c): lost exactly when
        some neighbour hits a mine, having changed only the neighbours
        before the first such one and the cells their floods reached. */
    method ChordReveal(r: int, c: int) returns (lost: bool)
      requires Sound() && MarksValid() && InBounds(rows, cols, r, c)
      modifies this`board, mine
      ensures Sound() && MarksValid() && Floods(old(board), board, rows, cols)
      ensures lost <==> FirstHit(old(board), flags, rows, cols, r, c, 0) < 9
      ensures Reached(old(board), board, rows, cols, r, c, 0, FirstHit(old(board), flags, rows, cols, r, c, 0))
      ensures !lost ==> Cleared(board, flags, rows, cols, r, c)
    {
      ghost var g0 := board;
      OnTrackStart(g0, flags, rows, cols, r, c);
      for dr := -1 to 2
        invariant Sound() && MarksValid() && OnTrack(g0, board, flags, rows, cols, r, c, dr, -1)
      {
        lost := ChordRow(g0, r, c, dr);
        if lost {
          return;
        }
      }
      OnTrackEnd(g0, board, flags, rows, cols, r, c);
      lost := false;
    }

    /** One pass of the outer loop of the chord: the neighbours at row
        offset dr, left to right, from the board g0 the chord started on. */
    method ChordRow(ghost g0: Grid, r: int, c: int, dr: int) returns (lost: bool)
      requires Sound() && MarksValid() && OnTrack(g0, board, flags, rows, cols, r, c, dr, -1) && -1 <= dr <= 1
      modifies this`board, mine
      ensures Sound() && MarksValid() && Floods(g0, board, rows, cols)
      ensures lost ==> FirstHit(g0, flags, rows, cols, r, c, 0) < 9 &&
                       Reached(g0, board, rows, cols, r, c, 0, FirstHit(g0, flags, rows, cols, r, c, 0))
      ensures !lost ==> OnTrack(g0, board, flags, rows, cols, r, c, dr + 1, -1)
    {
      for dc := -1 to 2
        invariant Sound() && MarksValid() && OnTrack(g0, board, flags, rows, cols, r, c, dr, dc)
      {
        var hit := ChordCell(g0, r, c, dr, dc);
        if hit {
          return true;
        }
      }
      OnTrackRow(g0, board, flags, rows, cols, r, c, dr);
      lost := false;
    }

    /** The body of the second loop of `TryChord` for the neighbour at
        offset (dr, dc): skipped when it is the centre, off the board,
        flagged or revealed; a hit, exactly when it holds a mine, that
        changes nothing; otherwise revealed with `AutoSwitch` at its
        centre. */
    method ChordCell(ghost g0: Grid, r: int, c: int, dr: int, dc: int) returns (hit: bool)
      requires Sound() && MarksValid() && OnTrack(g0, board, flags, rows, cols, r, c, dr, dc)
      requires -1 <= dr <= 1 && -1 <= dc <= 1
      modifies this`board, mine
      ensures Sound() && MarksValid() && Floods(g0, board, rows, cols)
      ensures hit <==> HitsMine(g0, flags, rows, cols, r, c, r + dr, c + dc)
      ensures hit ==> board == old(board) && FirstHit(g0, flags, rows, cols, r, c, 0) == 3 * (dr + 1) + (dc + 1)
      ensures !hit ==> OnTrack(g0, board, flags, rows, cols, r, c, dr, dc + 1)
    {
      var nr := r + dr;
      var nc := c + dc;
      if (dr == 0 && dc == 0) || !(nr >= 0 && nr < rows && nc >= 0 && nc < cols) {
        Skipped(g0, board, flags, rows, cols, r, c, dr, dc);
        return false;
      }
      ghost var u, g := flags, board;
      if marks[nr, nc] == FLAG || mine[nr, nc] < 0 {
        assert u[nr][nc] == FLAG || g[nr][nc] < 0;
        Skipped(g0, g, u, rows, cols, r, c, dr, dc);
        return false;
      }
      assert u[nr][nc] != FLAG && g[nr][nc] >= 0;
      hit := ChordOpen(g0, r, c, dr, dc);
    }

    /** The neighbour at offset (dr, dc) is on the board, unflagged and
        hidden: a hit when it holds a mine, otherwise revealed. */
    method ChordOpen(ghost g0: Grid, r: int, c: int, dr: int, dc: int) returns (hit: bool)
      requires Sound() && MarksValid() && OnTrack(g0, board, flags, rows, cols, r, c, dr, dc)
      requires -1 <= dr <= 1 && -1 <= dc <= 1 && IsNeighbour(r, c, r + dr, c + dc) && InBounds(rows, cols, r + dr, c + dc)
      requires flags[r + dr][c + dc] != FLAG && board[r + dr][c + dc] >= 0
      modifies this`board, mine
      ensures Sound() && MarksValid() && Floods(g0, board, rows, cols)
      ensures hit <==> HitsMine(g0, flags, rows, cols, r, c, r + dr, c + dc)
      ensures hit ==> board == old(board) && FirstHit(g0, flags, rows, cols, r, c, 0) == 3 * (dr + 1) + (dc + 1)
      ensures !hit ==> OnTrack(g0, board, flags, rows, cols, r, c, dr, dc + 1)
    {
      var nr := r + dr;
      var nc := c + dc;
      StillCovered(g0, board, rows, cols, nr, nc);
      if mine[nr, nc] == MINE {
        FirstHitNext(g0, flags, rows, cols, r, c, dr, dc);
        return true;
      }
      ghost var g := board;
      RevealCell(g0, nr, nc);
      OpenedNeighbour(g0, g, board, flags, rows, cols, r, c, dr, dc);
      hit := false;
    }

    /** `AutoSwitch` at the centre of the hidden cell (nr, nc), which holds
        no mine, as the chord calls it: the cell ends revealed, the flood
        goes on from g0, reaches only (nr, nc) and the neighbours of zero
        cells it revealed, and reveals no mine. */
    method RevealCell(ghost g0: Grid, nr: int, nc: int)
      requires Sound() && MarksValid() && Floods(g0, board, rows, cols)
      requires InBounds(rows, cols, nr, nc) && !IsMine(board[nr][nc])
      modifies this`board, mine
      ensures Sound() && MarksValid() && Floods(g0, board, rows, cols)
      ensures Uncovers(old(board), board, rows, cols) && Shown(board, rows, cols, nr, nc)
      ensures Reached(old(board), board, rows, cols, nr, nc, 4, 5) && MinesHidden(old(board), board, rows, cols)
    {
      var sx := 5 + nc * 4;
      var sy := 5 + nr * 3;
      ghost var g := board;
      ScreenRoundTrip(nr, nc);
      AutoSwitch(sx, sy);
      FloodsTrans(g0, g, board, rows, cols);
      Reveals(g);
    }

    /** The board after a flood from g, started on a cell that holds no
        mine and bounded by it, is still sound. */
    lemma {:induction false} Reveals(g: Grid)
      requires BoardValid() && Consistent(layout, rows, cols) && Uncovers(layout, g, rows, cols)
      requires MinesHidden(layout, g, rows, cols) && Uncovers(g, board, rows, cols)
      requires exists r, c :: Reached(g, board, rows, cols, r, c, 4, 5) && (InBounds(rows, cols, r, c) ==> !IsMine(g[r][c]))
      ensures Sound() && MinesHidden(g, board, rows, cols)
    {
      var r, c :| Reached(g, board, rows, cols, r, c, 4, 5) && (InBounds(rows, cols, r, c) ==> !IsMine(g[r][c]));
      FloodSparesMines(layout, g, board, rows, cols, r, c);
      MinesHiddenTrans(layout, g, board, rows, cols);
      UncoversTrans(layout, g, board, rows, cols);
    }

    /** A left click on the cell centred at (x, y): lost when the cell holds
        a mine, which stays hidden; otherwise the cell is revealed as by
        `AutoSwitch`, which reaches only the cell and the neighbours of zero
        cells it revealed. */
    method LeftClick(x: int, y: int) returns (lost: bool)
      requires Playing() && Aligned(x, y) && InBounds(rows, cols, CellRow(y), CellCol(x))
      modifies this`board, mine
      ensures Playing() && Floods(old(board), board, rows, cols)
      ensures lost <==> old(board)[CellRow(y)][CellCol(x)] == MINE
      ensures lost ==> board == old(board)
      ensures !lost ==> board[CellRow(y)][CellCol(x)] < 0
      ensures !lost ==> Reached(old(board), board, rows, cols, CellRow(y), CellCol(x), 4, 5)
    {
      var r := CellRow(y);
      var c := CellCol(x);
      if mine[r, c] == MINE {
        FloodsRefl(board, rows, cols);
        return true;
      }
      ghost var g := board;
      AutoSwitch(x, y);
      Reveals(g);
      lost := false;
    }

    /** A right click on the cell centred at (x, y): a hidden cell without a
        mark is flagged and the mine counter drops; a hidden flagged cell is
        unflagged and the counter rises; `flag` follows the flags that sit
        on mines. A revealed cell keeps its mark. */
    method RightClick(x: int, y: int)
      requires Playing() && InBounds(rows, cols, CellRow(y), CellCol(x))
      modifies marks, this`flags, this`flag, this`mineCount
      ensures Playing()
      ensures var r, c := CellRow(y), CellCol(x);
        if old(flags)[r][c] == 0 && board[r][c] >= 0 then
          flags == SetCell(old(flags), r, c, FLAG) && mineCount == old(mineCount) - 1 &&
          flag == old(flag) + (if board[r][c] == MINE then 1 else 0)
        else if old(flags)[r][c] == FLAG && board[r][c] >= 0 then
          flags == SetCell(old(flags), r, c, 0) && mineCount == old(mineCount) + 1 &&
          flag == old(flag) - (if board[r][c] == MINE then 1 else 0)
        else
          flags == old(flags) && mineCount == old(mineCount) && flag == old(flag)
    {
      var r := CellRow(y);
      var c := CellCol(x);
      ghost var u := flags;
      if marks[r, c] == 0 && (mine[r, c] >= 0 || mine[r, c] == MINE) {
        marks[r, c] := FLAG;
        flags := SetCell(flags, r, c, FLAG);
        mineCount := mineCount - 1;
        if mine[r, c] == MINE {
          flag := flag + 1;
        }
        Remark(u, r, c, FLAG);
      } else if marks[r, c] == FLAG && (mine[r, c] >= 0 || mine[r, c] == MINE) {
        marks[r, c] := 0;
        flags := SetCell(flags, r, c, 0);
        mineCount := mineCount + 1;
        if mine[r, c] == MINE {
          flag := flag - 1;
        }
        Remark(u, r, c, 0);
      }
    }

    /** The counts after the mark on the hidden cell (r, c) was changed from
        u[r][c] to v. */
    lemma {:induction false} Remark(u: Grid, r: int, c: int, v: int)
      requires Shaped(u, rows, cols) && Shaped(layout, rows, cols) && InBounds(rows, cols, r, c)
      requires Uncovers(layout, board, rows, cols) && board[r][c] >= 0
      ensures layout[r][c] == board[r][c]
      ensures FlaggedMines(SetCell(u, r, c, v), layout, rows, cols) + FlaggedAt(u, layout, r, c) ==
              FlaggedMines(u, layout, rows, cols) + FlaggedAt(SetCell(u, r, c, v), layout, r, c)
      ensures Tally(SetCell(u, r, c, v), Holds(FLAG)) + Counts(u[r][c], Holds(FLAG)) == Tally(u, Holds(FLAG)) + Counts(v, Holds(FLAG))
    {
      StillCovered(layout, board, rows, cols, r, c);
      FlaggedSet(u, layout, rows, cols, r, c, v);
      TallySet(u, r, c, v, Holds(FLAG));
    }

    /** The win test of the game loop. */
    predicate Won()
      reads this`flag, this`winTarget
    {
      flag == winTarget
    }

    /** The game is won exactly when every mine of the layout is flagged. */
    lemma {:induction false} WonIffAllFlagged()
      requires Playing()
      ensures Won() <==> forall i, j :: InBounds(rows, cols, i, j) && IsMine(layout[i][j]) ==> flags[i][j] == FLAG
    {
      FlaggedAll(flags, layout, rows, cols);
    }
}
}
