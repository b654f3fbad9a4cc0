/** The minesweeper board of game.cpp as a value: a grid of `rows` rows of
    `cols` integers. A hidden cell holds '*' (42) for a mine or the number of
    mines around it; revealing a cell that holds v stores -(v + 1), so every
    revealed cell is negative. */
module MineGrid {
  type Grid = seq<seq<int>>

  /** The character '*' that marks a mine. */
  const MINE := 42
  /** The value a flagged cell holds in the player's marks array. */
  const FLAG := -1

  predicate IsMine(cell: int) {
    cell == MINE
  }

  predicate Shaped(g: Grid, rows: int, cols: int) {
    |g| == rows && 0 <= cols && forall i :: 0 <= i < rows ==> |g[i]| == cols
  }

  predicate InBounds(rows: int, cols: int, r: int, c: int) {
    0 <= r < rows && 0 <= c < cols
  }

  /** g with cell (r, c) replaced by x. */
  function SetCell(g: Grid, r: int, c: int, x: int): (h: Grid)
    requires 0 <= r < |g| && 0 <= c < |g[r]|
    ensures |h| == |g| && |h[r]| == |g[r]|
  {
    g[r := g[r][c := x]]
  }

  /** What a count looks for in a cell. */
  datatype Probe = Holds(v: int) | Lacks(v: int) | Covered

  /** 1 when the cell value matches the probe, else 0. `Covered` matches a
      cell that has not been revealed yet. */
  function Counts(x: int, p: Probe): nat {
    match p
    case Holds(v) => if x == v then 1 else 0
    case Lacks(v) => if x != v then 1 else 0
    case Covered => if x >= 0 then 1 else 0
  }

  const Mines := Holds(MINE)
  const Free := Lacks(MINE)

  lemma {:induction false} CountsMine(x: int)
    ensures Counts(x, Mines) == if IsMine(x) then 1 else 0
  {
  }

  // ---------------------------------------------------------------------
  // The 3 x 3 neighbourhood, visited as the nested loops of game.cpp do:
  // the row offset from -1 to 1, and inside it the column offset from -1 to
  // 1. Offset number k is (k / 3 - 1, k % 3 - 1); number 4 is the cell itself.

  function RowOffset(k: int): int {
    if k < 3 then -1 else if k < 6 then 0 else 1
  }

  function ColOffset(k: int): int {
    var m := if k < 3 then k else if k < 6 then k - 3 else k - 6;
    m - 1
  }

  /** Offset (dr, dc) has number 3 * (dr + 1) + (dc + 1). */
  lemma {:induction false} Offsets(dr: int, dc: int)
    requires -1 <= dr <= 1 && -1 <= dc <= 1
    ensures RowOffset(3 * (dr + 1) + (dc + 1)) == dr && ColOffset(3 * (dr + 1) + (dc + 1)) == dc
  {
  }

  /** The contribution of neighbour number k of (r, c): 1 when it lies on the
      board and matches p. The centre contributes only when `withCentre`. */
  function Term(g: Grid, rows: int, cols: int, r: int, c: int, p: Probe, withCentre: bool, k: int): nat
    requires Shaped(g, rows, cols)
  {
    if k == 4 && !withCentre then 0
    else
      var nr := r + RowOffset(k);
      var nc := c + ColOffset(k);
      if InBounds(rows, cols, nr, nc) then Counts(g[nr][nc], p) else 0
  }

  /** The sum of the first k terms. */
  function Around(g: Grid, rows: int, cols: int, r: int, c: int, p: Probe, withCentre: bool, k: int): (n: nat)
    requires Shaped(g, rows, cols) && 0 <= k <= 9
    ensures n <= k
    decreases k
  {
    if k == 0 then 0 else Around(g, rows, cols, r, c, p, withCentre, k - 1) + Term(g, rows, cols, r, c, p, withCentre, k - 1)
  }

  /** One more term, in the loops' own terms: visiting offset (dr, dc),
      which has number k, adds 1 to the count when that cell is on the
      board and matches. */
  lemma {:induction false} AroundNext(g: Grid, rows: int, cols: int, r: int, c: int, p: Probe, withCentre: bool,
                                      k: int, dr: int, dc: int, before: int, after: int)
    requires Shaped(g, rows, cols) && -1 <= dr <= 1 && -1 <= dc <= 1 && k == 3 * (dr + 1) + (dc + 1)
    requires before == Around(g, rows, cols, r, c, p, withCentre, k)
    requires after == before + if (withCentre || dr != 0 || dc != 0) && InBounds(rows, cols, r + dr, c + dc) then Counts(g[r + dr][c + dc], p) else 0
    ensures after == Around(g, rows, cols, r, c, p, withCentre, k + 1)
  {
    Offsets(dr, dc);
  }

  /** The number `updateAdjacentCount` stores: the mines in the in-bounds
      3 x 3 block, the cell itself included. */
  function Adjacent(g: Grid, rows: int, cols: int, r: int, c: int): int
    requires Shaped(g, rows, cols)
  {
    Around(g, rows, cols, r, c, Mines, true, 9)
  }

  /** The flags `TryChord` counts: the eight neighbours, centre excluded. */
  function FlagsAround(u: Grid, rows: int, cols: int, r: int, c: int): int
    requires Shaped(u, rows, cols)
  {
    Around(u, rows, cols, r, c, Holds(FLAG), false, 9)
  }

  /** No neighbour of (r, c) on the board is still hidden. */
  predicate NeighboursRevealed(g: Grid, rows: int, cols: int, r: int, c: int)
    requires Shaped(g, rows, cols)
  {
    Around(g, rows, cols, r, c, Covered, false, 9) == 0
  }

  /** Every cell matches the probe in h no more than in g. */
  ghost predicate Below(h: Grid, g: Grid, rows: int, cols: int, p: Probe) {
    Shaped(h, rows, cols) && Shaped(g, rows, cols) &&
    forall i, j :: InBounds(rows, cols, i, j) ==> Counts(h[i][j], p) <= Counts(g[i][j], p)
  }

  /** A count is zero exactly when each of its terms is. */
  lemma {:induction false} AroundZero(g: Grid, rows: int, cols: int, r: int, c: int, p: Probe, withCentre: bool, k: int)
    requires Shaped(g, rows, cols) && 0 <= k <= 9
    ensures Around(g, rows, cols, r, c, p, withCentre, k) == 0 <==>
            forall j :: 0 <= j < k ==> Term(g, rows, cols, r, c, p, withCentre, j) == 0
    decreases k
  {
    if k > 0 {
      AroundZero(g, rows, cols, r, c, p, withCentre, k - 1);
    }
  }

  /** Counting over a grid that matches the probe no more often gives no more. */
  lemma {:induction false} AroundBelow(h: Grid, g: Grid, rows: int, cols: int, r: int, c: int, p: Probe, withCentre: bool, k: int)
    requires Below(h, g, rows, cols, p) && 0 <= k <= 9
    ensures Around(h, rows, cols, r, c, p, withCentre, k) <= Around(g, rows, cols, r, c, p, withCentre, k)
    decreases k
  {
    if k > 0 {
      AroundBelow(h, g, rows, cols, r, c, p, withCentre, k - 1);
      var nr := r + RowOffset(k - 1);
      var nc := c + ColOffset(k - 1);
      if InBounds(rows, cols, nr, nc) {
        assert Counts(h[nr][nc], p) <= Counts(g[nr][nc], p);
      }
    }
  }

  /** Without the centre, the first k terms add up to at most k - 1 once the
      centre (number 4) is among them. */
  lemma {:induction false} AroundWithoutCentre(g: Grid, rows: int, cols: int, r: int, c: int, p: Probe, k: int)
    requires Shaped(g, rows, cols) && 5 <= k <= 9
    ensures Around(g, rows, cols, r, c, p, false, k) <= k - 1
    decreases k
  {
    if k > 5 {
      AroundWithoutCentre(g, rows, cols, r, c, p, k - 1);
    } else {
      assert Term(g, rows, cols, r, c, p, false, 4) == 0;
    }
  }

  /** Counting with the centre adds the centre's own match. */
  lemma {:induction false} AroundCentre(g: Grid, rows: int, cols: int, r: int, c: int, p: Probe, k: int)
    requires Shaped(g, rows, cols) && InBounds(rows, cols, r, c) && 5 <= k <= 9
    ensures Around(g, rows, cols, r, c, p, true, k) == Around(g, rows, cols, r, c, p, false, k) + Counts(g[r][c], p)
    decreases k
  {
    if k > 5 {
      AroundCentre(g, rows, cols, r, c, p, k - 1);
      assert Term(g, rows, cols, r, c, p, true, k - 1) == Term(g, rows, cols, r, c, p, false, k - 1);
    } else {
      SameBeforeCentre(g, rows, cols, r, c, p, 4);
      assert Term(g, rows, cols, r, c, p, false, 4) == 0;
      assert Term(g, rows, cols, r, c, p, true, 4) == Counts(g[r][c], p);
    }
  }

  lemma {:induction false} SameBeforeCentre(g: Grid, rows: int, cols: int, r: int, c: int, p: Probe, k: int)
    requires Shaped(g, rows, cols) && 0 <= k <= 4
    ensures Around(g, rows, cols, r, c, p, true, k) == Around(g, rows, cols, r, c, p, false, k)
    decreases k
  {
    if k > 0 {
      SameBeforeCentre(g, rows, cols, r, c, p, k - 1);
    }
  }

  /** A cell that is not a mine has at most eight mines around it, so its
      count is never mistaken for '*'. */
  lemma {:induction false} AdjacentBound(g: Grid, rows: int, cols: int, r: int, c: int)
    requires Shaped(g, rows, cols) && InBounds(rows, cols, r, c) && !IsMine(g[r][c])
    ensures 0 <= Adjacent(g, rows, cols, r, c) <= 8 && !IsMine(Adjacent(g, rows, cols, r, c))
  {
    AroundCentre(g, rows, cols, r, c, Mines, 9);
    AroundWithoutCentre(g, rows, cols, r, c, Mines, 9);
  }

  /** A count of zero means that no neighbour on the board is a mine, and
      conversely. */
  lemma {:induction false} AdjacentZero(g: Grid, rows: int, cols: int, r: int, c: int)
    requires Shaped(g, rows, cols)
    ensures Adjacent(g, rows, cols, r, c) == 0 <==>
            forall k :: 0 <= k < 9 ==> Term(g, rows, cols, r, c, Mines, true, k) == 0
  {
    AroundZero(g, rows, cols, r, c, Mines, true, 9);
  }

  /** Two grids with their mines in the same cells give every cell the same
      count. */
  lemma {:induction false} AdjacentSameMines(g: Grid, h: Grid, rows: int, cols: int, r: int, c: int)
    requires SameMines(g, h, rows, cols)
    ensures Adjacent(g, rows, cols, r, c) == Adjacent(h, rows, cols, r, c)
  {
    AroundBelow(g, h, rows, cols, r, c, Mines, true, 9);
    AroundBelow(h, g, rows, cols, r, c, Mines, true, 9);
  }

  ghost predicate SameMines(g: Grid, h: Grid, rows: int, cols: int) {
    Below(g, h, rows, cols, Mines) && Below(h, g, rows, cols, Mines)
  }

  // ---------------------------------------------------------------------
  // Counting cells over the whole board, row by row in row-major order.

  /** The cells among the first n of a row that match p. */
  function InRow(row: seq<int>, n: int, p: Probe): (t: nat)
    requires 0 <= n <= |row|
    ensures t <= n
    decreases n
  {
    if n == 0 then 0 else InRow(row, n - 1, p) + Counts(row[n - 1], p)
  }

  /** The cells of the first n rows that match p. */
  function InRows(g: Grid, n: int, p: Probe): nat
    requires 0 <= n <= |g|
    decreases n
  {
    if n == 0 then 0 else InRows(g, n - 1, p) + InRow(g[n - 1], |g[n - 1]|, p)
  }

  /** The cells of the board that match p. */
  function Tally(g: Grid, p: Probe): nat {
    InRows(g, |g|, p)
  }

  /** The position of (r, c) among the free cells in row-major order: the
      number of free cells before it. */
  function Rank(g: Grid, r: int, c: int): nat
    requires 0 <= r < |g| && 0 <= c <= |g[r]|
  {
    InRows(g, r, Free) + InRow(g[r], c, Free)
  }

  lemma {:induction false} InRowSet(row: seq<int>, n: int, p: Probe, c: int, x: int)
    requires 0 <= n <= |row| && 0 <= c < |row|
    ensures InRow(row[c := x], n, p) + (if c < n then Counts(row[c], p) else 0) ==
            InRow(row, n, p) + (if c < n then Counts(x, p) else 0)
    decreases n
  {
    if n > 0 {
      InRowSet(row, n - 1, p, c, x);
    }
  }

  lemma {:induction false} InRowsSet(g: Grid, n: int, p: Probe, r: int, row: seq<int>)
    requires 0 <= n <= |g| && 0 <= r < |g|
    ensures InRows(g[r := row], n, p) + (if r < n then InRow(g[r], |g[r]|, p) else 0) ==
            InRows(g, n, p) + (if r < n then InRow(row, |row|, p) else 0)
    decreases n
  {
    if n > 0 {
      InRowsSet(g, n - 1, p, r, row);
    }
  }

  /** Changing one cell changes a board count by that cell's own change. */
  lemma {:induction false} TallySet(g: Grid, r: int, c: int, x: int, p: Probe)
    requires 0 <= r < |g| && 0 <= c < |g[r]|
    ensures Tally(SetCell(g, r, c, x), p) + Counts(g[r][c], p) == Tally(g, p) + Counts(x, p)
  {
    InRowSet(g[r], |g[r]|, p, c, x);
    InRowsSet(g, |g|, p, r, g[r][c := x]);
  }

  lemma {:induction false} InRowBelow(h: seq<int>, g: seq<int>, n: int, p: Probe)
    requires 0 <= n <= |h| == |g| && forall j :: 0 <= j < |g| ==> Counts(h[j], p) <= Counts(g[j], p)
    ensures InRow(h, n, p) <= InRow(g, n, p)
    decreases n
  {
    if n > 0 {
      InRowBelow(h, g, n - 1, p);
    }
  }

  lemma {:induction false} InRowsBelow(h: Grid, g: Grid, rows: int, cols: int, n: int, p: Probe)
    requires Below(h, g, rows, cols, p) && 0 <= n <= rows
    ensures InRows(h, n, p) <= InRows(g, n, p)
    decreases n
  {
    if n > 0 {
      InRowsBelow(h, g, rows, cols, n - 1, p);
      var i := n - 1;
      forall j | 0 <= j < cols
        ensures Counts(h[i][j], p) <= Counts(g[i][j], p)
      {
        assert InBounds(rows, cols, i, j);
      }
      InRowBelow(h[i], g[i], cols, p);
    }
  }

  /** A board that matches the probe cell by cell no more often than another
      has no larger count. */
  lemma {:induction false} TallyBelow(h: Grid, g: Grid, rows: int, cols: int, p: Probe)
    requires Below(h, g, rows, cols, p)
    ensures Tally(h, p) <= Tally(g, p)
  {
    InRowsBelow(h, g, rows, cols, rows, p);
  }

  // ---------------------------------------------------------------------
  // Placing mines.

  /** The empty board `generateMines` starts from. */
  function Zeros(rows: nat, cols: nat): (g: Grid)
    ensures Shaped(g, rows, cols)
  {
    seq(rows, i => seq(cols, j => 0))
  }

  lemma {:induction false} InRowZeros(cols: nat, n: int)
    requires 0 <= n <= cols
    ensures InRow(seq(cols, j => 0), n, Free) == n && InRow(seq(cols, j => 0), n, Mines) == 0
    ensures InRow(seq(cols, j => 0), n, Holds(FLAG)) == 0
    decreases n
  {
    if n > 0 {
      InRowZeros(cols, n - 1);
    }
  }

  lemma {:induction false} InRowsZeros(rows: nat, cols: nat, n: int)
    requires 0 <= n <= rows
    ensures InRows(Zeros(rows, cols), n, Free) == n * cols && InRows(Zeros(rows, cols), n, Mines) == 0
    ensures InRows(Zeros(rows, cols), n, Holds(FLAG)) == 0
    decreases n
  {
    if n > 0 {
      InRowsZeros(rows, cols, n - 1);
      InRowZeros(cols, cols);
      assert Zeros(rows, cols)[n - 1] == seq(cols, j => 0);
      assert (n - 1) * cols + cols == n * cols;
    }
  }

  /** The empty board has rows * cols free cells and no mine. */
  lemma {:induction false} ZerosTally(rows: nat, cols: nat)
    ensures Tally(Zeros(rows, cols), Free) == rows * cols && Tally(Zeros(rows, cols), Mines) == 0
    ensures Tally(Zeros(rows, cols), Holds(FLAG)) == 0
  {
    InRowsZeros(rows, cols, rows);
  }

  /** The column of the free cell of in-row rank k, searching from column c. */
  function SeekInRow(row: seq<int>, k: int, c: int): (j: int)
    requires 0 <= c <= |row| && InRow(row, c, Free) <= k < InRow(row, |row|, Free)
    ensures c <= j < |row| && !IsMine(row[j]) && InRow(row, j, Free) == k
    decreases |row| - c
  {
    if !IsMine(row[c]) && InRow(row, c, Free) == k then c else SeekInRow(row, k, c + 1)
  }

  /** The free cell of rank k in row-major order, searching from row r. */
  function Seek(g: Grid, k: int, r: int): (pos: (int, int))
    requires 0 <= r <= |g| && InRows(g, r, Free) <= k < Tally(g, Free)
    ensures r <= pos.0 < |g| && 0 <= pos.1 < |g[pos.0]|
    ensures !IsMine(g[pos.0][pos.1]) && Rank(g, pos.0, pos.1) == k
    decreases |g| - r
  {
    if k < InRows(g, r + 1, Free) then (r, SeekInRow(g[r], k - InRows(g, r, Free), 0))
    else Seek(g, k, r + 1)
  }

  lemma {:induction false} InRowMono(row: seq<int>, a: int, b: int, p: Probe)
    requires 0 <= a <= b <= |row|
    ensures InRow(row, a, p) <= InRow(row, b, p)
    decreases b - a
  {
    if a < b {
      InRowMono(row, a, b - 1, p);
    }
  }

  lemma {:induction false} InRowsMono(g: Grid, a: int, b: int, p: Probe)
    requires 0 <= a <= b <= |g|
    ensures InRows(g, a, p) <= InRows(g, b, p)
    decreases b - a
  {
    if a < b {
      InRowsMono(g, a, b - 1, p);
    }
  }

  /** A free cell ranks below every cell after it in row-major order. */
  lemma {:induction false} RankOrder(g: Grid, rows: int, cols: int, r1: int, c1: int, r2: int, c2: int)
    requires Shaped(g, rows, cols) && InBounds(rows, cols, r1, c1) && InBounds(rows, cols, r2, c2)
    requires !IsMine(g[r1][c1]) && (r1 < r2 || (r1 == r2 && c1 < c2))
    ensures Rank(g, r1, c1) < Rank(g, r2, c2)
  {
    if r1 == r2 {
      InRowMono(g[r1], c1 + 1, c2, Free);
    } else {
      InRowMono(g[r1], c1 + 1, cols, Free);
      InRowsMono(g, r1 + 1, r2, Free);
    }
  }

  /** Two free cells of the same rank are the same cell. */
  lemma {:induction false} RankUnique(g: Grid, rows: int, cols: int, r1: int, c1: int, r2: int, c2: int)
    requires Shaped(g, rows, cols) && InBounds(rows, cols, r1, c1) && InBounds(rows, cols, r2, c2)
    requires !IsMine(g[r1][c1]) && !IsMine(g[r2][c2])
    requires Rank(g, r1, c1) == Rank(g, r2, c2)
    ensures r1 == r2 && c1 == c2
  {
    if r1 < r2 || (r1 == r2 && c1 < c2) {
      RankOrder(g, rows, cols, r1, c1, r2, c2);
    } else if r2 < r1 || (r1 == r2 && c2 < c1) {
      RankOrder(g, rows, cols, r2, c2, r1, c1);
    }
  }

  /** One round of the `generateMines` selection loop: the free cell of rank
      k in row-major order becomes a mine. */
  function Place(g: Grid, k: int): (h: Grid)
    requires 0 <= k < Tally(g, Free)
  {
    var pos := Seek(g, k, 0);
    SetCell(g, pos.0, pos.1, MINE)
  }

  /** Placing turns one free cell into a mine and leaves the shape alone. */
  lemma {:induction false} PlaceTally(g: Grid, rows: int, cols: int, k: int)
    requires Shaped(g, rows, cols) && 0 <= k < Tally(g, Free)
    ensures Shaped(Place(g, k), rows, cols)
    ensures Tally(Place(g, k), Free) == Tally(g, Free) - 1
    ensures Tally(Place(g, k), Mines) == Tally(g, Mines) + 1
  {
    var pos := Seek(g, k, 0);
    TallySet(g, pos.0, pos.1, MINE, Free);
    TallySet(g, pos.0, pos.1, MINE, Mines);
  }

  /** The indices `randomInt` may return, one per round: in round i, from 0
      to the number of cells still free minus one (game.cpp:66). */
  predicate ValidPicks(rows: nat, cols: nat, picks: seq<int>) {
    forall i :: 0 <= i < |picks| ==> 0 <= picks[i] <= rows * cols - 1 - i
  }

  /** The board after the selection loop has used the given picks. */
  function Mined(rows: nat, cols: nat, picks: seq<int>): (g: Grid)
    requires ValidPicks(rows, cols, picks)
    ensures Shaped(g, rows, cols)
    ensures Tally(g, Mines) == |picks| && Tally(g, Free) == rows * cols - |picks|
    decreases |picks|
  {
    if |picks| == 0 then
      ZerosTally(rows, cols);
      Zeros(rows, cols)
    else
      var before := Mined(rows, cols, picks[..|picks| - 1]);
      PlaceTally(before, rows, cols, picks[|picks| - 1]);
      Place(before, picks[|picks| - 1])
  }

  // ---------------------------------------------------------------------
  // Numbering.

  /** What the numbering pass leaves in a cell of the mined board g0. */
  function Numbered(g0: Grid, rows: int, cols: int, r: int, c: int): int
    requires Shaped(g0, rows, cols) && InBounds(rows, cols, r, c)
  {
    if IsMine(g0[r][c]) then MINE else Adjacent(g0, rows, cols, r, c)
  }

  /** g is the mined board g0 after the numbering pass. */
  ghost predicate NumberedFrom(g: Grid, g0: Grid, rows: int, cols: int) {
    Shaped(g, rows, cols) && Shaped(g0, rows, cols) &&
    forall i, j :: InBounds(rows, cols, i, j) ==> g[i][j] == Numbered(g0, rows, cols, i, j)
  }

  /** Cell (i, j) holds a mine or the number of mines around it. */
  predicate HoldsCount(g: Grid, rows: int, cols: int, i: int, j: int)
    requires Shaped(g, rows, cols) && InBounds(rows, cols, i, j)
  {
    !IsMine(g[i][j]) ==> g[i][j] == Adjacent(g, rows, cols, i, j)
  }

  /** Every cell that is not a mine holds the number of mines around it. */
  ghost predicate Consistent(g: Grid, rows: int, cols: int) {
    Shaped(g, rows, cols) &&
    forall i, j {:trigger HoldsCount(g, rows, cols, i, j)} :: InBounds(rows, cols, i, j) ==> HoldsCount(g, rows, cols, i, j)
  }

  /** Numbering keeps the mines where they were, and leaves a board whose
      other cells each hold their count, a number from 0 to 8. */
  lemma {:induction false} NumberedIsConsistent(g: Grid, g0: Grid, rows: int, cols: int)
    requires NumberedFrom(g, g0, rows, cols)
    ensures SameMines(g, g0, rows, cols) && Consistent(g, rows, cols)
    ensures forall i, j :: InBounds(rows, cols, i, j) && !IsMine(g[i][j]) ==> 0 <= g[i][j] <= 8
  {
    forall i, j | InBounds(rows, cols, i, j)
      ensures IsMine(g[i][j]) <==> IsMine(g0[i][j])
      ensures !IsMine(g[i][j]) ==> 0 <= g[i][j] <= 8
    {
      if !IsMine(g0[i][j]) {
        AdjacentBound(g0, rows, cols, i, j);
      }
    }
    assert SameMines(g, g0, rows, cols);
    forall i, j | InBounds(rows, cols, i, j)
      ensures HoldsCount(g, rows, cols, i, j)
    {
      AdjacentSameMines(g, g0, rows, cols, i, j);
    }
  }

  // ---------------------------------------------------------------------
  // Revealing.

  /** The value a cell shows once revealed. */
  function Revealed(v: int): int {
    -(v + 1)
  }

  /** g1 is g0 with some hidden cells revealed and nothing else changed. */
  ghost predicate Uncovers(g0: Grid, g1: Grid, rows: int, cols: int) {
    Shaped(g0, rows, cols) && Shaped(g1, rows, cols) &&
    forall i, j :: InBounds(rows, cols, i, j) ==>
      g1[i][j] == g0[i][j] || (g0[i][j] >= 0 && g1[i][j] == Revealed(g0[i][j]))
  }

  /** Every cell holding 0 that g1 revealed has all its neighbours revealed
      in g1: the flood fill left no edge open. */
  ghost predicate Closed(g0: Grid, g1: Grid, rows: int, cols: int)
    requires Shaped(g0, rows, cols) && Shaped(g1, rows, cols)
  {
    forall i, j :: InBounds(rows, cols, i, j) && g0[i][j] == 0 && g1[i][j] < 0 ==> NeighboursRevealed(g1, rows, cols, i, j)
  }

  /** A flood step: cells revealed, and the zero cells among them closed. */
  ghost predicate Floods(g0: Grid, g1: Grid, rows: int, cols: int) {
    Uncovers(g0, g1, rows, cols) && Closed(g0, g1, rows, cols)
  }

  /** Revealing never hides a cell again, so fewer cells stay hidden. */
  lemma {:induction false} UncoversBelow(g0: Grid, g1: Grid, rows: int, cols: int)
    requires Uncovers(g0, g1, rows, cols)
    ensures Below(g1, g0, rows, cols, Covered) && Tally(g1, Covered) <= Tally(g0, Covered)
  {
    assert Below(g1, g0, rows, cols, Covered);
    TallyBelow(g1, g0, rows, cols, Covered);
  }

  /** Uncovering is transitive. */
  lemma {:induction false} UncoversTrans(g0: Grid, g1: Grid, g2: Grid, rows: int, cols: int)
    requires Uncovers(g0, g1, rows, cols) && Uncovers(g1, g2, rows, cols)
    ensures Uncovers(g0, g2, rows, cols)
  {
    forall i, j | InBounds(rows, cols, i, j)
      ensures g2[i][j] == g0[i][j] || (g0[i][j] >= 0 && g2[i][j] == Revealed(g0[i][j]))
    {
      assert g1[i][j] == g0[i][j] || (g0[i][j] >= 0 && g1[i][j] == Revealed(g0[i][j]));
      assert g2[i][j] == g1[i][j] || (g1[i][j] >= 0 && g2[i][j] == Revealed(g1[i][j]));
    }
  }

  /** Flood steps compose. */
  lemma {:induction false} FloodsTrans(g0: Grid, g1: Grid, g2: Grid, rows: int, cols: int)
    requires Floods(g0, g1, rows, cols) && Floods(g1, g2, rows, cols)
    ensures Floods(g0, g2, rows, cols)
  {
    UncoversTrans(g0, g1, g2, rows, cols);
    UncoversBelow(g1, g2, rows, cols);
    forall i, j | InBounds(rows, cols, i, j) && g0[i][j] == 0 && g2[i][j] < 0
      ensures NeighboursRevealed(g2, rows, cols, i, j)
    {
      if g1[i][j] < 0 {
        AroundBelow(g2, g1, rows, cols, i, j, Covered, false, 9);
      } else {
        assert g1[i][j] == g0[i][j];
      }
    }
  }

  /** A zero cell revealed while its neighbours are all revealed: the
      revealing step that opens it still closes it. */
  lemma {:induction false} FloodsAround(g0: Grid, g1: Grid, g9: Grid, rows: int, cols: int, r: int, c: int)
    requires Shaped(g0, rows, cols) && InBounds(rows, cols, r, c) && g0[r][c] == 0
    requires g1 == SetCell(g0, r, c, Revealed(0))
    requires Floods(g1, g9, rows, cols) && NeighboursRevealed(g9, rows, cols, r, c)
    ensures Floods(g0, g9, rows, cols)
  {
    assert Uncovers(g0, g1, rows, cols);
    UncoversTrans(g0, g1, g9, rows, cols);
    forall i, j | InBounds(rows, cols, i, j) && g0[i][j] == 0 && g9[i][j] < 0
      ensures NeighboursRevealed(g9, rows, cols, i, j)
    {
      if (i, j) != (r, c) {
        assert g1[i][j] == g0[i][j];
      }
    }
  }

  /** Revealing one cell that does not hold 0 is a flood step. */
  lemma {:induction false} RevealOne(g0: Grid, rows: int, cols: int, r: int, c: int)
    requires Shaped(g0, rows, cols) && InBounds(rows, cols, r, c) && g0[r][c] > 0
    ensures Floods(g0, SetCell(g0, r, c, Revealed(g0[r][c])), rows, cols)
  {
  }

  /** Nothing changed is a flood step. */
  lemma {:induction false} FloodsRefl(g: Grid, rows: int, cols: int)
    requires Shaped(g, rows, cols)
    ensures Floods(g, g, rows, cols)
  {
  }

  /** (nr, nc) is one of the eight cells around (r, c). */
  predicate IsNeighbour(r: int, c: int, nr: int, nc: int) {
    r - 1 <= nr <= r + 1 && c - 1 <= nc <= c + 1 && (nr != r || nc != c)
  }

  /** (a, b) held 0 in g0 and is revealed in g1. */
  predicate OpenedZero(g0: Grid, g1: Grid, rows: int, cols: int, a: int, b: int)
    requires Shaped(g0, rows, cols) && Shaped(g1, rows, cols)
  {
    InBounds(rows, cols, a, b) && g0[a][b] == 0 && g1[a][b] < 0
  }

  /** Some neighbour of (i, j) is a zero cell that g1 revealed. */
  ghost predicate NearOpenedZero(g0: Grid, g1: Grid, rows: int, cols: int, i: int, j: int)
    requires Shaped(g0, rows, cols) && Shaped(g1, rows, cols)
  {
    exists a, b :: IsNeighbour(i, j, a, b) && OpenedZero(g0, g1, rows, cols, a, b)
  }

  /** (i, j) lies in the 3 x 3 block around (r, c) at an offset numbered from
      lo up to, but not including, hi. The block (4, 5) is (r, c) alone. */
  predicate InBlock(r: int, c: int, lo: int, hi: int, i: int, j: int) {
    r - 1 <= i <= r + 1 && c - 1 <= j <= c + 1 && lo <= 3 * (i - r + 1) + (j - c + 1) < hi
  }

  /** The bound of a flood: every cell g1 changed is in the given part of
      the block around (r, c), or next to a zero cell that g1 revealed. */
  ghost predicate Reached(g0: Grid, g1: Grid, rows: int, cols: int, r: int, c: int, lo: int, hi: int) {
    Shaped(g0, rows, cols) && Shaped(g1, rows, cols) &&
    forall i, j :: InBounds(rows, cols, i, j) && g1[i][j] != g0[i][j] ==>
      InBlock(r, c, lo, hi, i, j) || NearOpenedZero(g0, g1, rows, cols, i, j)
  }

  /** Every cell that holds a mine in g0 still holds one, hidden, in g1. */
  ghost predicate MinesHidden(g0: Grid, g1: Grid, rows: int, cols: int) {
    Shaped(g0, rows, cols) && Shaped(g1, rows, cols) &&
    forall i, j :: InBounds(rows, cols, i, j) && IsMine(g0[i][j]) ==> g1[i][j] == MINE
  }

  /** Revealing the one cell (r, c) stays within (r, c). */
  lemma {:induction false} ReachedOne(g0: Grid, rows: int, cols: int, r: int, c: int, x: int)
    requires Shaped(g0, rows, cols) && InBounds(rows, cols, r, c)
    ensures Reached(g0, SetCell(g0, r, c, x), rows, cols, r, c, 4, 5)
  {
    var g1 := SetCell(g0, r, c, x);
    forall i, j | InBounds(rows, cols, i, j) && g1[i][j] != g0[i][j]
      ensures InBlock(r, c, 4, 5, i, j)
    {
      assert i == r && j == c;
    }
  }

  /** A zero cell revealed by g, and still revealed in h, was revealed from
      g0 to h. */
  lemma {:induction false} OpenedStays(g0: Grid, g: Grid, h: Grid, rows: int, cols: int, a: int, b: int)
    requires Uncovers(g0, g, rows, cols) && Uncovers(g, h, rows, cols)
    requires OpenedZero(g0, g, rows, cols, a, b) || OpenedZero(g, h, rows, cols, a, b)
    ensures OpenedZero(g0, h, rows, cols, a, b)
  {
    if !OpenedZero(g0, g, rows, cols, a, b) {
      assert g[a][b] >= 0;
    }
  }

  /** A cell near a zero cell revealed by one of two successive steps is
      near one revealed by both together. */
  lemma {:induction false} NearStays(g0: Grid, g: Grid, h: Grid, rows: int, cols: int, i: int, j: int)
    requires Uncovers(g0, g, rows, cols) && Uncovers(g, h, rows, cols)
    requires NearOpenedZero(g0, g, rows, cols, i, j) || NearOpenedZero(g, h, rows, cols, i, j)
    ensures NearOpenedZero(g0, h, rows, cols, i, j)
  {
    var a, b :| IsNeighbour(i, j, a, b) && (OpenedZero(g0, g, rows, cols, a, b) || OpenedZero(g, h, rows, cols, a, b));
    OpenedStays(g0, g, h, rows, cols, a, b);
  }

  /** Flood bounds compose: after a bounded step from g0 to g, a flood from
      g to h started at (nr, nc), a cell of the wider block or one next to a
      zero cell revealed on the way, stays within the wider bound. */
  lemma {:induction false} ReachedThen(g0: Grid, g: Grid, h: Grid, rows: int, cols: int, r: int, c: int,
                                       lo: int, hi: int, hi2: int, nr: int, nc: int)
    requires Uncovers(g0, g, rows, cols) && Uncovers(g, h, rows, cols) && hi <= hi2
    requires Reached(g0, g, rows, cols, r, c, lo, hi) && Reached(g, h, rows, cols, nr, nc, 4, 5)
    requires InBlock(r, c, lo, hi2, nr, nc) || NearOpenedZero(g0, h, rows, cols, nr, nc)
    ensures Reached(g0, h, rows, cols, r, c, lo, hi2)
  {
    forall i, j | InBounds(rows, cols, i, j) && h[i][j] != g0[i][j]
      ensures InBlock(r, c, lo, hi2, i, j) || NearOpenedZero(g0, h, rows, cols, i, j)
    {
      if g[i][j] != g0[i][j] {
        if !InBlock(r, c, lo, hi, i, j) {
          NearStays(g0, g, h, rows, cols, i, j);
        }
      } else if !InBlock(nr, nc, 4, 5, i, j) {
        NearStays(g0, g, h, rows, cols, i, j);
      }
    }
  }

  /** A wider block bounds more. */
  lemma {:induction false} ReachedWiden(g0: Grid, g1: Grid, rows: int, cols: int, r: int, c: int, lo: int, hi: int, hi2: int)
    requires Reached(g0, g1, rows, cols, r, c, lo, hi) && hi <= hi2
    ensures Reached(g0, g1, rows, cols, r, c, lo, hi2)
  {
  }

  /** On a consistent board, a cell holding 0 has no mine around it. */
  lemma {:induction false} ZeroHasNoMineNear(g: Grid, rows: int, cols: int, a: int, b: int, i: int, j: int)
    requires Consistent(g, rows, cols) && InBounds(rows, cols, a, b) && g[a][b] == 0
    requires IsNeighbour(a, b, i, j) && InBounds(rows, cols, i, j)
    ensures !IsMine(g[i][j])
  {
    assert HoldsCount(g, rows, cols, a, b);
    AdjacentZero(g, rows, cols, a, b);
    Offsets(i - a, j - b);
    assert Term(g, rows, cols, a, b, Mines, true, 3 * (i - a + 1) + (j - b + 1)) == 0;
  }

  /** A flood on a board uncovered from a consistent layout, started on a
      cell that is not a mine, reveals no mine: a mine is never next to a
      zero cell. */
  lemma {:induction false} FloodSparesMines(lay: Grid, g: Grid, h: Grid, rows: int, cols: int, r: int, c: int)
    requires Consistent(lay, rows, cols) && Uncovers(lay, g, rows, cols) && Uncovers(g, h, rows, cols)
    requires Reached(g, h, rows, cols, r, c, 4, 5)
    requires InBounds(rows, cols, r, c) ==> !IsMine(g[r][c])
    ensures MinesHidden(g, h, rows, cols)
  {
    forall i, j | InBounds(rows, cols, i, j) && IsMine(g[i][j])
      ensures h[i][j] == MINE
    {
      if h[i][j] != g[i][j] {
        assert !InBlock(r, c, 4, 5, i, j);
        var a, b :| IsNeighbour(i, j, a, b) && OpenedZero(g, h, rows, cols, a, b);
        assert lay[a][b] == 0;
        ZeroHasNoMineNear(lay, rows, cols, a, b, i, j);
        assert false;
      }
    }
  }

  /** Mines kept hidden by two successive steps stay hidden. */
  lemma {:induction false} MinesHiddenTrans(g0: Grid, g: Grid, h: Grid, rows: int, cols: int)
    requires MinesHidden(g0, g, rows, cols) && MinesHidden(g, h, rows, cols)
    ensures MinesHidden(g0, h, rows, cols)
  {
    forall i, j | InBounds(rows, cols, i, j) && IsMine(g0[i][j])
      ensures h[i][j] == MINE
    {
      assert g[i][j] == MINE;
    }
  }

  /** A board uncovered from g0 and keeping the layout's mines hidden keeps
      g0's mines hidden. */
  lemma {:induction false} HiddenFromLayout(lay: Grid, g0: Grid, g: Grid, rows: int, cols: int)
    requires Uncovers(lay, g0, rows, cols) && MinesHidden(lay, g, rows, cols)
    ensures MinesHidden(g0, g, rows, cols)
  {
    forall i, j | InBounds(rows, cols, i, j) && IsMine(g0[i][j])
      ensures g[i][j] == MINE
    {
      assert IsMine(lay[i][j]);
    }
  }

  // ---------------------------------------------------------------------
  // Progress of the numbering pass.

  /** The numbering pass over g0 has done every cell before (r, c) in
      row-major order and none after. */
  ghost predicate NumberedUpTo(g: Grid, g0: Grid, rows: int, cols: int, r: int, c: int) {
    Shaped(g, rows, cols) && Shaped(g0, rows, cols) && SameMines(g, g0, rows, cols) &&
    forall i, j :: InBounds(rows, cols, i, j) ==>
      g[i][j] == if i < r || (i == r && j < c) then Numbered(g0, rows, cols, i, j) else g0[i][j]
  }

  lemma {:induction false} NumberedStart(g0: Grid, rows: int, cols: int)
    requires Shaped(g0, rows, cols)
    ensures NumberedUpTo(g0, g0, rows, cols, 0, 0)
  {
    assert SameMines(g0, g0, rows, cols);
  }

  /** Numbering cell (r, c) in place, with the counts taken on the partly
      numbered board g, extends the progress by one cell: g has its mines
      where g0 has them, so the count is the one g0 gives. */
  lemma {:induction false} NumberedStep(g: Grid, g0: Grid, rows: int, cols: int, r: int, c: int)
    requires NumberedUpTo(g, g0, rows, cols, r, c) && InBounds(rows, cols, r, c)
    ensures var h := if IsMine(g[r][c]) then g else SetCell(g, r, c, Adjacent(g, rows, cols, r, c));
            NumberedUpTo(h, g0, rows, cols, r, c + 1)
  {
    if !IsMine(g[r][c]) {
      AdjacentSameMines(g, g0, rows, cols, r, c);
      AdjacentBound(g, rows, cols, r, c);
      var h := SetCell(g, r, c, Adjacent(g, rows, cols, r, c));
      assert SameMines(h, g0, rows, cols) by {
        forall i, j | InBounds(rows, cols, i, j)
          ensures IsMine(h[i][j]) <==> IsMine(g[i][j])
        {
        }
      }
    }
  }

  lemma {:induction false} NumberedRow(g: Grid, g0: Grid, rows: int, cols: int, r: int)
    requires NumberedUpTo(g, g0, rows, cols, r, cols)
    ensures NumberedUpTo(g, g0, rows, cols, r + 1, 0)
  {
  }

  lemma {:induction false} NumberedEnd(g: Grid, g0: Grid, rows: int, cols: int)
    requires NumberedUpTo(g, g0, rows, cols, rows, 0)
    ensures NumberedFrom(g, g0, rows, cols)
  {
  }

  // ---------------------------------------------------------------------
  // Cells shown by a reveal.

  /** (r, c) is off the board or revealed. */
  ghost predicate Shown(g: Grid, rows: int, cols: int, r: int, c: int) {
    Shaped(g, rows, cols) && (InBounds(rows, cols, r, c) ==> g[r][c] < 0)
  }

  lemma {:induction false} ShownStays(g0: Grid, g1: Grid, rows: int, cols: int, r: int, c: int)
    requires Uncovers(g0, g1, rows, cols) && Shown(g0, rows, cols, r, c)
    ensures Shown(g1, rows, cols, r, c)
  {
  }

  /** When the eight neighbours are shown, none is hidden. */
  lemma {:induction false} AllShown(g: Grid, rows: int, cols: int, r: int, c: int)
    requires Shown(g, rows, cols, r - 1, c - 1) && Shown(g, rows, cols, r - 1, c) && Shown(g, rows, cols, r - 1, c + 1)
    requires Shown(g, rows, cols, r, c - 1) && Shown(g, rows, cols, r, c + 1)
    requires Shown(g, rows, cols, r + 1, c - 1) && Shown(g, rows, cols, r + 1, c) && Shown(g, rows, cols, r + 1, c + 1)
    ensures NeighboursRevealed(g, rows, cols, r, c)
  {
    ShownTerm(g, rows, cols, r, c, -1, -1);
    assert Around(g, rows, cols, r, c, Covered, false, 1) == 0;
    ShownTerm(g, rows, cols, r, c, -1, 0);
    assert Around(g, rows, cols, r, c, Covered, false, 2) == 0;
    ShownTerm(g, rows, cols, r, c, -1, 1);
    assert Around(g, rows, cols, r, c, Covered, false, 3) == 0;
    ShownTerm(g, rows, cols, r, c, 0, -1);
    assert Around(g, rows, cols, r, c, Covered, false, 4) == 0;
    assert Around(g, rows, cols, r, c, Covered, false, 5) == 0;
    ShownTerm(g, rows, cols, r, c, 0, 1);
    assert Around(g, rows, cols, r, c, Covered, false, 6) == 0;
    ShownTerm(g, rows, cols, r, c, 1, -1);
    assert Around(g, rows, cols, r, c, Covered, false, 7) == 0;
    ShownTerm(g, rows, cols, r, c, 1, 0);
    assert Around(g, rows, cols, r, c, Covered, false, 8) == 0;
    ShownTerm(g, rows, cols, r, c, 1, 1);
  }

  /** A shown neighbour adds nothing to the count of hidden ones. */
  lemma {:induction false} ShownTerm(g: Grid, rows: int, cols: int, r: int, c: int, dr: int, dc: int)
    requires Shown(g, rows, cols, r + dr, c + dc) && -1 <= dr <= 1 && -1 <= dc <= 1
    ensures Term(g, rows, cols, r, c, Covered, false, 3 * (dr + 1) + (dc + 1)) == 0
  {
    Offsets(dr, dc);
  }

  // ---------------------------------------------------------------------
  // Flags on mines.

  /** Flagged mines among the first n cells of a row. */
  function FlaggedInRow(u: seq<int>, g: seq<int>, n: int): nat
    requires 0 <= n <= |u| && n <= |g|
    decreases n
  {
    if n == 0 then 0 else FlaggedInRow(u, g, n - 1) + (if u[n - 1] == FLAG && IsMine(g[n - 1]) then 1 else 0)
  }

  /** Flagged mines in the first n rows. */
  function FlaggedInRows(u: Grid, g: Grid, rows: int, cols: int, n: int): nat
    requires Shaped(u, rows, cols) && Shaped(g, rows, cols) && 0 <= n <= rows
    decreases n
  {
    if n == 0 then 0 else FlaggedInRows(u, g, rows, cols, n - 1) + FlaggedInRow(u[n - 1], g[n - 1], cols)
  }

  /** The mines the player has flagged. */
  function FlaggedMines(u: Grid, g: Grid, rows: int, cols: int): nat
    requires Shaped(u, rows, cols) && Shaped(g, rows, cols)
  {
    FlaggedInRows(u, g, rows, cols, rows)
  }

  function FlaggedAt(u: Grid, g: Grid, r: int, c: int): int
    requires 0 <= r < |u| && 0 <= c < |u[r]| && r < |g| && c < |g[r]|
  {
    if u[r][c] == FLAG && IsMine(g[r][c]) then 1 else 0
  }

  lemma {:induction false} FlaggedInRowSet(u: seq<int>, g: seq<int>, n: int, c: int, x: int)
    requires 0 <= n <= |u| == |g| && 0 <= c < |u|
    ensures FlaggedInRow(u[c := x], g, n) + (if c < n && u[c] == FLAG && IsMine(g[c]) then 1 else 0) ==
            FlaggedInRow(u, g, n) + (if c < n && x == FLAG && IsMine(g[c]) then 1 else 0)
    decreases n
  {
    if n > 0 {
      FlaggedInRowSet(u, g, n - 1, c, x);
    }
  }

  lemma {:induction false} FlaggedInRowsSet(u: Grid, g: Grid, rows: int, cols: int, n: int, r: int, c: int, x: int)
    requires Shaped(u, rows, cols) && Shaped(g, rows, cols) && 0 <= n <= rows && InBounds(rows, cols, r, c)
    ensures Shaped(SetCell(u, r, c, x), rows, cols)
    ensures FlaggedInRows(SetCell(u, r, c, x), g, rows, cols, n) + (if r < n then FlaggedAt(u, g, r, c) else 0) ==
            FlaggedInRows(u, g, rows, cols, n) + (if r < n then FlaggedAt(SetCell(u, r, c, x), g, r, c) else 0)
    decreases n
  {
    if n > 0 {
      FlaggedInRowsSet(u, g, rows, cols, n - 1, r, c, x);
      if n - 1 == r {
        FlaggedInRowSet(u[r], g[r], cols, c, x);
      } else {
        assert SetCell(u, r, c, x)[n - 1] == u[n - 1];
      }
    }
  }

  /** Changing one mark changes the flagged-mine count by that cell's own
      change. */
  lemma {:induction false} FlaggedSet(u: Grid, g: Grid, rows: int, cols: int, r: int, c: int, x: int)
    requires Shaped(u, rows, cols) && Shaped(g, rows, cols) && InBounds(rows, cols, r, c)
    ensures Shaped(SetCell(u, r, c, x), rows, cols)
    ensures FlaggedMines(SetCell(u, r, c, x), g, rows, cols) + FlaggedAt(u, g, r, c) ==
            FlaggedMines(u, g, rows, cols) + FlaggedAt(SetCell(u, r, c, x), g, r, c)
  {
    FlaggedInRowsSet(u, g, rows, cols, rows, r, c, x);
  }

  lemma {:induction false} FlaggedInRowAll(u: seq<int>, g: seq<int>, n: int)
    requires 0 <= n <= |u| == |g|
    ensures FlaggedInRow(u, g, n) <= InRow(g, n, Mines)
    ensures FlaggedInRow(u, g, n) == InRow(g, n, Mines) <==> forall j :: 0 <= j < n && IsMine(g[j]) ==> u[j] == FLAG
    decreases n
  {
    if n > 0 {
      FlaggedInRowAll(u, g, n - 1);
    }
  }

  lemma {:induction false} FlaggedInRowsAll(u: Grid, g: Grid, rows: int, cols: int, n: int)
    requires Shaped(u, rows, cols) && Shaped(g, rows, cols) && 0 <= n <= rows
    ensures FlaggedInRows(u, g, rows, cols, n) <= InRows(g, n, Mines)
    ensures FlaggedInRows(u, g, rows, cols, n) == InRows(g, n, Mines) <==>
            forall i, j :: 0 <= i < n && 0 <= j < cols && IsMine(g[i][j]) ==> u[i][j] == FLAG
    decreases n
  {
    if n > 0 {
      FlaggedInRowsAll(u, g, rows, cols, n - 1);
      FlaggedInRowAll(u[n - 1], g[n - 1], cols);
    }
  }

  /** The flagged mines never outnumber the mines, and they are as many
      exactly when every mine carries a flag. */
  lemma {:induction false} FlaggedAll(u: Grid, g: Grid, rows: int, cols: int)
    requires Shaped(u, rows, cols) && Shaped(g, rows, cols)
    ensures FlaggedMines(u, g, rows, cols) <= Tally(g, Mines)
    ensures FlaggedMines(u, g, rows, cols) == Tally(g, Mines) <==>
            forall i, j :: InBounds(rows, cols, i, j) && IsMine(g[i][j]) ==> u[i][j] == FLAG
  {
    FlaggedInRowsAll(u, g, rows, cols, rows);
  }

  /** With no mark set, no mine is flagged. */
  lemma {:induction false} FlaggedNone(g: Grid, rows: nat, cols: nat)
    requires Shaped(g, rows, cols)
    ensures FlaggedMines(Zeros(rows, cols), g, rows, cols) == 0
  {
    FlaggedInRowsNone(g, rows, cols, rows);
  }

  lemma {:induction false} FlaggedInRowsNone(g: Grid, rows: nat, cols: nat, n: int)
    requires Shaped(g, rows, cols) && 0 <= n <= rows
    ensures FlaggedInRows(Zeros(rows, cols), g, rows, cols, n) == 0
    decreases n
  {
    if n > 0 {
      FlaggedInRowsNone(g, rows, cols, n - 1);
      FlaggedInRowNone(g[n - 1], cols, cols);
      assert Zeros(rows, cols)[n - 1] == seq(cols, j => 0);
    }
  }

  lemma {:induction false} FlaggedInRowNone(row: seq<int>, cols: nat, n: int)
    requires |row| == cols && 0 <= n <= cols
    ensures FlaggedInRow(seq(cols, j => 0), row, n) == 0
    decreases n
  {
    if n > 0 {
      FlaggedInRowNone(row, cols, n - 1);
    }
  }

  /** Boards with the same mines have as many. */
  lemma {:induction false} SameMinesTally(g: Grid, h: Grid, rows: int, cols: int)
    requires SameMines(g, h, rows, cols)
    ensures Tally(g, Mines) == Tally(h, Mines)
  {
    TallyBelow(g, h, rows, cols, Mines);
    TallyBelow(h, g, rows, cols, Mines);
  }
}
