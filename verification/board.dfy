/**
 * The 3x3 board of the game and the rules read off it: placing a mark,
 * detecting three in a row, and detecting a full board.
 *
 * The board is held in a 3x3 character array, as the program does. A cell
 * holds 'x', 'o', or, while nobody has played there, its own digit label
 * '1'..'9'. Every rule only asks whether a cell is 'x' or 'o', so any other
 * character counts as a free cell and is kept as it is.
 */
module Board {

  /**
   * The board as a value: the nine cells in row-major order. The cell in
   * row i, column j sits at index 3 * i + j, which is one less than the move
   * number that names it.
   */
  type Grid = g: seq<char> | |g| == 9 witness "123456789"

  /** The opening board: every cell shows its move number. */
  const InitialGrid: Grid := "123456789"

  /** A cell is free when it holds neither mark. */
  predicate IsFree(c: char) {
    c != 'x' && c != 'o'
  }

  /** The cell in row `row`, column `col`. */
  function At(g: Grid, row: int, col: int): char
    requires 0 <= row < 3 && 0 <= col < 3
  {
    g[3 * row + col]
  }

  /** The current contents of a 3x3 board array, as a value. */
  function Snapshot(board: array2<char>): (g: Grid)
    requires board.Length0 == 3 && board.Length1 == 3
    reads board
    ensures forall i, j :: 0 <= i < 3 && 0 <= j < 3 ==> At(g, i, j) == board[i, j]
  {
    CellsFrom(board, 0)
  }

  /** The cells of the board array from row-major index `k` on. */
  function CellsFrom(board: array2<char>, k: nat): (s: seq<char>)
    requires board.Length0 == 3 && board.Length1 == 3 && k <= 9
    reads board
    ensures |s| == 9 - k
    ensures forall i, j :: 0 <= i < 3 && 0 <= j < 3 && k <= 3 * i + j ==> s[3 * i + j - k] == board[i, j]
    decreases 9 - k
  {
    if k == 9 then [] else [board[k / 3, k % 3]] + CellsFrom(board, k + 1)
  }

  /** A board array whose every cell agrees with `g` has `g` as its snapshot. */
  lemma SnapshotIs(board: array2<char>, g: Grid)
    requires board.Length0 == 3 && board.Length1 == 3
    requires forall i, j :: 0 <= i < 3 && 0 <= j < 3 ==> board[i, j] == At(g, i, j)
    ensures Snapshot(board) == g
  {
    var s := Snapshot(board);
    forall k | 0 <= k < 9
      ensures s[k] == g[k]
    {
      assert At(s, k / 3, k % 3) == At(g, k / 3, k % 3);
    }
  }

  // ---------------------------------------------------------------------
  // Free cells

  /** The number of free cells; every move of the game or the search lowers it. */
  function FreeCount(s: seq<char>): (n: nat)
    ensures n <= |s|
  {
    if s == [] then 0 else (if IsFree(s[0]) then 1 else 0) + FreeCount(s[1..])
  }

  /** Putting a mark on a free cell leaves exactly one free cell fewer. */
  lemma {:induction false} FreeCountPlace(s: seq<char>, k: nat, c: char)
    requires k < |s| && IsFree(s[k]) && !IsFree(c)
    ensures FreeCount(s[k := c]) == FreeCount(s) - 1
  {
    if k == 0 {
      assert s[k := c][1..] == s[1..];
    } else {
      assert s[k := c][1..] == s[1..][k - 1 := c];
      FreeCountPlace(s[1..], k - 1, c);
    }
  }

  /** No cell is free exactly when the count of free cells is zero. */
  lemma {:induction false} FreeCountZero(s: seq<char>)
    ensures FreeCount(s) == 0 <==> forall k :: 0 <= k < |s| ==> !IsFree(s[k])
  {
    if s != [] {
      FreeCountZero(s[1..]);
      assert forall k :: 1 <= k < |s| ==> s[k] == s[1..][k - 1];
    }
  }

  // ---------------------------------------------------------------------
  // Moves

  /** The cell a move number names: row (move - 1) / 3, column (move - 1) % 3. */
  function MoveCell(move: int): (cell: (int, int))
    requires 1 <= move <= 9
    ensures 0 <= cell.0 < 3 && 0 <= cell.1 < 3
    ensures 3 * cell.0 + cell.1 + 1 == move
  {
    ((move - 1) / 3, (move - 1) % 3)
  }

  /** The move number of a cell, as the search reports it, names that cell again. */
  lemma MoveNumberNamesCell(row: int, col: int)
    requires 0 <= row < 3 && 0 <= col < 3
    ensures MoveCell(row * 3 + (col + 1)) == (row, col)
  {
  }

  /**
   * Places `player` on the cell named by `move` if that cell is free, and
   * reports whether it did; an occupied cell is left alone.
   */
  method MakeMove(move: int, player: char, board: array2<char>) returns (placed: bool)
    requires 1 <= move <= 9
    requires board.Length0 == 3 && board.Length1 == 3
    modifies board
    ensures placed <==> IsFree(old(Snapshot(board))[move - 1])
    ensures Snapshot(board) ==
              if placed then old(Snapshot(board))[move - 1 := player] else old(Snapshot(board))
  {
    ghost var g := Snapshot(board);
    var (row, col) := MoveCell(move);
    if board[row, col] == 'x' || board[row, col] == 'o' {
      return false;
    }
    board[row, col] := player;
    SnapshotIs(board, g[move - 1 := player]);
    return true;
  }

  // ---------------------------------------------------------------------
  // Full board

  /** Every cell from index `k` on holds a mark (the scan stops at the first free cell). */
  function OccupiedFrom(g: Grid, k: nat): (full: bool)
    requires k <= 9
    ensures full <==> forall m :: k <= m < 9 ==> !IsFree(g[m])
    decreases 9 - k
  {
    k == 9 || (!IsFree(g[k]) && OccupiedFrom(g, k + 1))
  }

  /**
   * The board is full. This says nothing about a winner: a full board that
   * holds three in a row is still full.
   */
  function CheckForDraw(g: Grid): bool {
    OccupiedFrom(g, 0)
  }

  /** checkForDraw reports a full board: no cell, in any row or column, is free. */
  lemma CheckForDrawIffFull(g: Grid)
    ensures CheckForDraw(g) <==> forall i, j :: 0 <= i < 3 && 0 <= j < 3 ==> !IsFree(At(g, i, j))
  {
    assert forall m :: 0 <= m < 9 ==> g[m] == At(g, m / 3, m % 3);
  }

  /** A full board is one with no free cell left to count. */
  lemma DrawIffNoFreeCell(g: Grid)
    ensures CheckForDraw(g) <==> FreeCount(g) == 0
  {
    FreeCountZero(g);
  }

  // ---------------------------------------------------------------------
  // Three in a row

  /** Row `r` holds `p` in all three cells. */
  ghost predicate RowFilled(g: Grid, r: int, p: char)
    requires 0 <= r < 3
  {
    forall c :: 0 <= c < 3 ==> At(g, r, c) == p
  }

  /** Column `c` holds `p` in all three cells. */
  ghost predicate ColumnFilled(g: Grid, c: int, p: char)
    requires 0 <= c < 3
  {
    forall r :: 0 <= r < 3 ==> At(g, r, c) == p
  }

  /**
   * The rule of the game: `p` owns one of the eight lines, that is a row, a
   * column, the diagonal from the top-left corner or the one from the
   * top-right corner.
   */
  ghost predicate HasThreeInARow(g: Grid, p: char) {
    (exists r :: 0 <= r < 3 && RowFilled(g, r, p))
    || (exists c :: 0 <= c < 3 && ColumnFilled(g, c, p))
    || (forall d :: 0 <= d < 3 ==> At(g, d, d) == p)
    || (forall r, c :: 0 <= r < 3 && 0 <= c < 3 && r + c == 2 ==> At(g, r, c) == p)
  }

  /**
   * The loop over rows and columns of checkForWin, from index `i` on: row
   * `n` or column `n` is all `player` for some `n >= i`.
   */
  function OrthogonalFrom(g: Grid, player: char, i: nat): (won: bool)
    requires i <= 3
    ensures won <==> exists n :: i <= n < 3 && (RowFilled(g, n, player) || ColumnFilled(g, n, player))
    decreases 3 - i
  {
    if i == 3 then false
    else
      assert RowFilled(g, i, player) <==> forall c :: c in {0, 1, 2} ==> At(g, i, c) == player;
      assert ColumnFilled(g, i, player) <==> forall r :: r in {0, 1, 2} ==> At(g, r, i) == player;
      (At(g, i, 0) == player && At(g, i, 1) == player && At(g, i, 2) == player) ||
      (At(g, 0, i) == player && At(g, 1, i) == player && At(g, 2, i) == player) ||
      OrthogonalFrom(g, player, i + 1)
  }

  /** `player` has three in a row: the rows and columns first, then the two diagonals. */
  function CheckForWin(g: Grid, player: char): bool {
    OrthogonalFrom(g, player, 0) ||
    (At(g, 0, 0) == player && At(g, 1, 1) == player && At(g, 2, 2) == player) ||
    (At(g, 0, 2) == player && At(g, 1, 1) == player && At(g, 2, 0) == player)
  }

  /** The scan of checkForWin finds a line exactly when `player` owns one of the eight. */
  lemma CheckForWinIffThreeInARow(g: Grid, player: char)
    ensures CheckForWin(g, player) <==> HasThreeInARow(g, player)
  {
  }

  // ---------------------------------------------------------------------
  // The opening board

  /**
   * The game opens on a board where every cell is free and labelled with its
   * move number: nobody has a line, the board is not full, and all nine
   * cells are there to be played.
   */
  lemma InitialGridOpens()
    ensures forall k :: 0 <= k < 9 ==> IsFree(InitialGrid[k]) && InitialGrid[k] as int == '1' as int + k
    ensures FreeCount(InitialGrid) == 9
    ensures !CheckForWin(InitialGrid, 'x') && !CheckForWin(InitialGrid, 'o')
    ensures !CheckForDraw(InitialGrid)
  {
  }
}
