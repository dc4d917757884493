/**
 * The move search as the program runs it: place a mark on the shared board
 * array, recurse, and put the cell's previous character back.
 *
 * Each method is proved to return the value its SearchSpec function gives
 * for the board it was handed, and to hand the board back exactly as it
 * found it, the digit labels of the free cells included.
 */
module Search {
  import opened Board
  import opened SearchSpec

  /**
   * The minimax value of the board at recursion depth `depth`, maximising
   * (placing 'o') when `isMaximizing` and minimising (placing 'x') otherwise.
   */
  method Minimax(board: array2<char>, depth: int, isMaximizing: bool) returns (result: int)
    requires board.Length0 == 3 && board.Length1 == 3
    modifies board
    ensures Snapshot(board) == old(Snapshot(board))
    ensures result == MinimaxScore(old(Snapshot(board)), depth, isMaximizing)
    decreases FreeCount(Snapshot(board))
  {
    ghost var g := Snapshot(board);
    if CheckForWin(Snapshot(board), 'o') {
      return 10 - depth;
    }
    if CheckForWin(Snapshot(board), 'x') {
      return depth - 10;
    }
    if CheckForDraw(Snapshot(board)) {
      return 0;
    }

    // The maximising and the minimising scans differ only in the mark they
    // place, their seed and the direction of the comparison.
    var mark := Mark(isMaximizing);
    var bestScore := Seed(isMaximizing);
    for i := 0 to 3
      invariant Snapshot(board) == g
      invariant BestFrom(g, depth + 1, isMaximizing, 3 * i, bestScore) == MinimaxScore(g, depth, isMaximizing)
    {
      for j := 0 to 3
        invariant Snapshot(board) == g
        invariant BestFrom(g, depth + 1, isMaximizing, 3 * i + j, bestScore) == MinimaxScore(g, depth, isMaximizing)
      {
        if board[i, j] != 'x' && board[i, j] != 'o' {
          var temp := board[i, j];
          board[i, j] := mark;
          SnapshotIs(board, g[3 * i + j := mark]);
          FreeCountPlace(g, 3 * i + j, mark);
          var score := Minimax(board, depth + 1, !isMaximizing);
          board[i, j] := temp;
          SnapshotIs(board, g);
          if (isMaximizing && score > bestScore) || (!isMaximizing && score < bestScore) {
            bestScore := score;
          }
        }
      }
    }
    return bestScore;
  }

  /**
   * The computer's move for 'o': the move number of the first free cell, in
   * row-major order, whose score is strictly greatest, or -1 when no cell is
   * free.
   */
  method AvailableMoves(board: array2<char>) returns (bestMove: int)
    requires board.Length0 == 3 && board.Length1 == 3
    modifies board
    ensures Snapshot(board) == old(Snapshot(board))
    ensures bestMove == ChosenMove(old(Snapshot(board)))
  {
    ghost var g := Snapshot(board);
    var bestScore := IntMin;
    bestMove := -1;
    for i := 0 to 3
      invariant Snapshot(board) == g
      invariant ChooseFrom(g, 3 * i, bestScore, bestMove) == ChosenMove(g)
    {
      for j := 0 to 3
        invariant Snapshot(board) == g
        invariant ChooseFrom(g, 3 * i + j, bestScore, bestMove) == ChosenMove(g)
      {
        if board[i, j] != 'x' && board[i, j] != 'o' {
          var temp := board[i, j];
          board[i, j] := 'o';
          SnapshotIs(board, g[3 * i + j := 'o']);
          var score := Minimax(board, 3, false);
          board[i, j] := temp;
          SnapshotIs(board, g);
          if score > bestScore {
            bestScore := score;
            bestMove := (i * 3) + (j + 1);
          }
        }
      }
    }
  }
}
