/**
 * The board rules the agent imports from `othello_shared`. Their code is
 * not part of this model: the agent only calls them, so they are given to
 * the search as function values. A board is a grid of cells
 * 0 (empty), 1 (dark) and 2 (light); a move is a (row, column) pair.
 */
module OthelloShared {

  type Board = seq<seq<int>>

  type Move = (int, int)

  /**
   * `possibleMoves(board, color)` lists the legal moves of `color` in the
   * order the generator produces them; `playMove(board, color, i, j)`
   * returns a new board and never changes its argument (boards are values
   * here); `score(board)` is the pair (dark disks, light disks).
   */
  datatype Rules = Rules(
    possibleMoves: (Board, int) -> seq<Move>,
    playMove: (Board, int, int, int) -> Board,
    score: Board -> (int, int))

  /** The legal moves of `color` on `board`, in the order the rules generate them. */
  function Moves(rules: Rules, board: Board, color: int): seq<Move>
  {
    rules.possibleMoves(board, color)
  }

  function RowEmpty(row: seq<int>): nat
  {
    if row == [] then 0 else RowEmpty(row[..|row| - 1]) + (if row[|row| - 1] == 0 then 1 else 0)
  }

  /** The number of empty cells of a board. */
  function EmptyCount(board: Board): nat
  {
    if board == [] then 0 else EmptyCount(board[..|board| - 1]) + RowEmpty(board[|board| - 1])
  }

  /**
   * What the search assumes of the rules: a legal move places a disk on an
   * empty cell, so it leaves fewer empty cells. This is the only reason the
   * search terminates when the depth limit is -1 (unlimited).
   */
  ghost predicate ValidRules(rules: Rules)
  {
    forall board: Board, color: int, m: Move {:trigger Shrinks(rules, board, color, m)} |
      m in Moves(rules, board, color) :: Shrinks(rules, board, color, m)
  }

  /** Playing `m` leaves fewer empty cells than `board` has. */
  ghost predicate Shrinks(rules: Rules, board: Board, color: int, m: Move)
  {
    EmptyCount(rules.playMove(board, color, m.0, m.1)) < EmptyCount(board)
  }

  /** The colour of the other player: 1 and 2 swap. */
  function Opponent(color: int): int
  {
    3 - color
  }

  /** The board after `color` plays the legal move `m`. */
  function Play(rules: Rules, board: Board, color: int, m: Move): (child: Board)
    requires ValidRules(rules)
    requires m in Moves(rules, board, color)
    ensures EmptyCount(child) < EmptyCount(board)
  {
    assert Shrinks(rules, board, color, m);
    rules.playMove(board, color, m.0, m.1)
  }
}
