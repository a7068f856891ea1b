/**
 * Board evaluation: the exact disk differential `compute_utility`, used at
 * every leaf of the search, and the positional estimate
 * `compute_heuristic`, which the search never calls.
 */
module Evaluation {
  import opened Wrappers
  import opened OthelloShared

  /**
   * `compute_utility`: the disk lead of `color`, dark minus light for
   * dark (1), light minus dark for light (2). Any other colour is reported
   * on the diagnostic stream and scores 0.
   */
  function Utility(rules: Rules, board: Board, color: int): (u: int)
    ensures color == 1 ==> u == rules.score(board).0 - rules.score(board).1
    ensures color == 2 ==> u == rules.score(board).1 - rules.score(board).0
    ensures color != 1 && color != 2 ==> u == 0
  {
    var (dark, light) := rules.score(board);
    if color == 1 then dark - light
    else if color == 2 then light - dark
    else 0
  }

  /** The utility is zero-sum between the two players and neutral for any other colour. */
  lemma UtilityZeroSum(rules: Rules, board: Board, color: int)
    ensures Utility(rules, board, 1) == -Utility(rules, board, 2)
    ensures color != 1 && color != 2 ==> Utility(rules, board, color) == 0
    ensures rules.score(board).0 == rules.score(board).1 ==>
              Utility(rules, board, 1) == 0 && Utility(rules, board, 2) == 0
  {
  }

  // ---------------------------------------------------------------- heuristic

  /** The heuristic reads `board[i][j]` for all i, j below the number of rows. */
  ghost predicate Indexable(board: Board)
  {
    forall i | 0 <= i < |board| :: |board[i]| >= |board|
  }

  /** The four corners of an n-by-n board, in the source's list. */
  predicate IsCorner(n: int, i: int, j: int)
  {
    (i, j) in [(0, 0), (0, n - 1), (n - 1, 0), (n - 1, n - 1)]
  }

  /** Stability weight of a cell: 5 at a corner, 2 elsewhere on the border, 1 inside. */
  function Weight(n: int, i: int, j: int): nat
  {
    if IsCorner(n, i, j) then 5
    else if i == 0 || i == n - 1 || j == 0 || j == n - 1 then 2
    else 1
  }

  /** What cell (i, j) adds to the stability count of the disk colour `p`. */
  function CellScore(board: Board, i: nat, j: nat, p: int): nat
    requires i < |board| && j < |board[i]|
  {
    if board[i][j] == p then Weight(|board|, i, j) else 0
  }

  /** Stability count of colour `p` over the first `j` cells of row `i`. */
  function RowScore(board: Board, i: nat, j: nat, p: int): nat
    requires Indexable(board)
    requires i < |board| && j <= |board|
  {
    if j == 0 then 0 else RowScore(board, i, j - 1, p) + CellScore(board, i, j - 1, p)
  }

  /** Stability count of colour `p` over the first `i` rows. */
  function RowsScore(board: Board, i: nat, p: int): nat
    requires Indexable(board)
    requires i <= |board|
  {
    if i == 0 then 0 else RowsScore(board, i - 1, p) + RowScore(board, i - 1, |board|, p)
  }

  /** `dark_stable` (p = 1) and `light_stable` (p = 2) of the source. */
  function Stability(board: Board, p: int): nat
    requires Indexable(board)
  {
    RowsScore(board, |board|, p)
  }

  /**
   * The value `compute_heuristic` returns: 0.3 times the coin parity plus
   * 0.7 times the stability difference, from dark's side for colour 1 and
   * negated for colour 2; for any other colour the source falls off the
   * end of the function and returns None.
   */
  function HeuristicSpec(rules: Rules, board: Board, color: int): Option<real>
    requires Indexable(board)
  {
    var (dark, light) := rules.score(board);
    var parity := dark - light;
    var stable := Stability(board, 1) - Stability(board, 2);
    var utility := 0.3 * parity as real + 0.7 * stable as real;
    if color == 1 then Some(utility)
    else if color == 2 then Some(-utility)
    else None
  }

  /** `compute_heuristic`, with its two nested loops over the cells. */
  method ComputeHeuristic(rules: Rules, board: Board, color: int) returns (h: Option<real>)
    requires Indexable(board)
    ensures h == HeuristicSpec(rules, board, color)
  {
    var n := |board|;
    var (darkScore, lightScore) := rules.score(board);
    var coinParity := darkScore - lightScore;
    var darkStable, lightStable := 0, 0;
    var i := 0;
    while i < n
      invariant 0 <= i <= n
      invariant darkStable == RowsScore(board, i, 1)
      invariant lightStable == RowsScore(board, i, 2)
    {
      var j := 0;
      while j < n
        invariant 0 <= j <= n
        invariant darkStable == RowsScore(board, i, 1) + RowScore(board, i, j, 1)
        invariant lightStable == RowsScore(board, i, 2) + RowScore(board, i, j, 2)
      {
        if IsCorner(n, i, j) {
          if board[i][j] == 1 {
            darkStable := darkStable + 5;
          } else if board[i][j] == 2 {
            lightStable := lightStable + 5;
          }
        } else if i == 0 || i == n - 1 || j == 0 || j == n - 1 {
          if board[i][j] == 1 {
            darkStable := darkStable + 2;
          } else if board[i][j] == 2 {
            lightStable := lightStable + 2;
          }
        } else {
          if board[i][j] == 1 {
            darkStable := darkStable + 1;
          } else if board[i][j] == 2 {
            lightStable := lightStable + 1;
          }
        }
        j := j + 1;
      }
      i := i + 1;
    }
    var stable := darkStable - lightStable;
    var utility := 0.3 * coinParity as real + 0.7 * stable as real;
    if color == 1 {
      h := Some(utility);
    } else if color == 2 {
      h := Some(-utility);
    } else {
      h := None;
    }
  }

  /** The heuristic of light is the exact negation of that of dark. */
  lemma HeuristicColorSymmetry(rules: Rules, board: Board, color: int)
    requires Indexable(board)
    ensures HeuristicSpec(rules, board, 1).Some?
    ensures HeuristicSpec(rules, board, 2) == Some(-HeuristicSpec(rules, board, 1).value)
    ensures HeuristicSpec(rules, board, color).None? <==> color != 1 && color != 2
  {
  }

  /** The board with one cell replaced. */
  function SetCell(board: Board, i: nat, j: nat, v: int): Board
    requires i < |board| && j < |board[i]|
  {
    board[i := board[i][j := v]]
  }

  lemma {:induction false} RowScoreSetCell(board: Board, i0: nat, j0: nat, v: int, i: nat, j: nat, p: int)
    requires Indexable(board) && i0 < |board| && j0 < |board|
    requires i < |board| && j <= |board|
    ensures Indexable(SetCell(board, i0, j0, v))
    ensures RowScore(SetCell(board, i0, j0, v), i, j, p) + (if i == i0 && j0 < j then CellScore(board, i0, j0, p) else 0)
         == RowScore(board, i, j, p) + (if i == i0 && j0 < j then (if v == p then Weight(|board|, i0, j0) else 0) else 0)
  {
    var b' := SetCell(board, i0, j0, v);
    assert Indexable(b') by {
      forall r | 0 <= r < |b'| ensures |b'[r]| >= |b'| {
        assert |b'[r]| == |board[r]|;
      }
    }
    if j > 0 {
      RowScoreSetCell(board, i0, j0, v, i, j - 1, p);
    }
  }

  lemma {:induction false} RowsScoreSetCell(board: Board, i0: nat, j0: nat, v: int, i: nat, p: int)
    requires Indexable(board) && i0 < |board| && j0 < |board|
    requires i <= |board|
    ensures Indexable(SetCell(board, i0, j0, v))
    ensures RowsScore(SetCell(board, i0, j0, v), i, p) + (if i0 < i then CellScore(board, i0, j0, p) else 0)
         == RowsScore(board, i, p) + (if i0 < i then (if v == p then Weight(|board|, i0, j0) else 0) else 0)
  {
    RowScoreSetCell(board, i0, j0, v, 0, 0, p);
    if i > 0 {
      RowsScoreSetCell(board, i0, j0, v, i - 1, p);
      RowScoreSetCell(board, i0, j0, v, i - 1, |board|, p);
    }
  }

  /**
   * Each disk of colour p contributes exactly its cell's weight: replacing
   * one cell changes the stability count of p by the weight the new
   * content earns minus the weight the old content earned.
   */
  lemma StabilitySetCell(board: Board, i0: nat, j0: nat, v: int, p: int)
    requires Indexable(board) && i0 < |board| && j0 < |board|
    ensures Indexable(SetCell(board, i0, j0, v))
    ensures Stability(SetCell(board, i0, j0, v), p) + CellScore(board, i0, j0, p)
         == Stability(board, p) + (if v == p then Weight(|board|, i0, j0) else 0)
  {
    RowsScoreSetCell(board, i0, j0, v, |board|, p);
  }

  /** The n-by-n board with every cell empty. */
  function EmptyBoard(n: nat): (b: Board)
    ensures |b| == n && Indexable(b)
    ensures forall i, j | 0 <= i < n && 0 <= j < n :: b[i][j] == 0
  {
    seq(n, _ => seq(n, _ => 0))
  }

  lemma {:induction false} EmptyRowsScoreZero(n: nat, i: nat, j: nat, p: int)
    requires i <= n && j <= n
    requires p != 0
    ensures RowsScore(EmptyBoard(n), i, p) == 0
    ensures i < n ==> RowScore(EmptyBoard(n), i, j, p) == 0
  {
    if i < n && j > 0 {
      EmptyRowsScoreZero(n, i, j - 1, p);
    }
    if i > 0 {
      EmptyRowsScoreZero(n, i - 1, n, p);
    }
  }

  /** Empty cells add nothing: an empty board has no stability for either colour. */
  lemma EmptyBoardStability(n: nat, p: int)
    requires p != 0
    ensures Stability(EmptyBoard(n), p) == 0
  {
    EmptyRowsScoreZero(n, n, 0, p);
  }

  /**
   * A single dark disk in a corner of an otherwise empty board: stability
   * 5 for dark and 0 for light, so with the rules' score (1, 0) the
   * heuristic for dark is 0.3 * 1 + 0.7 * 5 = 3.8.
   */
  lemma SingleCornerDisk(rules: Rules, n: nat)
    requires n >= 1
    ensures Indexable(SetCell(EmptyBoard(n), 0, 0, 1))
    ensures Stability(SetCell(EmptyBoard(n), 0, 0, 1), 1) == 5
    ensures Stability(SetCell(EmptyBoard(n), 0, 0, 1), 2) == 0
    ensures rules.score(SetCell(EmptyBoard(n), 0, 0, 1)) == (1, 0) ==>
              HeuristicSpec(rules, SetCell(EmptyBoard(n), 0, 0, 1), 1) == Some(3.8)
  {
    StabilitySetCell(EmptyBoard(n), 0, 0, 1, 1);
    StabilitySetCell(EmptyBoard(n), 0, 0, 1, 2);
    EmptyBoardStability(n, 1);
    EmptyBoardStability(n, 2);
    assert IsCorner(n, 0, 0);
  }
}
