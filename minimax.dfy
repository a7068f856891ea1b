/**
 * Plain minimax (`minimax_max_node` / `minimax_min_node`) as a pure
 * specification. One function with a `Role` stands for the two mutually
 * recursive node functions; the imperative nodes with the cache are
 * `Agent.Session.MinimaxNode`.
 */
module Minimax {
  import opened Wrappers
  import opened ExtendedInt
  import opened OthelloShared
  import opened Evaluation

  /** Whether a node maximizes or minimizes; the role flips at every ply. */
  datatype Role = Max | Min {
    function Flip(): Role
    {
      if this == Max then Min else Max
    }
  }

  /** What a node function returns: the chosen move (None at a leaf) and its value. */
  datatype SearchResult = SearchResult(move: Option<Move>, value: int)

  /** The loop variables `best_move` and `best_utility` of a node. */
  datatype Best = Best(move: Option<Move>, utility: ExtInt)

  /** Before the first child: no move, and the infinity the role can only improve on. */
  function InitBest(role: Role): Best
  {
    Best(None, if role == Max then NegInf else PosInf)
  }

  /** `x` is strictly better than `y` for the role. */
  predicate Prefers(role: Role, x: int, y: int)
  {
    if role == Max then x > y else x < y
  }

  /** `utility > best_utility` at a max node, `utility < best_utility` at a min node. */
  predicate Improves(role: Role, v: int, best: ExtInt)
  {
    if role == Max then best.Lt(Fin(v)) else Fin(v).Lt(best)
  }

  /**
   * One iteration of the child loop: the child's move replaces the best so
   * far when there is none yet or its value is strictly better, so the
   * earliest of equally good moves is kept.
   */
  function Step(role: Role, acc: Best, m: Move, v: int): (r: Best)
    requires acc.move.Some? ==> acc.utility.Fin?
    ensures r.move.Some? && r.utility.Fin?
    ensures r == acc || r == Best(Some(m), Fin(v))
  {
    if acc.move.None? || Improves(role, v, acc.utility) then Best(Some(m), Fin(v)) else acc
  }

  /** The loop variables after the loop has visited `ms` with child values `vals`. */
  function Scan(role: Role, ms: seq<Move>, vals: seq<int>): (b: Best)
    requires |ms| == |vals|
    ensures b.move.Some? <==> |ms| > 0
    ensures b.move.Some? ==> b.utility.Fin? && b.move.value in ms
  {
    if ms == [] then InitBest(role)
    else Step(role, Scan(role, ms[..|ms| - 1], vals[..|vals| - 1]), ms[|ms| - 1], vals[|vals| - 1])
  }

  /** The position of the value the loop keeps: the earliest of the best values. */
  function BestIndex(role: Role, vals: seq<int>): (k: nat)
    requires |vals| > 0
    ensures k < |vals|
  {
    if |vals| == 1 then 0
    else
      var k := BestIndex(role, vals[..|vals| - 1]);
      if Prefers(role, vals[|vals| - 1], vals[k]) then |vals| - 1 else k
  }

  /** No value beats the one at `BestIndex`, and every value before it is strictly worse. */
  lemma {:induction false} BestIndexFirstBest(role: Role, vals: seq<int>)
    requires |vals| > 0
    ensures var k := BestIndex(role, vals);
      && (forall j | 0 <= j < k :: Prefers(role, vals[k], vals[j]))
      && (forall j | 0 <= j < |vals| :: !Prefers(role, vals[j], vals[k]))
  {
    if |vals| > 1 {
      var pre := vals[..|vals| - 1];
      BestIndexFirstBest(role, pre);
      assert forall j | 0 <= j < |pre| :: vals[j] == pre[j];
    }
  }

  /** Visiting one more child is one more `Step`. */
  lemma ScanSnoc(role: Role, ms: seq<Move>, vals: seq<int>, i: nat)
    requires i < |ms| == |vals|
    ensures Scan(role, ms[..i + 1], vals[..i + 1]) == Step(role, Scan(role, ms[..i], vals[..i]), ms[i], vals[i])
  {
    assert ms[..i + 1][..i] == ms[..i];
    assert vals[..i + 1][..i] == vals[..i];
  }

  /**
   * The loop keeps the move and value at `BestIndex`: no child beats that
   * value, and every earlier child is strictly worse, so the move is the
   * earliest one reaching it.
   */
  lemma {:induction false} ScanFirstBest(role: Role, ms: seq<Move>, vals: seq<int>)
    requires |ms| == |vals| > 0
    ensures var k := BestIndex(role, vals);
      && Scan(role, ms, vals) == Best(Some(ms[k]), Fin(vals[k]))
      && (forall j | 0 <= j < k :: Prefers(role, vals[k], vals[j]))
      && (forall j | 0 <= j < |ms| :: !Prefers(role, vals[j], vals[k]))
  {
    BestIndexFirstBest(role, vals);
    var n := |ms|;
    var pre, vpre := ms[..n - 1], vals[..n - 1];
    if n == 1 {
      assert Scan(role, pre, vpre) == InitBest(role);
    } else {
      ScanFirstBest(role, pre, vpre);
      var k := BestIndex(role, vpre);
      assert ms[k] == pre[k] && vals[k] == vpre[k];
    }
  }

  /** The value of the child reached by the legal move `m`, with the opponent to move. */
  function ChildMinimax(rules: Rules, board: Board, color: int, limit: int, role: Role, m: Move): int
    requires ValidRules(rules)
    requires m in Moves(rules, board, color)
    decreases EmptyCount(board), 0
  {
    MinimaxSpec(rules, Play(rules, board, color, m), Opponent(color), limit - 1, role.Flip()).value
  }

  /** The child values in the order of the generated moves. */
  function ChildValues(rules: Rules, board: Board, color: int, limit: int, role: Role): (vs: seq<int>)
    requires ValidRules(rules)
    decreases EmptyCount(board), 1
    ensures |vs| == |Moves(rules, board, color)|
    ensures forall j | 0 <= j < |vs| ::
      vs[j] == ChildMinimax(rules, board, color, limit, role, Moves(rules, board, color)[j])
  {
    var moves := Moves(rules, board, color);
    seq(|moves|, j requires 0 <= j < |moves| => ChildMinimax(rules, board, color, limit, role, moves[j]))
  }

  /** The loop variables after the first `i` children, in the order of the generated moves. */
  function ChildScan(rules: Rules, board: Board, color: int, limit: int, role: Role, i: nat): (b: Best)
    requires ValidRules(rules)
    requires i <= |Moves(rules, board, color)|
    decreases i
    ensures b.move.Some? <==> i > 0
    ensures b.move.Some? ==> b.utility.Fin? && b.move.value in Moves(rules, board, color)
  {
    if i == 0 then InitBest(role)
    else
      var m := Moves(rules, board, color)[i - 1];
      Step(role, ChildScan(rules, board, color, limit, role, i - 1), m, ChildMinimax(rules, board, color, limit, role, m))
  }

  /** Scanning the children one at a time is `Scan` over the prefix of moves and child values. */
  lemma {:induction false} ChildScanIsScan(rules: Rules, board: Board, color: int, limit: int, role: Role, i: nat)
    requires ValidRules(rules)
    requires i <= |Moves(rules, board, color)|
    ensures ChildScan(rules, board, color, limit, role, i)
         == Scan(role, Moves(rules, board, color)[..i], ChildValues(rules, board, color, limit, role)[..i])
  {
    if i > 0 {
      ChildScanIsScan(rules, board, color, limit, role, i - 1);
      ScanSnoc(role, Moves(rules, board, color), ChildValues(rules, board, color, limit, role), i - 1);
    }
  }

  /**
   * What `minimax_max_node` (role Max) and `minimax_min_node` (role Min)
   * return when the cache is off. With no legal move or at limit 0 the node
   * is a leaf worth the utility of the node's own colour, at min nodes too.
   * A negative limit never reaches 0, so limit -1 searches to the end of
   * the game.
   */
  function MinimaxSpec(rules: Rules, board: Board, color: int, limit: int, role: Role): (r: SearchResult)
    requires ValidRules(rules)
    decreases EmptyCount(board), 2
    ensures r.move.None? <==> (Moves(rules, board, color) == [] || limit == 0)
    ensures r.move.None? ==> r.value == Utility(rules, board, color)
    ensures r.move.Some? ==> r.move.value in Moves(rules, board, color)
  {
    var moves := Moves(rules, board, color);
    if |moves| == 0 || limit == 0 then SearchResult(None, Utility(rules, board, color))
    else
      var b := Scan(role, moves, ChildValues(rules, board, color, limit, role));
      SearchResult(b.move, b.utility.n)
  }

  /** At an inner node the result is what scanning all the children leaves. */
  lemma ChildScanComplete(rules: Rules, board: Board, color: int, limit: int, role: Role)
    requires ValidRules(rules)
    requires Moves(rules, board, color) != [] && limit != 0
    ensures var b := ChildScan(rules, board, color, limit, role, |Moves(rules, board, color)|);
      MinimaxSpec(rules, board, color, limit, role) == SearchResult(b.move, b.utility.n)
  {
    var moves := Moves(rules, board, color);
    var vals := ChildValues(rules, board, color, limit, role);
    ChildScanIsScan(rules, board, color, limit, role, |moves|);
    assert moves[..|moves|] == moves;
    assert vals[..|moves|] == vals;
  }

  /**
   * At an inner node the value is the best child value (no child is
   * strictly better), it is the value of the returned move, and that move
   * is the earliest generated one reaching it.
   */
  lemma MinimaxNonLeaf(rules: Rules, board: Board, color: int, limit: int, role: Role)
    requires ValidRules(rules)
    requires Moves(rules, board, color) != [] && limit != 0
    ensures var r := MinimaxSpec(rules, board, color, limit, role);
      && r.move.Some?
      && ChildMinimax(rules, board, color, limit, role, r.move.value) == r.value
      && (forall m | m in Moves(rules, board, color) ::
            !Prefers(role, ChildMinimax(rules, board, color, limit, role, m), r.value))
      && (exists k :: 0 <= k < |Moves(rules, board, color)|
            && Moves(rules, board, color)[k] == r.move.value
            && forall j | 0 <= j < k ::
                 Prefers(role, r.value, ChildMinimax(rules, board, color, limit, role, Moves(rules, board, color)[j])))
  {
    var moves := Moves(rules, board, color);
    var vals := ChildValues(rules, board, color, limit, role);
    var k := BestIndex(role, vals);
    ScanFirstBest(role, moves, vals);
    var r := MinimaxSpec(rules, board, color, limit, role);
    assert r == SearchResult(Some(moves[k]), vals[k]);
    forall m | m in moves
      ensures !Prefers(role, ChildMinimax(rules, board, color, limit, role, m), r.value)
    {
      var j :| 0 <= j < |moves| && moves[j] == m;
      assert vals[j] == ChildMinimax(rules, board, color, limit, role, m);
    }
    assert forall j | 0 <= j < k :: Prefers(role, r.value, ChildMinimax(rules, board, color, limit, role, moves[j])) by {
      forall j | 0 <= j < k ensures Prefers(role, r.value, ChildMinimax(rules, board, color, limit, role, moves[j])) {
        assert vals[j] == ChildMinimax(rules, board, color, limit, role, moves[j]);
      }
    }
  }

  /**
   * Every negative limit means "no depth limit": the result does not
   * depend on which negative number is passed.
   */
  lemma {:induction false} NegativeLimitsAgree(rules: Rules, board: Board, color: int, l1: int, l2: int, role: Role)
    requires ValidRules(rules)
    requires l1 < 0 && l2 < 0
    decreases EmptyCount(board)
    ensures MinimaxSpec(rules, board, color, l1, role) == MinimaxSpec(rules, board, color, l2, role)
  {
    var moves := Moves(rules, board, color);
    if |moves| > 0 {
      var v1 := ChildValues(rules, board, color, l1, role);
      var v2 := ChildValues(rules, board, color, l2, role);
      forall j | 0 <= j < |moves| ensures v1[j] == v2[j] {
        NegativeLimitsAgree(rules, Play(rules, board, color, moves[j]), Opponent(color), l1 - 1, l2 - 1, role.Flip());
      }
      assert v1 == v2;
    }
  }

  /**
   * With limit 1 every child is a leaf worth the utility of the child's
   * colour, the opponent's: the node's value is the best such one-ply
   * utility, and the returned move reaches it.
   */
  lemma DepthOneValue(rules: Rules, board: Board, color: int, role: Role)
    requires ValidRules(rules)
    requires Moves(rules, board, color) != []
    ensures var r := MinimaxSpec(rules, board, color, 1, role);
      && r.move.Some?
      && Utility(rules, Play(rules, board, color, r.move.value), Opponent(color)) == r.value
      && forall m | m in Moves(rules, board, color) ::
           !Prefers(role, Utility(rules, Play(rules, board, color, m), Opponent(color)), r.value)
  {
    MinimaxNonLeaf(rules, board, color, 1, role);
  }
}
