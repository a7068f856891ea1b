/**
 * Alpha-beta pruning (`alphabeta_max_node` / `alphabeta_min_node`) as a
 * pure specification, with optional move ordering, and the proof that it
 * computes the minimax value at the root window (-inf, +inf).
 */
module AlphaBeta {
  import opened Wrappers
  import opened ExtendedInt
  import opened OthelloShared
  import opened Evaluation
  import opened Sorting
  import opened Minimax

  /** The (alpha, beta) pair a node is entered with, and narrows. */
  datatype Window = Window(alpha: ExtInt, beta: ExtInt)

  /** The loop variables when the child loop ends, and how many children it expanded. */
  datatype LoopOutcome = LoopOutcome(best: Best, window: Window, expanded: nat)

  /** A node's result, and the window as narrowed by its loop (the cache key uses it). */
  datatype NodeOutcome = NodeOutcome(result: SearchResult, window: Window)

  // ---------------------------------------------------------------- ordering

  /** The utility for the mover of the board one move ahead. */
  function OneStep(rules: Rules, board: Board, color: int, m: Move): int
  {
    Utility(rules, rules.playMove(board, color, m.0, m.1), color)
  }

  /** The sort key: the one-ply utility at a min node, its negation at a max node. */
  function OrderKey(rules: Rules, board: Board, color: int, role: Role): (key: Move -> int)
    ensures forall m1, m2 :: key(m1) <= key(m2) <==>
      if role == Max then OneStep(rules, board, color, m2) <= OneStep(rules, board, color, m1)
      else OneStep(rules, board, color, m1) <= OneStep(rules, board, color, m2)
  {
    (m: Move) => if role == Max then -OneStep(rules, board, color, m) else OneStep(rules, board, color, m)
  }

  /**
   * `sorted(possible_moves, key=...)`: the same moves, in ascending order
   * of one-ply utility at a min node and descending order at a max node.
   */
  function OrderMoves(rules: Rules, board: Board, color: int, role: Role, moves: seq<Move>): (r: seq<Move>)
    ensures multiset(r) == multiset(moves)
    ensures role == Min ==> forall i, j | 0 <= i < j < |r| ::
              OneStep(rules, board, color, r[i]) <= OneStep(rules, board, color, r[j])
    ensures role == Max ==> forall i, j | 0 <= i < j < |r| ::
              OneStep(rules, board, color, r[i]) >= OneStep(rules, board, color, r[j])
  {
    var key := OrderKey(rules, board, color, role);
    var r := SortBy(moves, key);
    assert forall i, j | 0 <= i < j < |r| :: key(r[i]) <= key(r[j]);
    r
  }

  /** Moves with equal one-ply utility keep the order the generator gave them. */
  lemma OrderMovesStable(rules: Rules, board: Board, color: int, role: Role, moves: seq<Move>, k: int)
    ensures WithKey(OrderMoves(rules, board, color, role, moves), OrderKey(rules, board, color, role), k)
         == WithKey(moves, OrderKey(rules, board, color, role), k)
  {
    SortByStable(moves, OrderKey(rules, board, color, role), k);
  }

  /** The list the child loop runs over: the generated moves, sorted when ordering is 1. */
  function Expanded(rules: Rules, board: Board, color: int, role: Role, ordering: int): (ms: seq<Move>)
    ensures multiset(ms) == multiset(Moves(rules, board, color))
    ensures |ms| == |Moves(rules, board, color)|
    ensures forall m :: m in ms <==> m in Moves(rules, board, color)
  {
    var moves := Moves(rules, board, color);
    var ms := if ordering == 1 then OrderMoves(rules, board, color, role, moves) else moves;
    assert |multiset(ms)| == |ms|;
    assert forall m :: m in ms <==> m in multiset(ms);
    ms
  }

  // ---------------------------------------------------------------- search

  /** `alpha < best_utility` at a max node, `beta > best_utility` at a min node. */
  predicate Narrows(role: Role, w: Window, u: ExtInt)
  {
    if role == Max then w.alpha.Lt(u) else u.Lt(w.beta)
  }

  /** `w` is `entry` narrowed: a max node only raises alpha, a min node only lowers beta. */
  predicate Narrowed(role: Role, entry: Window, w: Window)
  {
    if role == Max then w.beta == entry.beta && entry.alpha.Le(w.alpha)
    else w.alpha == entry.alpha && w.beta.Le(entry.beta)
  }

  /** The window after the update: alpha raised to `u` (max) or beta lowered to `u` (min). */
  function Narrow(role: Role, w: Window, u: ExtInt): Window
  {
    if !Narrows(role, w, u) then w
    else if role == Max then Window(u, w.beta)
    else Window(w.alpha, u)
  }

  /**
   * The update only narrows the window: alpha becomes the larger of alpha
   * and the value at a max node, beta the smaller of beta and the value at
   * a min node, and the other bound stays.
   */
  lemma NarrowIsMaxMin(role: Role, w: Window, u: ExtInt)
    ensures role == Max ==> Narrow(role, w, u) == Window(w.alpha.Max(u), w.beta)
    ensures role == Min ==> Narrow(role, w, u) == Window(w.alpha, w.beta.Min(u))
    ensures Narrowed(role, w, Narrow(role, w, u))
  {
  }

  /**
   * The loop breaks: the window was just narrowed and now beta <= alpha,
   * that is, a max node's value rose above alpha to at least beta, or a min
   * node's value fell below beta to at most alpha.
   */
  predicate CutsOff(role: Role, w: Window, u: ExtInt)
    ensures CutsOff(role, w, u) <==>
      if role == Max then w.alpha.Lt(u) && w.beta.Le(u) else u.Lt(w.beta) && u.Le(w.alpha)
  {
    Narrows(role, w, u) && Narrow(role, w, u).beta.Le(Narrow(role, w, u).alpha)
  }

  /**
   * Narrowing by a value and then by one at least as good for the role is
   * narrowing by the second value alone: the window a loop leaves depends
   * only on its final best value.
   */
  lemma NarrowMonotone(role: Role, w: Window, u: ExtInt, u': ExtInt)
    requires role == Max ==> u.Le(u')
    requires role == Min ==> u'.Le(u)
    ensures Narrow(role, Narrow(role, w, u), u') == Narrow(role, w, u')
  {
  }

  /**
   * The child loop from the move `rest[0]` on. Each child is searched with
   * the current window; a max node raises alpha to a better best value, a
   * min node lowers beta, and the loop stops as soon as beta <= alpha.
   */
  function AbLoop(rules: Rules, ordering: int, board: Board, color: int, limit: int, role: Role,
                  rest: seq<Move>, acc: Best, w: Window): (out: LoopOutcome)
    requires ValidRules(rules)
    requires forall m | m in rest :: m in Moves(rules, board, color)
    requires acc.move.Some? ==> acc.utility.Fin?
    decreases EmptyCount(board), 0, |rest|
    ensures out.expanded <= |rest| && (rest != [] ==> out.expanded >= 1)
    ensures rest != [] || acc.move.Some? ==> out.best.move.Some? && out.best.utility.Fin?
    ensures out.best.move.Some? ==> out.best.move == acc.move || out.best.move.value in rest
    ensures role == Max ==> out.window.beta == w.beta && w.alpha.Le(out.window.alpha)
    ensures role == Min ==> out.window.alpha == w.alpha && out.window.beta.Le(w.beta)
    ensures out.expanded < |rest| ==> out.window.beta.Le(out.window.alpha)
  {
    if rest == [] then LoopOutcome(acc, w, 0)
    else
      var m := rest[0];
      var child := AlphaBetaSpec(rules, ordering, Play(rules, board, color, m), Opponent(color), w, limit - 1, role.Flip());
      var acc' := Step(role, acc, m, child.result.value);
      var w' := Narrow(role, w, acc'.utility);
      if CutsOff(role, w, acc'.utility) then
        LoopOutcome(acc', w', 1)
      else
        var out := AbLoop(rules, ordering, board, color, limit, role, rest[1..], acc', w');
        LeTrans(w.alpha, w'.alpha, out.window.alpha);
        LeTrans(out.window.beta, w'.beta, w.beta);
        LoopOutcome(out.best, out.window, out.expanded + 1)
  }

  /**
   * What `alphabeta_max_node` (role Max) and `alphabeta_min_node` (role Min)
   * return when the cache is off, with the window as the loop left it.
   * Leaves are those of minimax: no legal move or limit 0.
   */
  function AlphaBetaSpec(rules: Rules, ordering: int, board: Board, color: int, w: Window, limit: int, role: Role): (o: NodeOutcome)
    requires ValidRules(rules)
    decreases EmptyCount(board), 1, 0
    ensures o.result.move.None? <==> (Moves(rules, board, color) == [] || limit == 0)
    ensures o.result.move.None? ==> o.result.value == Utility(rules, board, color) && o.window == w
    ensures o.result.move.Some? ==> o.result.move.value in Moves(rules, board, color)
  {
    var moves := Moves(rules, board, color);
    if |moves| == 0 || limit == 0 then NodeOutcome(SearchResult(None, Utility(rules, board, color)), w)
    else
      var ms := Expanded(rules, board, color, role, ordering);
      var out := AbLoop(rules, ordering, board, color, limit, role, ms, InitBest(role), w);
      NodeOutcome(SearchResult(out.best.move, out.best.utility.n), out.window)
  }

  /**
   * The child loop over `ms` from position `i` on, by position rather than
   * by suffix: the form the imperative loop follows.
   */
  function AbLoopFrom(rules: Rules, ordering: int, board: Board, color: int, limit: int, role: Role,
                      ms: seq<Move>, i: nat, acc: Best, w: Window): LoopOutcome
    requires ValidRules(rules)
    requires forall m | m in ms :: m in Moves(rules, board, color)
    requires i <= |ms|
    requires acc.move.Some? ==> acc.utility.Fin?
    decreases |ms| - i
  {
    if i == |ms| then LoopOutcome(acc, w, 0)
    else
      var m := ms[i];
      var child := AlphaBetaSpec(rules, ordering, Play(rules, board, color, m), Opponent(color), w, limit - 1, role.Flip());
      var acc' := Step(role, acc, m, child.result.value);
      var w' := Narrow(role, w, acc'.utility);
      if CutsOff(role, w, acc'.utility) then
        LoopOutcome(acc', w', 1)
      else
        var out := AbLoopFrom(rules, ordering, board, color, limit, role, ms, i + 1, acc', w');
        LoopOutcome(out.best, out.window, out.expanded + 1)
  }

  /**
   * One iteration of the loop from position `i`: `best` is the best after
   * the child of `ms[i]` is searched in `w`, and `w'` the narrowed window.
   * If the loop that ends as `full` cuts off there, it ends with `best`
   * and `w'`; otherwise it ends as the loop from `i + 1` does.
   */
  lemma AbLoopFromStep(rules: Rules, ordering: int, board: Board, color: int, limit: int, role: Role,
                       ms: seq<Move>, i: nat, acc: Best, w: Window, best: Best, w': Window, full: LoopOutcome)
    requires ValidRules(rules)
    requires forall m | m in ms :: m in Moves(rules, board, color)
    requires i < |ms|
    requires acc.move.Some? ==> acc.utility.Fin?
    requires best == Step(role, acc, ms[i], AlphaBetaSpec(rules, ordering, Play(rules, board, color, ms[i]), Opponent(color),
                                                          w, limit - 1, role.Flip()).result.value)
    requires w' == Narrow(role, w, best.utility)
    requires var tail := AbLoopFrom(rules, ordering, board, color, limit, role, ms, i, acc, w);
      full.best == tail.best && full.window == tail.window
    ensures CutsOff(role, w, best.utility) ==> full.best == best && full.window == w'
    ensures !CutsOff(role, w, best.utility) ==>
      var tail := AbLoopFrom(rules, ordering, board, color, limit, role, ms, i + 1, best, w');
      full.best == tail.best && full.window == tail.window
  {
  }

  /** Running the loop from position `i` is running it on the suffix `ms[i..]`. */
  lemma {:induction false} AbLoopFromSuffix(rules: Rules, ordering: int, board: Board, color: int, limit: int, role: Role,
                                            ms: seq<Move>, i: nat, acc: Best, w: Window)
    requires ValidRules(rules)
    requires forall m | m in ms :: m in Moves(rules, board, color)
    requires i <= |ms|
    requires acc.move.Some? ==> acc.utility.Fin?
    decreases |ms| - i
    ensures AbLoopFrom(rules, ordering, board, color, limit, role, ms, i, acc, w)
         == AbLoop(rules, ordering, board, color, limit, role, ms[i..], acc, w)
  {
    if i < |ms| {
      assert ms[i..][0] == ms[i] && ms[i..][1..] == ms[i + 1..];
      var child := AlphaBetaSpec(rules, ordering, Play(rules, board, color, ms[i]), Opponent(color), w, limit - 1, role.Flip());
      var acc' := Step(role, acc, ms[i], child.result.value);
      var w' := Narrow(role, w, acc'.utility);
      if !CutsOff(role, w, acc'.utility) {
        AbLoopFromSuffix(rules, ordering, board, color, limit, role, ms, i + 1, acc', w');
      }
    }
  }

  /** The first `e` moves of `rest` followed by `other`, seen from its head. */
  lemma PrefixThenOther(rest: seq<Move>, e: nat, other: seq<Move>)
    requires 1 <= e <= |rest|
    ensures var s := rest[..e] + other;
      && s[0] == rest[0]
      && s[1..] == rest[1..][..e - 1] + other
      && forall m | m in s :: m in rest || m in other
  {
    var s := rest[..e] + other;
    assert s[1..] == rest[1..][..e - 1] + other;
    forall m | m in s ensures m in rest || m in other {
      if m in rest[..e] {
        assert m in rest;
      }
    }
  }

  /**
   * Once the loop has cut off, the siblings after the last expanded child
   * are never looked at: replacing them by any other moves gives the same
   * outcome.
   */
  lemma {:induction false} CutoffIgnoresRest(rules: Rules, ordering: int, board: Board, color: int, limit: int, role: Role,
                                             rest: seq<Move>, acc: Best, w: Window, other: seq<Move>, out: LoopOutcome)
    requires ValidRules(rules)
    requires forall m | m in rest :: m in Moves(rules, board, color)
    requires forall m | m in other :: m in Moves(rules, board, color)
    requires acc.move.Some? ==> acc.utility.Fin?
    requires out == AbLoop(rules, ordering, board, color, limit, role, rest, acc, w)
    requires out.expanded < |rest|
    ensures forall m | m in rest[..out.expanded] + other :: m in Moves(rules, board, color)
    ensures AbLoop(rules, ordering, board, color, limit, role, rest[..out.expanded] + other, acc, w) == out
  {
    var e := out.expanded;
    var s := rest[..e] + other;
    PrefixThenOther(rest, e, other);
    var m := rest[0];
    var child := AlphaBetaSpec(rules, ordering, Play(rules, board, color, m), Opponent(color), w, limit - 1, role.Flip());
    var acc' := Step(role, acc, m, child.result.value);
    var w' := Narrow(role, w, acc'.utility);
    if CutsOff(role, w, acc'.utility) {
      assert out == LoopOutcome(acc', w', 1);
    } else {
      var inner := AbLoop(rules, ordering, board, color, limit, role, rest[1..], acc', w');
      assert out == LoopOutcome(inner.best, inner.window, inner.expanded + 1);
      CutoffIgnoresRest(rules, ordering, board, color, limit, role, rest[1..], acc', w', other, inner);
    }
  }


  // ---------------------------------------------------------------- agreement with minimax

  /** A max node's best value never goes down, and covers the value just seen. */
  lemma StepBounds(role: Role, acc: Best, m: Move, v: int)
    requires acc.move.Some? ==> acc.utility.Fin?
    requires acc.move.None? ==> acc == InitBest(role)
    ensures role == Max ==> acc.utility.Le(Step(role, acc, m, v).utility) && Fin(v).Le(Step(role, acc, m, v).utility)
    ensures role == Min ==> Step(role, acc, m, v).utility.Le(acc.utility) && Step(role, acc, m, v).utility.Le(Fin(v))
  {
  }

  /**
   * How an alpha-beta value `v` computed in window `w` relates to the
   * minimax value `vm`: at or below alpha it is an upper bound, at or above
   * beta a lower bound, strictly inside the window it is exact.
   */
  ghost predicate FailSoftBounds(w: Window, v: int, vm: int)
  {
    && (Fin(v).Le(w.alpha) ==> vm <= v)
    && (w.beta.Le(Fin(v)) ==> v <= vm)
    && (w.alpha.Lt(Fin(v)) && Fin(v).Lt(w.beta) ==> v == vm)
  }

  /**
   * One iteration of a max node's loop. A cutoff happens only on a child
   * whose value reaches beta, and it becomes the best move. Otherwise the
   * window stays open, alpha is still the larger of `alpha0` and the best
   * value, the child's minimax value is at most the best value, and a
   * newly chosen move above `alpha0` has its exact minimax value.
   */
  lemma MaxStep(acc: Best, w: Window, alpha0: ExtInt, m: Move, v: int, vm: int)
    requires acc.move.Some? ==> acc.utility.Fin?
    requires acc.move.None? ==> acc == InitBest(Max)
    requires w.alpha == alpha0.Max(acc.utility) && w.alpha.Lt(w.beta)
    requires FailSoftBounds(w, v, vm)
    ensures var acc' := Step(Max, acc, m, v);
      var w' := Narrow(Max, w, acc'.utility);
      && acc.utility.Le(acc'.utility)
      && (CutsOff(Max, w, acc'.utility) ==> acc' == Best(Some(m), Fin(v)) && w.beta.Le(Fin(v)) && v <= vm)
      && (!CutsOff(Max, w, acc'.utility) ==>
            && w'.alpha == alpha0.Max(acc'.utility) && w'.alpha.Lt(w'.beta) && w'.beta == w.beta
            && Fin(vm).Le(acc'.utility)
            && (acc' != acc ==> acc' == Best(Some(m), Fin(v)) && (alpha0.Lt(acc'.utility) ==> vm == v)))
  {
    var acc' := Step(Max, acc, m, v);
    var w' := Narrow(Max, w, acc'.utility);
    StepBounds(Max, acc, m, v);
    LtLeTrans(acc.utility, w.alpha, w.beta);
    if CutsOff(Max, w, acc'.utility) {
      if acc' == acc {
        LtLeTrans(acc.utility, w.beta, acc.utility);
      }
    } else if Narrows(Max, w, acc'.utility) {
      NotLtIsLe(w'.beta, w'.alpha);
      LtLeTrans(alpha0, w.alpha, acc'.utility);
      LeTrans(Fin(v), acc'.utility, w'.alpha);
      LtLeTrans(Fin(v), w'.alpha, w'.beta);
    } else {
      NotLtIsLe(w.alpha, acc'.utility);
      LeTrans(Fin(v), acc'.utility, w.alpha);
      LtLeTrans(Fin(v), w.alpha, w.beta);
      if acc' != acc && acc.move.Some? {
        // v beat the best so far yet stayed at or below alpha: alpha is alpha0
        assert w.alpha == alpha0;
      }
    }
  }

  /** The mirror image of `MaxStep` for a min node entered with beta `beta0`. */
  lemma MinStep(acc: Best, w: Window, beta0: ExtInt, m: Move, v: int, vm: int)
    requires acc.move.Some? ==> acc.utility.Fin?
    requires acc.move.None? ==> acc == InitBest(Min)
    requires w.beta == beta0.Min(acc.utility) && w.alpha.Lt(w.beta)
    requires FailSoftBounds(w, v, vm)
    ensures var acc' := Step(Min, acc, m, v);
      var w' := Narrow(Min, w, acc'.utility);
      && acc'.utility.Le(acc.utility)
      && (CutsOff(Min, w, acc'.utility) ==> acc' == Best(Some(m), Fin(v)) && Fin(v).Le(w.alpha) && vm <= v)
      && (!CutsOff(Min, w, acc'.utility) ==>
            && w'.beta == beta0.Min(acc'.utility) && w'.alpha.Lt(w'.beta) && w'.alpha == w.alpha
            && acc'.utility.Le(Fin(vm))
            && (acc' != acc ==> acc' == Best(Some(m), Fin(v)) && (acc'.utility.Lt(beta0) ==> vm == v)))
  {
    var acc' := Step(Min, acc, m, v);
    var w' := Narrow(Min, w, acc'.utility);
    StepBounds(Min, acc, m, v);
    LtLeTrans(w.alpha, w.beta, acc.utility);
    if CutsOff(Min, w, acc'.utility) {
      if acc' == acc {
        LtLeTrans(acc.utility, w.alpha, acc.utility);
      }
    } else if Narrows(Min, w, acc'.utility) {
      NotLtIsLe(w'.beta, w'.alpha);
      LtLeTrans(acc'.utility, w.beta, beta0);
      LeTrans(w'.beta, acc'.utility, Fin(v));
      LtLeTrans(w'.alpha, w'.beta, Fin(v));
    } else {
      NotLtIsLe(acc'.utility, w.beta);
      LeTrans(w.beta, acc'.utility, Fin(v));
      LtLeTrans(w.alpha, w.beta, Fin(v));
      if acc' != acc && acc.move.Some? {
        assert w.beta == beta0;
      }
    }
  }

  /**
   * What the child loop of a max node entered with alpha `alpha0` and beta
   * `beta` guarantees about its final best pair, once the children `done`
   * and `rest` are accounted for. If it cut off, the best move's minimax
   * value is at least the result; if not, no child's minimax value exceeds
   * the result, and a result above `alpha0` is the exact minimax value of
   * the best move.
   */
  ghost predicate MaxLoopPost(rules: Rules, board: Board, color: int, limit: int,
                              done: seq<Move>, rest: seq<Move>, alpha0: ExtInt, beta: ExtInt, best: Best)
    requires ValidRules(rules)
    requires forall m | m in done || m in rest :: m in Moves(rules, board, color)
    requires best.move.Some? ==> best.move.value in Moves(rules, board, color)
  {
    && (beta.Le(best.utility) ==>
          best.move.Some? && best.utility.Le(Fin(ChildMinimax(rules, board, color, limit, Max, best.move.value))))
    && (best.utility.Lt(beta) ==>
          && (forall m | m in done || m in rest :: Fin(ChildMinimax(rules, board, color, limit, Max, m)).Le(best.utility))
          && (best.move.Some? && alpha0.Lt(best.utility) ==>
                Fin(ChildMinimax(rules, board, color, limit, Max, best.move.value)) == best.utility))
  }

  /** The mirror image of `MaxLoopPost` for a min node entered with alpha `alpha` and beta `beta0`. */
  ghost predicate MinLoopPost(rules: Rules, board: Board, color: int, limit: int,
                              done: seq<Move>, rest: seq<Move>, alpha: ExtInt, beta0: ExtInt, best: Best)
    requires ValidRules(rules)
    requires forall m | m in done || m in rest :: m in Moves(rules, board, color)
    requires best.move.Some? ==> best.move.value in Moves(rules, board, color)
  {
    && (best.utility.Le(alpha) ==>
          best.move.Some? && Fin(ChildMinimax(rules, board, color, limit, Min, best.move.value)).Le(best.utility))
    && (alpha.Lt(best.utility) ==>
          && (forall m | m in done || m in rest :: best.utility.Le(Fin(ChildMinimax(rules, board, color, limit, Min, m))))
          && (best.move.Some? && best.utility.Lt(beta0) ==>
                Fin(ChildMinimax(rules, board, color, limit, Min, best.move.value)) == best.utility))
  }

  /** Moving the first remaining child to the searched ones changes nothing in the guarantee. */
  lemma LoopPostShift(rules: Rules, board: Board, color: int, limit: int,
                      done: seq<Move>, rest: seq<Move>, bound0: ExtInt, bound: ExtInt, best: Best)
    requires ValidRules(rules)
    requires rest != []
    requires forall m | m in done || m in rest :: m in Moves(rules, board, color)
    requires best.move.Some? ==> best.move.value in Moves(rules, board, color)
    ensures forall m | m in done + [rest[0]] || m in rest[1..] :: m in Moves(rules, board, color)
    ensures MaxLoopPost(rules, board, color, limit, done + [rest[0]], rest[1..], bound0, bound, best) ==>
              MaxLoopPost(rules, board, color, limit, done, rest, bound0, bound, best)
    ensures MinLoopPost(rules, board, color, limit, done + [rest[0]], rest[1..], bound, bound0, best) ==>
              MinLoopPost(rules, board, color, limit, done, rest, bound, bound0, best)
  {
    assert forall x :: x in done + [rest[0]] || x in rest[1..] <==> x in done || x in rest by {
      assert rest == [rest[0]] + rest[1..];
    }
  }

  /** The value alpha-beta returns for a node searched in window `w`. */
  function AlphaBetaValue(rules: Rules, ordering: int, board: Board, color: int, w: Window, limit: int, role: Role): int
    requires ValidRules(rules)
  {
    AlphaBetaSpec(rules, ordering, board, color, w, limit, role).result.value
  }

  /** The minimax value of a node. */
  function MinimaxValue(rules: Rules, board: Board, color: int, limit: int, role: Role): int
    requires ValidRules(rules)
  {
    MinimaxSpec(rules, board, color, limit, role).value
  }

  /** The node searched in window `w` keeps `FailSoftBounds` against its minimax value. */
  ghost predicate NodeBounded(rules: Rules, ordering: int, board: Board, color: int, w: Window, limit: int, role: Role)
    requires ValidRules(rules)
  {
    FailSoftBounds(w, AlphaBetaValue(rules, ordering, board, color, w, limit, role), MinimaxValue(rules, board, color, limit, role))
  }

  /** The child reached by the legal move `m`, searched in window `w`, keeps `FailSoftBounds`. */
  ghost predicate ChildBounded(rules: Rules, ordering: int, board: Board, color: int, limit: int, role: Role, m: Move, w: Window)
    requires ValidRules(rules)
    requires m in Moves(rules, board, color)
  {
    NodeBounded(rules, ordering, Play(rules, board, color, m), Opponent(color), w, limit - 1, role.Flip())
  }

  /** `ChildMinimax` is the minimax value of the child board. */
  lemma ChildMinimaxUnfold(rules: Rules, board: Board, color: int, limit: int, role: Role, m: Move)
    requires ValidRules(rules)
    requires m in Moves(rules, board, color)
    ensures ChildMinimax(rules, board, color, limit, role, m)
            == MinimaxSpec(rules, Play(rules, board, color, m), Opponent(color), limit - 1, role.Flip()).value
  {
  }

  /** Every child, searched in any open window, keeps `FailSoftBounds`. */
  ghost predicate ChildrenBounded(rules: Rules, ordering: int, board: Board, color: int, limit: int, role: Role)
    requires ValidRules(rules)
  {
    forall m, w: Window | m in Moves(rules, board, color) && w.alpha.Lt(w.beta) ::
      ChildBounded(rules, ordering, board, color, limit, role, m, w)
  }

  /** The child loop of a max node entered with alpha `alpha0`, after the children `done`. */
  lemma {:induction false} MaxLoopSound(rules: Rules, ordering: int, board: Board, color: int, limit: int,
                                        rest: seq<Move>, acc: Best, w: Window, alpha0: ExtInt, done: seq<Move>, out: LoopOutcome)
    requires ValidRules(rules)
    requires forall m | m in done || m in rest :: m in Moves(rules, board, color)
    requires acc.move.Some? ==> acc.utility.Fin? && acc.move.value in Moves(rules, board, color)
    requires acc.move.None? ==> acc == InitBest(Max)
    requires w.alpha == alpha0.Max(acc.utility) && w.alpha.Lt(w.beta)
    requires forall m | m in done :: Fin(ChildMinimax(rules, board, color, limit, Max, m)).Le(acc.utility)
    requires acc.move.Some? && alpha0.Lt(acc.utility) ==>
               Fin(ChildMinimax(rules, board, color, limit, Max, acc.move.value)) == acc.utility
    requires ChildrenBounded(rules, ordering, board, color, limit, Max)
    requires out == AbLoop(rules, ordering, board, color, limit, Max, rest, acc, w)
    ensures MaxLoopPost(rules, board, color, limit, done, rest, alpha0, w.beta, out.best)
  {
    if rest == [] {
      LtLeTrans(acc.utility, w.alpha, w.beta);
    } else {
      var m := rest[0];
      var childBoard := Play(rules, board, color, m);
      var v := AlphaBetaSpec(rules, ordering, childBoard, Opponent(color), w, limit - 1, Min).result.value;
      var vm := ChildMinimax(rules, board, color, limit, Max, m);
      assert ChildBounded(rules, ordering, board, color, limit, Max, m, w);
      ChildMinimaxUnfold(rules, board, color, limit, Max, m);
      MaxStep(acc, w, alpha0, m, v, vm);
      var acc' := Step(Max, acc, m, v);
      var w' := Narrow(Max, w, acc'.utility);
      if CutsOff(Max, w, acc'.utility) {
        assert out == LoopOutcome(acc', w', 1);
      } else {
        var inner := AbLoop(rules, ordering, board, color, limit, Max, rest[1..], acc', w');
        assert out == LoopOutcome(inner.best, inner.window, inner.expanded + 1);
        forall x | x in done + [m] ensures Fin(ChildMinimax(rules, board, color, limit, Max, x)).Le(acc'.utility) {
          if x in done {
            LeTrans(Fin(ChildMinimax(rules, board, color, limit, Max, x)), acc.utility, acc'.utility);
          }
        }
        LoopPostShift(rules, board, color, limit, done, rest, alpha0, w.beta, inner.best);
        MaxLoopSound(rules, ordering, board, color, limit, rest[1..], acc', w', alpha0, done + [m], inner);
      }
    }
  }

  /** The child loop of a min node entered with beta `beta0`, after the children `done`. */
  lemma {:induction false} MinLoopSound(rules: Rules, ordering: int, board: Board, color: int, limit: int,
                                        rest: seq<Move>, acc: Best, w: Window, beta0: ExtInt, done: seq<Move>, out: LoopOutcome)
    requires ValidRules(rules)
    requires forall m | m in done || m in rest :: m in Moves(rules, board, color)
    requires acc.move.Some? ==> acc.utility.Fin? && acc.move.value in Moves(rules, board, color)
    requires acc.move.None? ==> acc == InitBest(Min)
    requires w.beta == beta0.Min(acc.utility) && w.alpha.Lt(w.beta)
    requires forall m | m in done :: acc.utility.Le(Fin(ChildMinimax(rules, board, color, limit, Min, m)))
    requires acc.move.Some? && acc.utility.Lt(beta0) ==>
               Fin(ChildMinimax(rules, board, color, limit, Min, acc.move.value)) == acc.utility
    requires ChildrenBounded(rules, ordering, board, color, limit, Min)
    requires out == AbLoop(rules, ordering, board, color, limit, Min, rest, acc, w)
    ensures MinLoopPost(rules, board, color, limit, done, rest, w.alpha, beta0, out.best)
  {
    if rest == [] {
      LtLeTrans(w.alpha, w.beta, acc.utility);
    } else {
      var m := rest[0];
      var childBoard := Play(rules, board, color, m);
      var v := AlphaBetaSpec(rules, ordering, childBoard, Opponent(color), w, limit - 1, Max).result.value;
      var vm := ChildMinimax(rules, board, color, limit, Min, m);
      assert ChildBounded(rules, ordering, board, color, limit, Min, m, w);
      ChildMinimaxUnfold(rules, board, color, limit, Min, m);
      MinStep(acc, w, beta0, m, v, vm);
      var acc' := Step(Min, acc, m, v);
      var w' := Narrow(Min, w, acc'.utility);
      if CutsOff(Min, w, acc'.utility) {
        assert out == LoopOutcome(acc', w', 1);
      } else {
        var inner := AbLoop(rules, ordering, board, color, limit, Min, rest[1..], acc', w');
        assert out == LoopOutcome(inner.best, inner.window, inner.expanded + 1);
        forall x | x in done + [m] ensures acc'.utility.Le(Fin(ChildMinimax(rules, board, color, limit, Min, x))) {
          if x in done {
            LeTrans(acc'.utility, acc.utility, Fin(ChildMinimax(rules, board, color, limit, Min, x)));
          }
        }
        LoopPostShift(rules, board, color, limit, done, rest, beta0, w.alpha, inner.best);
        MinLoopSound(rules, ordering, board, color, limit, rest[1..], acc', w', beta0, done + [m], inner);
      }
    }
  }

  /** `FailSoft` for every child of a node. */
  lemma ChildrenFailSoft(rules: Rules, ordering: int, board: Board, color: int, limit: int, role: Role)
    requires ValidRules(rules)
    decreases EmptyCount(board), 0
    ensures ChildrenBounded(rules, ordering, board, color, limit, role)
  {
    forall m, w: Window | m in Moves(rules, board, color) && w.alpha.Lt(w.beta)
      ensures ChildBounded(rules, ordering, board, color, limit, role, m, w)
    {
      FailSoft(rules, ordering, Play(rules, board, color, m), Opponent(color), w, limit - 1, role.Flip());
    }
  }

  /**
   * The values at a max node: `r` is what the loop returns, `cb` the minimax
   * value of its move and `vm` the node's minimax value. What the loop
   * guarantees, and that no child beats `vm`, give `FailSoftBounds`.
   */
  lemma MaxNodeBounds(w: Window, r: int, cb: int, vm: int)
    requires w.alpha.Lt(w.beta)
    requires w.beta.Le(Fin(r)) ==> r <= cb
    requires Fin(r).Lt(w.beta) ==> vm <= r && (w.alpha.Lt(Fin(r)) ==> cb == r)
    requires cb <= vm
    ensures FailSoftBounds(w, r, vm)
    ensures w.alpha.Lt(Fin(r)) && Fin(r).Lt(w.beta) ==> cb == vm
  {
    if Fin(r).Le(w.alpha) {
      LtLeTrans(Fin(r), w.alpha, w.beta);
    }
    NotLtIsLe(Fin(r), w.beta);
  }

  /** The mirror image of `MaxNodeBounds` at a min node. */
  lemma MinNodeBounds(w: Window, r: int, cb: int, vm: int)
    requires w.alpha.Lt(w.beta)
    requires Fin(r).Le(w.alpha) ==> cb <= r
    requires w.alpha.Lt(Fin(r)) ==> r <= vm && (Fin(r).Lt(w.beta) ==> cb == r)
    requires vm <= cb
    ensures FailSoftBounds(w, r, vm)
    ensures w.alpha.Lt(Fin(r)) && Fin(r).Lt(w.beta) ==> cb == vm
  {
    if w.beta.Le(Fin(r)) {
      LtLeTrans(w.alpha, w.beta, Fin(r));
    }
    NotLtIsLe(w.alpha, Fin(r));
  }

  /**
   * At an inner node the result is what the child loop over the expanded
   * moves returns, a legal move; the minimax move is among those expanded.
   */
  lemma InnerNodeLoop(rules: Rules, ordering: int, board: Board, color: int, w: Window, limit: int, role: Role)
    requires ValidRules(rules)
    requires Moves(rules, board, color) != [] && limit != 0
    ensures var out := AbLoop(rules, ordering, board, color, limit, role, Expanded(rules, board, color, role, ordering), InitBest(role), w);
      && out.best.move.Some? && out.best.utility.Fin? && out.best.move.value in Moves(rules, board, color)
      && AlphaBetaSpec(rules, ordering, board, color, w, limit, role).result == SearchResult(out.best.move, out.best.utility.n)
      && MinimaxSpec(rules, board, color, limit, role).move.Some?
      && MinimaxSpec(rules, board, color, limit, role).move.value in Expanded(rules, board, color, role, ordering)
  {
    MinimaxNonLeaf(rules, board, color, limit, role);
  }

  /** `FailSoft` at an inner max node, given that it holds at every child. */
  lemma MaxNodeFailSoft(rules: Rules, ordering: int, board: Board, color: int, w: Window, limit: int)
    requires ValidRules(rules)
    requires w.alpha.Lt(w.beta)
    requires Moves(rules, board, color) != [] && limit != 0
    requires ChildrenBounded(rules, ordering, board, color, limit, Max)
    ensures NodeBounded(rules, ordering, board, color, w, limit, Max)
    ensures var r := AlphaBetaSpec(rules, ordering, board, color, w, limit, Max).result;
      w.alpha.Lt(Fin(r.value)) && Fin(r.value).Lt(w.beta) && r.move.Some? ==>
        ChildMinimax(rules, board, color, limit, Max, r.move.value) == MinimaxSpec(rules, board, color, limit, Max).value
  {
    var ms := Expanded(rules, board, color, Max, ordering);
    var mm := MinimaxSpec(rules, board, color, limit, Max);
    var out := AbLoop(rules, ordering, board, color, limit, Max, ms, InitBest(Max), w);
    InnerNodeLoop(rules, ordering, board, color, w, limit, Max);
    MinimaxNonLeaf(rules, board, color, limit, Max);
    var R := out.best.utility;
    var best := out.best.move.value;
    var cb := ChildMinimax(rules, board, color, limit, Max, best);
    var cm := ChildMinimax(rules, board, color, limit, Max, mm.move.value);
    MaxLoopSound(rules, ordering, board, color, limit, ms, InitBest(Max), w, w.alpha, [], out);
    assert R.Lt(w.beta) ==> Fin(cm).Le(R);
    MaxNodeBounds(w, R.n, cb, cm);
  }

  /** `FailSoft` at an inner min node, given that it holds at every child. */
  lemma MinNodeFailSoft(rules: Rules, ordering: int, board: Board, color: int, w: Window, limit: int)
    requires ValidRules(rules)
    requires w.alpha.Lt(w.beta)
    requires Moves(rules, board, color) != [] && limit != 0
    requires ChildrenBounded(rules, ordering, board, color, limit, Min)
    ensures NodeBounded(rules, ordering, board, color, w, limit, Min)
    ensures var r := AlphaBetaSpec(rules, ordering, board, color, w, limit, Min).result;
      w.alpha.Lt(Fin(r.value)) && Fin(r.value).Lt(w.beta) && r.move.Some? ==>
        ChildMinimax(rules, board, color, limit, Min, r.move.value) == MinimaxSpec(rules, board, color, limit, Min).value
  {
    var ms := Expanded(rules, board, color, Min, ordering);
    var mm := MinimaxSpec(rules, board, color, limit, Min);
    var out := AbLoop(rules, ordering, board, color, limit, Min, ms, InitBest(Min), w);
    InnerNodeLoop(rules, ordering, board, color, w, limit, Min);
    MinimaxNonLeaf(rules, board, color, limit, Min);
    var R := out.best.utility;
    var best := out.best.move.value;
    var cb := ChildMinimax(rules, board, color, limit, Min, best);
    var cm := ChildMinimax(rules, board, color, limit, Min, mm.move.value);
    MinLoopSound(rules, ordering, board, color, limit, ms, InitBest(Min), w, w.beta, [], out);
    assert w.alpha.Lt(R) ==> R.Le(Fin(cm));
    MinNodeBounds(w, R.n, cb, cm);
  }

  /**
   * Alpha-beta is fail-soft: for a window with alpha < beta, a result at or
   * below alpha bounds the minimax value from above, a result at or above
   * beta bounds it from below, and a result strictly inside the window is
   * the minimax value itself, reached by the returned move. Ordering the
   * moves does not change this.
   */
  lemma {:induction false} FailSoft(rules: Rules, ordering: int, board: Board, color: int, w: Window, limit: int, role: Role)
    requires ValidRules(rules)
    requires w.alpha.Lt(w.beta)
    decreases EmptyCount(board), 1
    ensures NodeBounded(rules, ordering, board, color, w, limit, role)
    ensures var r := AlphaBetaSpec(rules, ordering, board, color, w, limit, role).result;
      w.alpha.Lt(Fin(r.value)) && Fin(r.value).Lt(w.beta) && r.move.Some? ==>
        ChildMinimax(rules, board, color, limit, role, r.move.value) == MinimaxSpec(rules, board, color, limit, role).value
  {
    if Moves(rules, board, color) != [] && limit != 0 {
      ChildrenFailSoft(rules, ordering, board, color, limit, role);
      if role == Max {
        MaxNodeFailSoft(rules, ordering, board, color, w, limit);
      } else {
        MinNodeFailSoft(rules, ordering, board, color, w, limit);
      }
    }
  }


  /**
   * With the cache off, alpha-beta at the root window (-inf, +inf) returns
   * the minimax value, ordering on or off, and its move is one whose
   * minimax value is that value.
   */
  lemma AlphaBetaAgreesWithMinimax(rules: Rules, ordering: int, board: Board, color: int, limit: int, role: Role)
    requires ValidRules(rules)
    ensures var ab := AlphaBetaSpec(rules, ordering, board, color, Window(NegInf, PosInf), limit, role).result;
      var mm := MinimaxSpec(rules, board, color, limit, role);
      && ab.value == mm.value
      && (ab.move.None? <==> mm.move.None?)
      && (ab.move.Some? ==> ChildMinimax(rules, board, color, limit, role, ab.move.value) == mm.value)
  {
    FailSoft(rules, ordering, board, color, Window(NegInf, PosInf), limit, role);
  }
}
