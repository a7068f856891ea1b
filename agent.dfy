/**
 * The agent's search functions with the module-level memo table
 * `cached_states`. A `Session` owns that table; its methods are the node
 * functions of `agent.py`, which consult and update it in place when the
 * caching flag is 1. With the flag off each method returns exactly what
 * the pure specifications `Minimax.MinimaxSpec` and
 * `AlphaBeta.AlphaBetaSpec` compute.
 */
module Agent {
  import opened Wrappers
  import opened ExtendedInt
  import opened OthelloShared
  import opened Evaluation
  import opened Minimax
  import opened AlphaBeta

  /**
   * The two kinds of key the table holds: `(board, color)` for minimax
   * nodes and `(board, color, alpha, beta)` for alpha-beta nodes.
   */
  datatype Key =
    | MinimaxKey(board: Board, color: int)
    | AlphaBetaKey(board: Board, color: int, alpha: ExtInt, beta: ExtInt)

  /** The colour that moves at nodes of the given role when `player` moves at the root. */
  function ColorOf(role: Role, player: int): int
  {
    if role == Max then player else Opponent(player)
  }

  /** The role of the nodes where `color` moves, when `player` moves at the root. */
  function RoleOf(color: int, player: int): Role
  {
    if color == player then Max else Min
  }

  lemma ColorOfFlip(role: Role, player: int)
    ensures ColorOf(role.Flip(), player) == Opponent(ColorOf(role, player))
    ensures RoleOf(ColorOf(role, player), player) == role
  {
  }

  /**
   * A minimax call changes the table only by adding entries under minimax
   * keys whose boards have at most `bound` empty cells.
   */
  ghost predicate MinimaxUpdate(c0: map<Key, SearchResult>, c1: map<Key, SearchResult>, bound: int)
  {
    && (forall k | k in c0 :: k in c1 && c1[k] == c0[k])
    && (forall k | k in c1 && k !in c0 :: k.MinimaxKey? && EmptyCount(k.board) <= bound)
  }

  /**
   * An alpha-beta call never removes a key and never changes a minimax
   * entry; what it adds or overwrites is under alpha-beta keys whose boards
   * have at most `bound` empty cells.
   */
  ghost predicate AlphaBetaUpdate(c0: map<Key, SearchResult>, c1: map<Key, SearchResult>, bound: int)
  {
    && (forall k | k in c0 :: k in c1)
    && (forall k | k in c0 && k.MinimaxKey? :: c1[k] == c0[k])
    && (forall k | k in c1 && (k !in c0 || c1[k] != c0[k]) :: k.AlphaBetaKey? && EmptyCount(k.board) <= bound)
  }

  /** Two successive minimax updates are one. */
  lemma MinimaxUpdateTrans(c0: map<Key, SearchResult>, c1: map<Key, SearchResult>, c2: map<Key, SearchResult>,
                           b1: int, b2: int, bound: int)
    requires MinimaxUpdate(c0, c1, b1) && MinimaxUpdate(c1, c2, b2)
    requires b1 <= bound && b2 <= bound
    ensures MinimaxUpdate(c0, c2, bound)
  {
  }

  /** Two successive alpha-beta updates are one. */
  lemma AlphaBetaUpdateTrans(c0: map<Key, SearchResult>, c1: map<Key, SearchResult>, c2: map<Key, SearchResult>,
                             b1: int, b2: int, bound: int)
    requires AlphaBetaUpdate(c0, c1, b1) && AlphaBetaUpdate(c1, c2, b2)
    requires b1 <= bound && b2 <= bound
    ensures AlphaBetaUpdate(c0, c2, bound)
  {
    forall k | k in c2 && (k !in c0 || c2[k] != c0[k])
      ensures k.AlphaBetaKey? && EmptyCount(k.board) <= bound
    {
      if k in c1 && k in c0 && c1[k] == c0[k] {
        assert c2[k] != c1[k];
      }
    }
  }

  /** Every stored result names a legal move of its key's board and colour. */
  ghost predicate LegalEntries(rules: Rules, c: map<Key, SearchResult>)
  {
    forall k | k in c :: c[k].move.Some? && c[k].move.value in Moves(rules, k.board, k.color)
  }

  /**
   * Every minimax entry holds the unlimited-depth minimax result of its
   * board for the role its colour plays when `player` moves at the root.
   */
  ghost predicate SoundTable(rules: Rules, c: map<Key, SearchResult>, player: int)
    requires ValidRules(rules)
  {
    forall k | k in c && k.MinimaxKey? :: c[k] == MinimaxSpec(rules, k.board, k.color, -1, RoleOf(k.color, player))
  }

  /**
   * Storing a minimax node's result after its child loop: the key is new,
   * because the children only added entries for boards with fewer empty
   * cells, and the entry names a legal move.
   */
  lemma MinimaxStore(rules: Rules, c0: map<Key, SearchResult>, c1: map<Key, SearchResult>,
                     board: Board, color: int, r: SearchResult)
    requires MinimaxUpdate(c0, c1, EmptyCount(board) - 1) && MinimaxKey(board, color) !in c0
    requires LegalEntries(rules, c1)
    requires r.move.Some? && r.move.value in Moves(rules, board, color)
    ensures MinimaxKey(board, color) !in c1
    ensures MinimaxUpdate(c0, c1[MinimaxKey(board, color) := r], EmptyCount(board))
    ensures LegalEntries(rules, c1[MinimaxKey(board, color) := r])
  {
  }

  /** A stored minimax entry of a sound table is the result at any negative limit. */
  lemma SoundLookup(rules: Rules, c: map<Key, SearchResult>, board: Board, color: int, limit: int, role: Role, player: int)
    requires ValidRules(rules) && SoundTable(rules, c, player)
    requires MinimaxKey(board, color) in c && limit < 0 && color == ColorOf(role, player)
    ensures c[MinimaxKey(board, color)] == MinimaxSpec(rules, board, color, limit, role)
  {
    NegativeLimitsAgree(rules, board, color, limit, -1, role);
    ColorOfFlip(role, player);
  }

  /** Storing the result at a negative limit keeps the table sound. */
  lemma SoundStore(rules: Rules, c: map<Key, SearchResult>, board: Board, color: int, limit: int, role: Role,
                   player: int, r: SearchResult)
    requires ValidRules(rules) && SoundTable(rules, c, player)
    requires limit < 0 && color == ColorOf(role, player) && r == MinimaxSpec(rules, board, color, limit, role)
    ensures SoundTable(rules, c[MinimaxKey(board, color) := r], player)
  {
    NegativeLimitsAgree(rules, board, color, limit, -1, role);
    ColorOfFlip(role, player);
  }

  /**
   * Storing an alpha-beta node's result after its child loop, under any
   * window: an alpha-beta key, a legal move.
   */
  lemma AlphaBetaStore(rules: Rules, c0: map<Key, SearchResult>, c1: map<Key, SearchResult>,
                       board: Board, color: int, a: ExtInt, b: ExtInt, r: SearchResult)
    requires AlphaBetaUpdate(c0, c1, EmptyCount(board) - 1)
    requires LegalEntries(rules, c1)
    requires r.move.Some? && r.move.value in Moves(rules, board, color)
    ensures AlphaBetaUpdate(c0, c1[AlphaBetaKey(board, color, a, b) := r], EmptyCount(board))
    ensures LegalEntries(rules, c1[AlphaBetaKey(board, color, a, b) := r])
  {
  }

  class Session {
    /** The board rules the agent imports. */
    const rules: Rules
    /** `cached_states`. */
    var cache: map<Key, SearchResult>

    /**
     * The rules terminate the search, and every stored result names a
     * legal move of its key's board and colour: entries are only written
     * after the child loop of a node with at least one move.
     */
    ghost predicate Valid()
      reads this
    {
      ValidRules(rules) && LegalEntries(rules, cache)
    }

    /** The table holds `r` under `key`. */
    ghost predicate StoredUnder(key: Key, r: SearchResult)
      reads this
    {
      key in cache && cache[key] == r
    }

    /** The minimax entries of the table are sound for root colour `player`. */
    ghost predicate MinimaxCacheSound(player: int)
      reads this
      requires ValidRules(rules)
    {
      SoundTable(rules, cache, player)
    }

    /** A session starts with an empty table. */
    constructor(rules: Rules)
      requires ValidRules(rules)
      ensures Valid()
      ensures this.rules == rules && cache == map[]
    {
      this.rules := rules;
      cache := map[];
    }

    /**
     * `minimax_max_node` (role Max) and `minimax_min_node` (role Min). With
     * caching 1 a stored `(board, color)` entry is returned before
     * anything else, and an inner node stores its result. `player` names
     * the colour at the root, for the soundness of the table.
     */
    method MinimaxNode(board: Board, color: int, limit: int, role: Role, caching: int, ghost player: int)
      returns (r: SearchResult)
      requires Valid()
      modifies this
      decreases EmptyCount(board), 2
      ensures Valid()
      ensures MinimaxUpdate(old(cache), cache, EmptyCount(board))
      ensures r.move.Some? ==> r.move.value in Moves(rules, board, color)
      ensures caching == 1 && MinimaxKey(board, color) in old(cache) ==>
                r == old(cache)[MinimaxKey(board, color)] && cache == old(cache)
      ensures !(caching == 1 && MinimaxKey(board, color) in old(cache)) &&
              (Moves(rules, board, color) == [] || limit == 0) ==>
                r == SearchResult(None, Utility(rules, board, color)) && cache == old(cache)
      ensures caching != 1 ==> cache == old(cache) && r == MinimaxSpec(rules, board, color, limit, role)
      ensures caching == 1 && Moves(rules, board, color) != [] && limit != 0 ==> StoredUnder(MinimaxKey(board, color), r)
      ensures caching == 1 && limit < 0 && color == ColorOf(role, player) && old(MinimaxCacheSound(player)) ==>
                MinimaxCacheSound(player) && r == MinimaxSpec(rules, board, color, limit, role)
    {
      ghost var sound := caching == 1 && limit < 0 && color == ColorOf(role, player) && MinimaxCacheSound(player);
      var key := MinimaxKey(board, color);
      if caching == 1 && key in cache {
        r := cache[key];
        if sound {
          SoundLookup(rules, cache, board, color, limit, role, player);
        }
        return;
      }
      var moves := Moves(rules, board, color);
      if |moves| == 0 || limit == 0 {
        r := SearchResult(None, Utility(rules, board, color));
        return;
      }
      var best := MinimaxChildren(board, color, limit, role, caching, player);
      r := SearchResult(best.move, best.utility.n);
      ChildScanComplete(rules, board, color, limit, role);
      if caching == 1 {
        MinimaxStore(rules, old(cache), cache, board, color, r);
        if sound {
          SoundStore(rules, cache, board, color, limit, role, player, r);
        }
        cache := cache[key := r];
      }
    }

    /**
     * The child loop of a minimax node: every legal move's child is
     * searched in the order the moves are generated, and the loop keeps
     * the first strictly best value.
     */
    method MinimaxChildren(board: Board, color: int, limit: int, role: Role, caching: int, ghost player: int)
      returns (best: Best)
      requires Valid()
      modifies this
      decreases EmptyCount(board), 1
      ensures Valid()
      ensures MinimaxUpdate(old(cache), cache, EmptyCount(board) - 1)
      ensures best.move.Some? <==> Moves(rules, board, color) != []
      ensures best.move.Some? ==> best.utility.Fin? && best.move.value in Moves(rules, board, color)
      ensures caching != 1 ==>
                cache == old(cache) && best == ChildScan(rules, board, color, limit, role, |Moves(rules, board, color)|)
      ensures caching == 1 && limit < 0 && color == ColorOf(role, player) && old(MinimaxCacheSound(player)) ==>
                MinimaxCacheSound(player) && best == ChildScan(rules, board, color, limit, role, |Moves(rules, board, color)|)
    {
      ghost var sound := caching == 1 && limit < 0 && color == ColorOf(role, player) && MinimaxCacheSound(player);
      var moves := Moves(rules, board, color);
      best := InitBest(role);
      var i := 0;
      while i < |moves|
        invariant 0 <= i <= |moves|
        invariant best.move.Some? <==> i > 0
        invariant best.move.Some? ==> best.utility.Fin? && best.move.value in moves
        invariant Valid()
        invariant MinimaxUpdate(old(cache), cache, EmptyCount(board) - 1)
        invariant caching != 1 ==> cache == old(cache)
        invariant sound ==> MinimaxCacheSound(player)
        invariant caching != 1 || sound ==> best == ChildScan(rules, board, color, limit, role, i)
      {
        best := MinimaxChild(board, color, limit, role, caching, player, i, best, old(cache));
        i := i + 1;
      }
    }

    /**
     * One iteration of the child loop: the node one ply deeper, after
     * `color` plays the `i`-th move, is searched with the other colour,
     * role and limit - 1, and its value replaces `best` when it is the
     * first or strictly better. `c0` is the table when the loop started.
     */
    method MinimaxChild(board: Board, color: int, limit: int, role: Role, caching: int, ghost player: int,
                        i: nat, best: Best, ghost c0: map<Key, SearchResult>) returns (best': Best)
      requires Valid()
      requires i < |Moves(rules, board, color)|
      requires best.move.Some? ==> best.utility.Fin? && best.move.value in Moves(rules, board, color)
      requires MinimaxUpdate(c0, cache, EmptyCount(board) - 1)
      modifies this
      decreases EmptyCount(board), 0
      ensures Valid()
      ensures MinimaxUpdate(c0, cache, EmptyCount(board) - 1)
      ensures best'.move.Some? && best'.utility.Fin? && best'.move.value in Moves(rules, board, color)
      ensures caching != 1 ==> cache == old(cache)
      ensures caching == 1 && limit < 0 && color == ColorOf(role, player) && old(MinimaxCacheSound(player)) ==>
                MinimaxCacheSound(player)
      ensures caching != 1 || (limit < 0 && color == ColorOf(role, player) && old(MinimaxCacheSound(player))) ==>
                var m := Moves(rules, board, color)[i];
                best' == Step(role, best, m, ChildMinimax(rules, board, color, limit, role, m))
    {
      var m := Moves(rules, board, color)[i];
      ghost var before := cache;
      ColorOfFlip(role, player);
      var child := Play(rules, board, color, m);
      var r := MinimaxNode(child, Opponent(color), limit - 1, role.Flip(), caching, player);
      MinimaxUpdateTrans(c0, before, cache, EmptyCount(board) - 1, EmptyCount(board) - 1, EmptyCount(board) - 1);
      best' := Step(role, best, m, r.value);
    }

    /**
     * `select_move_minimax`: the move of the max node at the root. Without
     * the cache it is the move of `MinimaxSpec`, so no legal move leads to
     * a better minimax value.
     */
    method SelectMoveMinimax(board: Board, color: int, limit: int, caching: int) returns (move: Option<Move>)
      requires Valid()
      modifies this
      ensures Valid()
      ensures MinimaxUpdate(old(cache), cache, EmptyCount(board))
      ensures move.Some? ==> move.value in Moves(rules, board, color)
      ensures caching != 1 ==>
                && cache == old(cache)
                && move == MinimaxSpec(rules, board, color, limit, Max).move
                && (move.None? <==> Moves(rules, board, color) == [] || limit == 0)
                && (move.Some? ==> forall m | m in Moves(rules, board, color) ::
                      ChildMinimax(rules, board, color, limit, Max, m) <= ChildMinimax(rules, board, color, limit, Max, move.value))
      ensures caching == 1 && limit < 0 && old(MinimaxCacheSound(color)) ==>
                MinimaxCacheSound(color) && move == MinimaxSpec(rules, board, color, limit, Max).move
    {
      var r := MinimaxNode(board, color, limit, Max, caching, color);
      move := r.move;
      if caching != 1 && move.Some? {
        MinimaxNonLeaf(rules, board, color, limit, Max);
      }
    }

    /**
     * `alphabeta_max_node` (role Max) and `alphabeta_min_node` (role Min).
     * With caching 1 a stored `(board, color, alpha, beta)` entry is
     * returned before anything else, and an inner node stores its result
     * under the window as its loop left it, not the one it was looked up
     * under: alpha raised to the node's value at a max node, beta lowered to
     * it at a min node. With caching off the result is `AlphaBetaSpec`'s.
     */
    method AlphaBetaNode(board: Board, color: int, alpha: ExtInt, beta: ExtInt, limit: int, role: Role,
                         caching: int, ordering: int) returns (r: SearchResult)
      requires Valid()
      modifies this
      decreases EmptyCount(board), 2
      ensures Valid()
      ensures AlphaBetaUpdate(old(cache), cache, EmptyCount(board))
      ensures r.move.Some? ==> r.move.value in Moves(rules, board, color)
      ensures caching == 1 && AlphaBetaKey(board, color, alpha, beta) in old(cache) ==>
                r == old(cache)[AlphaBetaKey(board, color, alpha, beta)] && cache == old(cache)
      ensures !(caching == 1 && AlphaBetaKey(board, color, alpha, beta) in old(cache)) &&
              (Moves(rules, board, color) == [] || limit == 0) ==>
                r == SearchResult(None, Utility(rules, board, color)) && cache == old(cache)
      ensures caching != 1 ==>
                cache == old(cache) && r == AlphaBetaSpec(rules, ordering, board, color, Window(alpha, beta), limit, role).result
      ensures caching == 1 && AlphaBetaKey(board, color, alpha, beta) !in old(cache) &&
              Moves(rules, board, color) != [] && limit != 0 ==>
                var w := Narrow(role, Window(alpha, beta), Fin(r.value));
                StoredUnder(AlphaBetaKey(board, color, w.alpha, w.beta), r)
    {
      if caching == 1 && AlphaBetaKey(board, color, alpha, beta) in cache {
        r := cache[AlphaBetaKey(board, color, alpha, beta)];
        return;
      }
      var moves := Moves(rules, board, color);
      if |moves| == 0 || limit == 0 {
        r := SearchResult(None, Utility(rules, board, color));
        return;
      }
      var ms := Expanded(rules, board, color, role, ordering);
      var best, a, b := AlphaBetaChildren(board, color, alpha, beta, limit, role, caching, ordering, ms);
      r := SearchResult(best.move, best.utility.n);
      if caching == 1 {
        AlphaBetaStore(rules, old(cache), cache, board, color, a, b, r);
        cache := cache[AlphaBetaKey(board, color, a, b) := r];
        assert StoredUnder(AlphaBetaKey(board, color, a, b), r);
      }
    }

    /**
     * The child loop of an alpha-beta node over the moves `ms`: each child
     * is searched with the current window, a max node raises alpha and a
     * min node lowers beta past a better value, and the loop breaks once
     * beta <= alpha. Returns the best move and value and the final window,
     * which is the entry window narrowed by the best value alone.
     */
    method AlphaBetaChildren(board: Board, color: int, alpha: ExtInt, beta: ExtInt, limit: int, role: Role,
                             caching: int, ordering: int, ms: seq<Move>) returns (best: Best, a: ExtInt, b: ExtInt)
      requires Valid()
      requires forall m | m in ms :: m in Moves(rules, board, color)
      modifies this
      decreases EmptyCount(board), 1
      ensures Valid()
      ensures AlphaBetaUpdate(old(cache), cache, EmptyCount(board) - 1)
      ensures ms != [] ==> best.move.Some?
      ensures best.move.Some? ==> best.utility.Fin? && best.move.value in Moves(rules, board, color)
      ensures Window(a, b) == Narrow(role, Window(alpha, beta), best.utility)
      ensures caching != 1 ==>
                && cache == old(cache)
                && best == AbLoop(rules, ordering, board, color, limit, role, ms, InitBest(role), Window(alpha, beta)).best
                && Window(a, b) == AbLoop(rules, ordering, board, color, limit, role, ms, InitBest(role), Window(alpha, beta)).window
    {
      best := InitBest(role);
      a, b := alpha, beta;
      ghost var full := AbLoop(rules, ordering, board, color, limit, role, ms, best, Window(a, b));
      if caching != 1 {
        AbLoopFromSuffix(rules, ordering, board, color, limit, role, ms, 0, best, Window(a, b));
        assert ms[0..] == ms;
      }
      var i := 0;
      while i < |ms|
        invariant 0 <= i <= |ms|
        invariant best.move.Some? ==> best.utility.Fin? && best.move.value in Moves(rules, board, color)
        invariant i > 0 ==> best.move.Some?
        invariant best.move.None? ==> best == InitBest(role)
        invariant Window(a, b) == Narrow(role, Window(alpha, beta), best.utility)
        invariant Valid()
        invariant AlphaBetaUpdate(old(cache), cache, EmptyCount(board) - 1)
        invariant caching != 1 ==> cache == old(cache)
        invariant caching != 1 ==>
                    var tail := AbLoopFrom(rules, ordering, board, color, limit, role, ms, i, best, Window(a, b));
                    full.best == tail.best && full.window == tail.window
      {
        var m := ms[i];
        ghost var acc, w := best, Window(a, b);
        var cut;
        best, a, b, cut := AlphaBetaStep(board, color, limit, role, caching, ordering, m, best, a, b, Window(alpha, beta), old(cache));
        if caching != 1 {
          AbLoopFromStep(rules, ordering, board, color, limit, role, ms, i, acc, w, best, Window(a, b), full);
        }
        if cut {
          break;
        }
        i := i + 1;
      }
    }

    /**
     * One iteration of the alpha-beta child loop: the child reached by `m`
     * is searched with the current window and kept when it is the first or
     * strictly better; then a max node raises alpha, a min node lowers
     * beta, to a better best value, and `cut` says the loop must break
     * because beta <= alpha. The window stays the loop's entry window
     * `entry` narrowed by the best value.
     */
    method AlphaBetaStep(board: Board, color: int, limit: int, role: Role, caching: int, ordering: int,
                         m: Move, best: Best, alpha: ExtInt, beta: ExtInt, ghost entry: Window, ghost c0: map<Key, SearchResult>)
      returns (best': Best, a: ExtInt, b: ExtInt, cut: bool)
      requires Valid()
      requires m in Moves(rules, board, color)
      requires best.move.Some? ==> best.utility.Fin?
      requires best.move.None? ==> best == InitBest(role)
      requires Window(alpha, beta) == Narrow(role, entry, best.utility)
      requires AlphaBetaUpdate(c0, cache, EmptyCount(board) - 1)
      modifies this
      decreases EmptyCount(board), 0
      ensures Valid()
      ensures AlphaBetaUpdate(c0, cache, EmptyCount(board) - 1)
      ensures Window(a, b) == Narrow(role, entry, best'.utility)
      ensures best'.move.Some? && best'.utility.Fin? && (best' == best || best'.move == Some(m))
      ensures Window(a, b) == Narrow(role, Window(alpha, beta), best'.utility)
      ensures cut == CutsOff(role, Window(alpha, beta), best'.utility)
      ensures caching != 1 ==>
                cache == old(cache) &&
                best' == Step(role, best, m, AlphaBetaSpec(rules, ordering, Play(rules, board, color, m), Opponent(color),
                                                           Window(alpha, beta), limit - 1, role.Flip()).result.value)
    {
      var child := Play(rules, board, color, m);
      ghost var before := cache;
      var r := AlphaBetaNode(child, Opponent(color), alpha, beta, limit - 1, role.Flip(), caching, ordering);
      AlphaBetaUpdateTrans(c0, before, cache, EmptyCount(board) - 1, EmptyCount(board) - 1, EmptyCount(board) - 1);
      best' := Step(role, best, m, r.value);
      StepBounds(role, best, m, r.value);
      NarrowMonotone(role, entry, best.utility, best'.utility);
      a, b, cut := alpha, beta, false;
      if role == Max {
        if a.Lt(best'.utility) {
          a := best'.utility;
          if b.Le(a) {
            cut := true;
          }
        }
      } else {
        if best'.utility.Lt(b) {
          b := best'.utility;
          if b.Le(a) {
            cut := true;
          }
        }
      }
    }

    /**
     * `select_move_alphabeta`: the move of the max node at the root,
     * searched in the window (-inf, +inf). Without the cache it is the move
     * of `AlphaBetaSpec`, and its minimax value is the root's minimax
     * value, so pruning and ordering never cost the agent a better move.
     */
    method SelectMoveAlphaBeta(board: Board, color: int, limit: int, caching: int, ordering: int)
      returns (move: Option<Move>)
      requires Valid()
      modifies this
      ensures Valid()
      ensures AlphaBetaUpdate(old(cache), cache, EmptyCount(board))
      ensures move.Some? ==> move.value in Moves(rules, board, color)
      ensures caching != 1 ==>
                && cache == old(cache)
                && move == AlphaBetaSpec(rules, ordering, board, color, Window(NegInf, PosInf), limit, Max).result.move
                && (move.None? <==> Moves(rules, board, color) == [] || limit == 0)
                && (move.Some? ==>
                      ChildMinimax(rules, board, color, limit, Max, move.value) == MinimaxSpec(rules, board, color, limit, Max).value)
    {
      var r := AlphaBetaNode(board, color, NegInf, PosInf, limit, Max, caching, ordering);
      move := r.move;
      if caching != 1 {
        AlphaBetaAgreesWithMinimax(rules, ordering, board, color, limit, Max);
      }
    }
  }
}
