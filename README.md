# Othello agent search, modelled in Dafny

This project models the adversarial game-tree search of the Othello AI
player `agent.py`:

- `compute_utility` and `compute_heuristic`, the two board evaluations;
- `minimax_max_node` / `minimax_min_node` and `select_move_minimax`;
- `alphabeta_max_node` / `alphabeta_min_node`, with optional move ordering, and
  `select_move_alphabeta`;
- the memo table `cached_states`, shared by every search.

How the source is mapped:

- **Board rules.** The board rules come from `othello_shared`: the legal-move
  generator, `play_move` and the score. The search only calls them, so they
  are a `Rules` value of function values (`othello_shared.dfy`).
  `ValidRules` states the one thing the search relies on: playing a legal
  move leaves fewer empty cells than the board had. That is what makes the
  unlimited search (limit -1) terminate.
- **Node functions.** Each max/min pair of node functions is one member
  with a `Role` parameter.
- **Infinite sentinels.** Python's `float('-inf')` and `float('inf')`
  become the `ExtInt` datatype (`ext_int.dfy`).

The model is in two layers:

- **Pure specifications.** `Minimax.MinimaxSpec` and
  `AlphaBeta.AlphaBetaSpec` are what the node functions return with the
  cache off. `AlphaBeta.AbLoop` is the alpha-beta child loop with its
  window narrowing and its cutoff. Lemmas prove the following about them:
  - the leaf value;
  - max/min over the children, with the earliest-generated move kept on
    ties;
  - that negative limits all mean "no limit";
  - that siblings after a cutoff are never looked at;
  - that alpha-beta is fail-soft with respect to minimax, so at the root
    window it returns the minimax value, with ordering on or off.
- **Imperative search.** `Agent.Session` owns the table as a `map` field.
  Its methods are the node functions with their `for` loops, their `break`
  on cutoff, and their reads and writes of the table. Each method is proved
  against the pure specification:
  - with caching off, the result is the specification's and the table is
    untouched;
  - with caching on, a hit returns the stored pair and leaves the table
    unchanged;
  - a leaf never writes the table;
  - minimax entries are only ever added, and with an unlimited depth every
    one of them equals the uncached result.

`compute_heuristic` is an imperative double loop (`Evaluation.ComputeHeuristic`).
It is proved against a recursive specification of the per-cell weights.

The model follows the code in three places where a reader might expect otherwise:

- **Depth limit.** The recursion always passes `limit-1`. An unlimited
  search is a negative limit that never reaches 0; the depth is not kept
  unchanged.
- **Leaf evaluation.** Leaves are always worth `compute_utility` of the
  node's own colour, at min nodes too. `compute_heuristic` is never used
  by the search.
- **Alpha-beta cache keys.** The alpha-beta table is read under the window
  a node was entered with (agent.py:138, 167). It is written under the
  window as the child loop narrowed it (agent.py:161, 190).

## Model

| member | source | states |
|---|---|---|
| OthelloShared.Play | agent.py:88 | playing a legal move (`play_move`) gives a new board with fewer empty cells, under `ValidRules` |
| Evaluation.Utility | agent.py:18-26 | `compute_utility`: dark minus light disks for colour 1, light minus dark for colour 2, and 0 for any other colour |
| Evaluation.UtilityZeroSum | agent.py:18-26 | `compute_utility` of dark is the negation of that of light; any colour other than 1 or 2 scores 0; an even score gives 0 for both colours |
| Evaluation.ComputeHeuristic | agent.py:31-74 | the nested cell loops compute exactly `HeuristicSpec`: 0.3 times the coin parity plus 0.7 times the stability difference, negated for light, and None for any other colour |
| Evaluation.HeuristicColorSymmetry | agent.py:71-74 | the heuristic for light is the exact negation of that for dark, and it is None exactly when the colour is neither 1 nor 2 |
| Evaluation.StabilitySetCell | agent.py:44-66 | each disk adds its cell's weight: replacing one cell changes a colour's stability by the new content's weight minus the old content's |
| Evaluation.EmptyBoardStability | agent.py:44-66 | empty cells add nothing: an empty board has stability 0 for both colours |
| Evaluation.SingleCornerDisk | agent.py:44-74 | one dark disk in a corner of an empty board gives stability 5 for dark and 0 for light, and the heuristic 3.8 for dark when the score is (1, 0) |
| Minimax.Step | agent.py:111-112 | one loop iteration yields a finite best pair, either the old one or the new move with its value |
| Minimax.Scan | agent.py:107-112 | after visiting a list of children the best move is set exactly when the list is non-empty, and it is one of the visited moves |
| Minimax.BestIndex | agent.py:111-112 | the position the loop keeps lies within the list of child values |
| Minimax.BestIndexFirstBest | agent.py:90-91 | no child value beats the one at `BestIndex`, and every earlier child value is strictly worse |
| Minimax.ScanSnoc | agent.py:108-112 | visiting one more child is one more loop iteration |
| Minimax.ScanFirstBest | agent.py:107-112 | the loop ends on the earliest move with the best value: no child is strictly better and every earlier child is strictly worse |
| Minimax.ChildScan | agent.py:107-112 | the loop variables after the first i children: the move is set iff i > 0, and it is legal |
| Minimax.ChildScanIsScan | agent.py:108-112 | scanning children one at a time equals scanning the prefix of moves with the prefix of child values |
| Minimax.MinimaxSpec | agent.py:77-117 | a node is a leaf (no move) exactly when there is no legal move or the limit is 0, and is then worth the utility of its own colour; otherwise it returns a legal move |
| Minimax.ChildScanComplete | agent.py:107-117 | at an inner node the result is what scanning all the children leaves |
| Minimax.MinimaxNonLeaf | agent.py:86-91 | at an inner node the value is that of the returned legal move, no child is strictly better, and every earlier-generated child is strictly worse |
| Minimax.NegativeLimitsAgree | agent.py:83-89 | every negative limit gives the same result, so -1 means "search to the end of the game" |
| Minimax.DepthOneValue | agent.py:82-91 | at limit 1 the value is the best one-ply utility of the opponent's colour, reached by the returned move |
| Sorting.InsertBySorted | agent.py:145-146 | inserting into a list sorted by key keeps it sorted |
| Sorting.InsertByMultiset | agent.py:145-146 | inserting adds exactly the new element |
| Sorting.SortBy | agent.py:145-146 | `sorted(..., key=...)` returns a permutation of its input in ascending key order |
| Sorting.InsertByWithKey | agent.py:145-146 | inserting an element keeps the order of the elements sharing any key, placing it before those equal to its own key |
| Sorting.SortByStable | agent.py:145-146 | the sort is stable: the elements with each key keep their input order |
| AlphaBeta.OrderMoves | agent.py:174-175 | with ordering 1 the moves are a permutation of the generated ones, ascending in one-ply utility at a min node and descending at a max node |
| AlphaBeta.OrderMovesStable | agent.py:174-175 | moves with equal one-ply utility keep their generator order |
| AlphaBeta.Expanded | agent.py:141-146 | the list the loop runs over is a permutation of the legal moves, sorted or not |
| AlphaBeta.OrderKey | agent.py:174-175 | the sort key orders moves by descending one-ply utility of the mover at a max node (the negated key of agent.py:175) and ascending at a min node (agent.py:146) |
| AlphaBeta.NarrowIsMaxMin | agent.py:184-185 | the window update raises alpha to the larger of alpha and the best value at a max node, lowers beta to the smaller of beta and the best value at a min node (agent.py:155-156), and leaves the other bound: the window only narrows |
| AlphaBeta.NarrowMonotone | agent.py:181-185 | updating by a best value and then by a better one is updating by the better one alone, so the window the loop leaves is the entry window updated by the final best value |
| AlphaBeta.CutsOff | agent.py:184-187 | the loop breaks exactly when the new best value rose above alpha and reaches beta (max node), or fell below beta and reaches alpha (min node, agent.py:155-158) |
| AlphaBeta.AbLoop | agent.py:148-158 | the loop expands at least one and at most all of its moves; it stops early only when beta <= alpha; alpha never drops at a max node and beta never rises at a min node |
| AlphaBeta.AlphaBetaSpec | agent.py:165-192 | a node is a leaf exactly as in minimax, is then worth its own colour's utility and keeps its window, and otherwise returns a legal move |
| AlphaBeta.AbLoopFromSuffix | agent.py:177-187 | running the loop from position i equals running it on the moves from i on |
| AlphaBeta.CutoffIgnoresRest | agent.py:155-158 | once the loop breaks, the siblings after the last expanded child are never looked at: replacing them gives the same outcome |
| AlphaBeta.StepBounds | agent.py:181-182 | at a max node the best value never drops and covers the value just seen; at a min node the mirror image holds |
| AlphaBeta.MaxStep | agent.py:178-187 | one max-node iteration: a cutoff happens only on a child reaching beta, which becomes the best move; otherwise the window stays open and the best value bounds the child's minimax value |
| AlphaBeta.MinStep | agent.py:149-158 | the mirror image of `MaxStep` at a min node |
| AlphaBeta.LoopPostShift | agent.py:177-187 | moving the next child from the unsearched to the searched ones leaves the loop's guarantee unchanged |
| AlphaBeta.MaxLoopSound | agent.py:177-187 | the max-node loop's final best value bounds every child's minimax value unless it reached beta; a value above the entry alpha is the exact minimax value of the best move |
| AlphaBeta.MinLoopSound | agent.py:148-158 | the mirror image of `MaxLoopSound` at a min node |
| AlphaBeta.ChildrenFailSoft | agent.py:180 | every child searched in any open window is fail-soft |
| AlphaBeta.MaxNodeBounds | agent.py:165-192 | from the max loop's guarantee, the node's value is an upper bound at or below alpha, a lower bound at or above beta, and exact in between |
| AlphaBeta.MinNodeBounds | agent.py:136-163 | the mirror image of `MaxNodeBounds` at a min node |
| AlphaBeta.InnerNodeLoop | agent.py:170-187 | at an inner node the result is what the child loop over the expanded moves returns, a legal move, and the minimax move is among those expanded |
| AlphaBeta.MaxNodeFailSoft | agent.py:165-192 | an inner max node is fail-soft when every child is |
| AlphaBeta.MinNodeFailSoft | agent.py:136-163 | an inner min node is fail-soft when every child is |
| AlphaBeta.FailSoft | agent.py:136-192 | in any window with alpha < beta, a value at or below alpha is an upper bound of the minimax value, one at or above beta a lower bound, and one strictly inside is exact and reached by the returned move |
| AlphaBeta.AlphaBetaAgreesWithMinimax | agent.py:209 | at the window (-inf, +inf) alpha-beta returns the minimax value, ordering on or off; it returns a move exactly when minimax does, and that move's minimax value is the root's |
| Agent.ColorOfFlip | agent.py:89 | `3-color` at each ply keeps the colour and the role in step |
| Agent.MinimaxUpdateTrans | agent.py:93-94 | two successive minimax updates of the table (entries only added) are one |
| Agent.AlphaBetaUpdateTrans | agent.py:160-161 | two successive alpha-beta updates of the table (no key removed, no minimax entry changed) are one |
| Agent.MinimaxStore | agent.py:114-115 | a minimax node's key is not yet in the table when it stores, so storing only adds an entry, and it names a legal move |
| Agent.SoundLookup | agent.py:100-101 | an entry of a sound table is the uncached result at any negative limit |
| Agent.SoundStore | agent.py:114-115 | storing the uncached result at a negative limit keeps the table sound |
| Agent.AlphaBetaStore | agent.py:189-190 | an alpha-beta store, under any window, only touches an alpha-beta key and names a legal move |
| Agent.Session.constructor | agent.py:12 | the table starts empty |
| Agent.Session.MinimaxNode | agent.py:98-117 | a hit returns the stored pair and leaves the table alone; a leaf returns no move and its own colour's utility without writing; with caching off the result is `MinimaxSpec`'s; an inner node stores its result; entries are only added; at a negative limit a sound table stays sound and the result is `MinimaxSpec`'s |
| Agent.Session.MinimaxChildren | agent.py:107-112 | the child loop leaves the best pair of `ChildScan` over all moves when the cache is off or sound; it sets a move exactly when there are moves |
| Agent.Session.MinimaxChild | agent.py:108-112 | one iteration: the child after the i-th move is searched with the other colour and role and limit - 1, and kept if first or strictly better |
| Agent.Session.SelectMoveMinimax | agent.py:119-133 | with caching off the move is `MinimaxSpec`'s: None exactly at a leaf, otherwise a legal move no other legal move beats; at a negative limit with a sound table the same holds with caching on |
| Agent.Session.AlphaBetaNode | agent.py:165-192 | a hit returns the stored pair; a leaf returns no move and its own colour's utility without writing; with caching off the result is `AlphaBetaSpec`'s; an inner node that missed the cache stores its result under the entry window narrowed by its own value — alpha raised to it at a max node, beta lowered to it at a min node — not under the window it was looked up with |
| Agent.Session.AlphaBetaChildren | agent.py:177-187 | the final window is the entry window narrowed by the final best value, caching on or off; with caching off the loop with its break ends with `AbLoop`'s best pair and window |
| Agent.Session.AlphaBetaStep | agent.py:178-187 | one iteration: the best pair is updated; alpha is raised (max) or beta lowered (min) to a better value, so the window stays the loop's entry window narrowed by the best value; the loop breaks exactly when beta <= alpha after that |
| Agent.Session.SelectMoveAlphaBeta | agent.py:194-210 | with caching off the move is `AlphaBetaSpec`'s at (-inf, +inf): None exactly at a leaf, otherwise a legal move whose minimax value is the root's minimax value |

## Left out

- `run_ai` is not modelled: it is the stdin/stdout protocol loop with the game manager.
- `eprint` is not modelled: it only writes to stderr. An invalid colour in `compute_utility` still scores 0.
- The unused imports `random` and `time` are not modelled.
- `othello_shared` (`get_possible_moves`, `play_move`, `get_score`, `find_lines`) is not part of this model. Its functions are given as function values.
- `ValidRules` is an assumption about those rules: playing a legal move leaves fewer empty cells. The search needs it to terminate at limit -1.
- Python floats are not modelled bit for bit. The infinities are `ExtInt`, and the heuristic's `0.3`/`0.7` weighting is computed in `real`, without rounding.
- `sorted()` is modelled as a stable insertion sort. Any stable sort gives the same list.
- Evaluation.ComputeHeuristic: requires every row to have at least as many cells as there are rows. On any other board the source raises an index error.
- Agent.Session.AlphaBetaNode: with caching 1 no relation to `AlphaBetaSpec` or to minimax is stated, only legality, how the table changes and the exact key a result is stored under. Entries are read under the entry window but written under the narrowed one, so a stored value need not be what an uncached search in the entry window returns.
- Agent.Session.AlphaBetaNode: an alpha-beta entry may be overwritten when a later node ends its loop with the same narrowed window. For those entries, "only ever added" is stated as "no key is removed".
- Agent.Session.SelectMoveAlphaBeta: with caching 1 only legality and the table update are stated, for the reason above.
- Agent.Session.MinimaxNode: with caching 1 the result equals `MinimaxSpec` only at a negative limit and with a table filled for the same root colour. The key `(board, color)` omits the depth, so a depth-limited entry can be returned at another depth.
- Agent.Session.SelectMoveMinimax: with caching 1 its move is tied to `MinimaxSpec` only under the same conditions as `MinimaxNode`.
