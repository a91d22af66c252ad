# Treasure Duel: a verified model of the game core

Treasure Duel is a two-player grid game. A human and an AI take turns to step
one cell up, down, left or right onto an unvisited cell. Stepping onto a cell
that holds a treasure collects its value. The game ends when no treasure is
left or when neither side can move, and the higher score wins.

The AI chooses its moves with the following (game/engine.py):

- a fuzzy static evaluation (game/heuristic.py);
- plain minimax, or alpha-beta with a transposition table;
- a quiescence search over capture moves;
- move ordering;
- a two-entry opening book;
- a search depth that adapts to the number of treasures left.

This project models the four core files in Dafny, one module per concern:

| module | file | models |
|---|---|---|
| `State` | state.dfy | `GameState` as a value: the constructor, `copy`, `apply_move`, `__hash__`/`__eq__`, the score difference and the player to move (game/state.py) |
| `Rules` | rules.dfy | legal moves (as a function and as the source's loop), terminal detection, the winner, Manhattan distance and the nearest-treasure scan (game/rules.py) |
| `Heuristic` | heuristic.dfy | the three fuzzy scores, `evaluate_state` and `evaluate_simple` (game/heuristic.py) |
| `ExtReal` | ext.dfy | reals extended with -inf and +inf; the running best of a search loop (`Fold`); the fail-soft relation between a windowed search result and the true value |
| `MoveOrdering` | ordering.dfy | `order_moves`: Python's stable descending sort by move priority, as an insertion sort |
| `Search` | search.dfy | `minimax` and `quiescence_search`, each proved against a specification function; the full-width (unpruned) value that alpha-beta is proved against |
| `Engine` | engine.dfy | the opening book, the adaptive depth, and an `Engine` class whose field is the transposition table; `alpha_beta` and `get_best_move` are methods that update it |

The main results:

- **Transition rule.** `apply_move` moves the side to move and collects the
  treasure. It conserves points (scores plus the treasure left) and passes the
  turn.
- **Legal moves.** There are at most four. Each legal move is on the board,
  unvisited and one step away. Every open neighbour is among them, and they
  come in the order up, down, left, right.
- **Evaluation.** The evaluation is bounded relative to the score difference.
  With no treasure left it agrees with the winner.
- **Move ordering.** The ordering is a permutation, sorted by priority and
  stable.
- **Minimax.** `minimax` returns the minimax value and the first move that
  attains it.
- **Quiescence.** The quiescence search never falls behind the stand-pat
  value. Inside a non-empty window it is a fail-soft bound on the unpruned
  quiescence value.
- **Alpha-beta.** Without the table, inside any non-empty window (alpha,
  beta), `alpha_beta` returns a fail-soft bound on the full-width value. That
  means:
  - the exact value strictly inside the window;
  - an upper bound at or below alpha;
  - a lower bound at or above beta.

  With the infinite window the result is exact, and the move it reports leads
  to a successor of that value. With the table on, the table is only ever
  extended. A table hit returns the cached value. Every search that is not a
  hit stores its result under the state's key.
- **Choosing a move.** `get_best_move` returns a move exactly when one is
  legal, and the move is legal. A lone move is played as is, and so is a legal
  book move. Under minimax the move played is the first legal move of best
  minimax value at the adaptive depth; when that depth is 0 or the position is
  terminal, no value is compared and the first legal move is played.

Two behaviours of the source are modelled as written:

- The dataclass's `__post_init__` resets `visited` to the two current
  positions. Because `copy()` goes through the constructor, `apply_move`
  leaves only `{old human cell, old AI cell, move}` visited.
  `State.VisitedForgetsHistory` and `Rules.StartCellLegalAgain` show the
  consequence: a player may step back onto a cell it has left.
- The quiescence loops let alpha (or beta) follow each capture's value, but
  not the stand-pat value. The fail-soft property is proved for exactly that
  loop.

## Model

| member | source | states |
|---|---|---|
| State.NewState | game/state.py:10-21 | a new state has the given fields, and its visited set is the two start cells whatever visited set is passed |
| State.Copy | game/state.py:23-34 | all fields are carried over except visited, which becomes the two current cells; a state already in that form copies to itself |
| State.ApplyMove | game/state.py:36-70 | the mover's position becomes `move`; visited is {old human cell, old AI cell, move}; a treasure on `move` is added to the mover's score only and removed from the board, otherwise the treasures are unchanged; gridSize is unchanged and the turn flips |
| State.ApplyMoveConservesPoints | game/state.py:58-65 | human score plus AI score plus the value of the remaining treasures is the same after a move |
| State.ApplyMovePassesTurn | game/state.py:68 | after a move the other side is to move, from the cell where it stood |
| State.VisitedForgetsHistory | game/state.py:19-34 | after one move of each side from the opening, the human's start cell is no longer in visited, and visited is exactly the three cells {(1,0),(3,3),(2,3)} |
| State.Key | game/state.py:72-82 | the hashed tuple, by which the transposition table is keyed, holds exactly the seven hashed fields of the state |
| State.Equals | game/state.py:84-96 | two states are equal iff their keys agree, i.e. iff they differ at most in gridSize |
| State.EqualStatesHashEqually | game/state.py:72-96 | equal states have equal hashes |
| State.CurrentPlayerPos | game/state.py:102-104 | the cell of the human when the human is to move, of the AI otherwise |
| State.ScoreDifference | game/state.py:98-100 | the difference is from the AI's point of view: positive iff the AI leads, negative iff the human leads, and the human's score plus it is the AI's score |
| Rules.Manhattan | game/rules.py:92-103 | the distance is zero exactly when the two cells coincide |
| Rules.ManhattanSymmetric | game/rules.py:92-103 | the distance does not depend on the argument order |
| Rules.OpenAmong | game/rules.py:31-36 | the result is no longer than the candidates, and a cell is in it iff it is a candidate that is on the board and unvisited |
| Rules.LegalMoves | game/rules.py:4-38 | the open neighbours of the side to move, in the order up, down, left, right; at most four (soundness, completeness and order are proved by LegalMovesCharacterised) |
| Rules.PositionsRepeat | game/rules.py:31-36 | from the 4x4 opening, four legal moves from non-terminal positions return to the same state, so positions can repeat |
| Rules.LegalMovesCharacterised | game/rules.py:4-38 | at most four moves; each is on the board, unvisited and at Manhattan distance 1 from the side to move; every open neighbour is one of them; they strictly follow the order up, down, left, right |
| Rules.GetLegalMoves | game/rules.py:4-38 | the loop over the four directions returns exactly LegalMoves, the open neighbours in direction order |
| Rules.IsTerminal | game/rules.py:41-69 | with no treasure the game is over; otherwise it is over iff the side to move has no move and neither does the other side on the turn-swapped copy |
| Rules.TurnSwapped | game/rules.py:62-63 | the turn-swapped copy keeps board, positions and treasures, flips the turn, and its visited set is reset to the two current cells |
| Rules.GetWinner | game/rules.py:72-89 | the human wins iff its score is higher, the AI iff its score is higher, a draw iff the scores are equal |
| Rules.MinDistance | game/rules.py:106-129 | the least distance is attained by some treasure and is not larger than the distance to any treasure |
| Rules.NearestDistance | game/rules.py:106-129 | infinite iff no treasure is left; otherwise a non-negative distance that some treasure attains and none beats |
| Rules.GetNearestTreasure | game/rules.py:106-129 | the scan in dictionary order returns no key and an infinite distance when no treasure is left; otherwise it returns a treasure at the least distance, the first such in iteration order |
| Rules.StartCellLegalAgain | game/rules.py:31-36 | after one move of each side from the opening, the human may step back onto its start cell |
| Heuristic.FuzzyDistanceScore | game/heuristic.py:5-26 | 0 for no treasure; within [0, 1] for a non-negative distance; 0 at or beyond the maximum distance; 1 at distance 0 |
| Heuristic.FuzzyDistanceScoreNonIncreasing | game/heuristic.py:5-26 | a nearer treasure never scores lower |
| Heuristic.FuzzyMobilityScore | game/heuristic.py:29-42 | within [0, 1] for a non-negative count, 1 once the count reaches the maximum, never above 1 |
| Heuristic.FuzzyScoreDifference | game/heuristic.py:45-61 | always within [0, 1]; 0.5 at a zero difference; 1 at a lead of at least the maximum, 0 at a deficit of at least it |
| Heuristic.FuzzyScoreDifferenceNonDecreasing | game/heuristic.py:45-61 | a larger lead never scores lower |
| Heuristic.WithTurn | game/heuristic.py:109-114 | the copy used to count mobility keeps board and positions, has the turn forced to the given side, and its visited set is reset to the two current cells |
| Heuristic.Blend | game/heuristic.py:91-117 | with the factors in their ranges the weighted sum lies within [-0.25, 0.85] |
| Heuristic.MobilityAdvantage | game/heuristic.py:109-117 | the mobility advantage lies within [-1, 1] |
| Heuristic.Proximity | game/heuristic.py:98-106 | each proximity factor (maximum distance twice the board side) lies within [0, 1] |
| Heuristic.WeightedFactors | game/heuristic.py:91-117 | the blend of the four factors lies within [-0.25, 0.85] |
| Heuristic.Scaled | game/heuristic.py:120-122 | a blend in range moves the score difference by at most 5 down and 17 up |
| Heuristic.TerminalValue | game/heuristic.py:81-88 | +1000 iff the AI leads, -1000 iff the human leads, 0 iff level |
| Heuristic.PositionalValue | game/heuristic.py:91-122 | the value lies between 5 below and 17 above the score difference |
| Heuristic.Evaluate | game/heuristic.py:64-122 | with no treasure left the value is the terminal value of the score difference |
| Heuristic.EvaluateBounded | game/heuristic.py:91-122 | while treasure remains the evaluation lies between 5 below and 17 above the score difference |
| Heuristic.EvaluateFormula | game/heuristic.py:91-122 | while treasure remains the evaluation is the score difference plus 20 times (0.5 fuzzy score difference with maximum 20, plus 0.25 AI proximity, minus 0.15 human proximity, with maximum distance twice the board side, plus 0.1 times a quarter of the AI's minus the human's move count on turn-forced copies) |
| Heuristic.EvaluateAgreesWithWinner | game/heuristic.py:81-88 | with no treasure left the evaluation is positive, negative or zero exactly when the AI wins, the human wins or the game is drawn |
| Heuristic.EvaluateSimple | game/heuristic.py:125-136 | the simple evaluation is positive, negative or zero exactly when the AI, the human or neither is ahead |
| MoveOrdering.SortDescendingCorrect | game/engine.py:56 | the stable descending sort is a permutation, non-increasing in the key, and keeps the input order among equal keys |
| MoveOrdering.Priority | game/engine.py:39-54 | a move onto a treasure has priority 1000 times that treasure's value (its distance to the nearest treasure is 0); any other move has priority at most 0, so treasure moves of positive value come first |
| MoveOrdering.OrderMoves | game/engine.py:23-56 | the ordered moves are exactly the given moves, as many of each, in a list of the same length |
| MoveOrdering.OrderMovesCorrect | game/engine.py:23-56 | the ordered moves are a permutation of the moves, best first by move priority, and moves of equal priority keep their order |
| MoveOrdering.OrderMovesSameMoves | game/engine.py:23-56 | a cell is among the ordered moves iff it is among the moves |
| Search.Captures | game/engine.py:118-119 | a move is a capture iff it is one of the given moves and lands on a treasure; the captures are no more numerous than the moves |
| Search.CaptureMoves | game/engine.py:118-122 | a move is a capture move iff it is a legal move onto a treasure, so there is none exactly when no legal move lands on a treasure |
| Search.QValueStandPat | game/engine.py:121-135 | with no capture the quiescence value is the static evaluation, and it is never worse than the static evaluation for the side to move |
| Search.QValueBoundsChildren | game/engine.py:124-143 | the quiescence value is at least (maximizer) or at most (minimizer) every capture successor's value |
| Search.QValueAttained | game/engine.py:124-143 | the quiescence value is the static evaluation or the value of one capture successor |
| Search.Quiescence | game/engine.py:103-143 | with no capture move the result is the static evaluation; it never falls behind the static evaluation for the side to move; inside a non-empty window it is a fail-soft bound on the quiescence value |
| Search.QuiescenceMax | game/engine.py:124-133 | the maximizer's capture loop returns at least the stand-pat value, fail-soft against the running best of stand-pat and the capture values, with alpha raised by each value and a cut-off once beta <= alpha |
| Search.QuiescenceMin | game/engine.py:134-143 | the mirror image for the minimizer, lowering beta |
| Search.SearchCapture | game/engine.py:126-128 | one capture successor searched with the other side to move is fail-soft against its quiescence value |
| Search.MinimaxValueIsBest | game/engine.py:83-100 | below the horizon, in a live position with a move, no successor beats the minimax value for the side to move, and one successor attains it |
| Search.Minimax | game/engine.py:59-100 | the value is the minimax value; no move at the horizon, in a terminal position or without moves; otherwise the first legal move whose successor has that value |
| Search.MinimaxMax | game/engine.py:83-91 | the maximizer's loop returns the best of the successor values and the first move attaining it (a strictly greater value replaces the best) |
| Search.MinimaxMin | game/engine.py:92-100 | the minimizer's loop returns the least successor value and the first move attaining it |
| Search.MinimaxStep | game/engine.py:85-87 | one successor searched one ply shallower with the other side to move has its minimax value |
| Search.FullWidthValueIsBest | game/engine.py:170-223 | below the horizon, in a live position with a move, no successor over the ordered moves beats the full-width value for the side to move, and one successor attains it |
| Engine.BookMove | game/engine.py:246-251 | a book move is given exactly when at most two cells are visited, the position is in the book and the book's move is legal, and it is the book's move |
| Engine.BookMoveAtOpening | game/engine.py:10-14 | from the standard opening on a board of side at least 4, the book gives the human (1, 0) and the AI (2, 3), both legal |
| Engine.AdaptiveDepth | game/engine.py:254-257 | at most two treasures: depth + 2 capped at 8; three or four: depth + 1 capped at 6; more: the depth asked for |
| Engine.AdaptiveDepthCaps | game/engine.py:254-257 | the caps bite (10 plies asked become 8 in the endgame, 7 become 6 in the midgame), and any request of at most 5 plies with at most four treasures is deepened |
| Engine.Engine.constructor | game/engine.py:7 | the transposition table starts empty |
| Engine.Engine.ClearTranspositionTable | game/engine.py:17-20 | the table is empty afterwards |
| Engine.Engine.AlphaBeta | game/engine.py:146-223 | a hit (entry at least as deep) returns the cached value and no move, and the table is unchanged; otherwise, with the table in use, the result is stored with the depth; the table's keys only grow; without the table: a fail-soft bound on the full-width value inside a non-empty window, the exact value and a move leading to a successor of that value with the infinite window; no move exactly on a hit, at the horizon, in a terminal position or without moves; a reported move is legal |
| Engine.Engine.AlphaBetaExpand | game/engine.py:169-223 | the search after the table probe: quiescence at the horizon unless terminal, the static evaluation when terminal or without moves, otherwise the loop over the ordered moves; the same fail-soft and exactness guarantees, no move exactly at the horizon, in a terminal position or without moves |
| Engine.Engine.AlphaBetaMax | game/engine.py:194-208 | the maximizer's loop over the ordered moves reports one of them; without the table, fail-soft against the running best of the successors' full-width values, with alpha raised by each value and a cut-off once beta <= alpha; with the infinite window the move reported has the value returned |
| Engine.Engine.AlphaBetaMin | game/engine.py:209-223 | the mirror image for the minimizer, lowering beta |
| Engine.Engine.AlphaBetaChild | game/engine.py:196-198 | one successor searched one ply shallower with the other side in the window (lo, hi) is fail-soft against its full-width value; table keys only grow |
| Engine.Engine.AlphaBetaValue | game/engine.py:198 | the value of alpha_beta with its move discarded: fail-soft against the full-width value; table keys only grow |
| Engine.Engine.GetBestMove | game/engine.py:226-269 | a move is returned iff one is legal, and it is legal; a lone move, then a legal book move, is played without search and without touching the table; the table's keys only grow; under minimax the table is unchanged and the move is the first legal move of best minimax value at the adaptive depth (the first legal move at depth 0 or in a terminal position) |

## Left out

- The command-line game loop, the console output and the graphical interface (game/main.py, main.py, ui/game_ui.py) are not part of this model. So are the random placement of treasures and the turn-passing rule of the interface.
- Python's integer `hash` and the collisions it allows: the table is keyed by the hashed seven-field tuple itself, so two states that differ in one of the seven compared fields never share an entry (states that differ only in gridSize do share one, as they compare equal in the source).
- Floating point: the weights and scores are exact reals, and float('inf') and float('-inf') are the two infinities of `ExtReal.Ext`.
- Depth is a natural number; every caller passes at least 1 (main.py:98). On a negative depth the source recurses until a terminal or move-less position (or, in alpha_beta, a table entry) or, since positions can repeat (Rules.PositionsRepeat), without end; this is not modelled.
- Heuristic.FuzzyDistanceScore, Heuristic.FuzzyMobilityScore, Heuristic.FuzzyScoreDifference: require a non-zero maximum; the source raises ZeroDivisionError for a zero maximum with a finite distance, count or difference, and answers 0.0 for an infinite distance with a zero maximum, which is not modelled either. Every caller passes 20, 4 or twice a positive board side.
- Heuristic.Evaluate: requires a positive board side; the source divides by twice the side and the command line refuses sides below 3 (main.py:90). The evaluation of a board of non-positive side is not modelled.
- The order in which the treasure dictionary is iterated is a parameter of Rules.GetNearestTreasure (any order of the keys). Elsewhere only the distance matters, and it does not depend on the order.
- State.ApplyMove: the source builds a new object and leaves the old one alone; a Dafny value has the same semantics, so mutation and aliasing of states are not modelled.
- Engine.Engine.AlphaBeta: with the transposition table in use, no relation between the value and the full-width value is stated. The source stores fail-soft bounds as if they were exact values, so the cached value of a later hit need not be the value of the state.
- Engine.Engine.GetBestMove: with alpha-beta, only legality and the table's growth are stated, not optimality of the move, for the same reason.
- No equality between alpha-beta and minimax is claimed: their leaves differ (alpha-beta searches captures at the horizon, minimax evaluates statically), so their values differ in general.
- The three return paths of alpha_beta that store into the table are factored into one store after Engine.Engine.AlphaBetaExpand. The loops and the recursive call are split into helper methods (AlphaBetaMax, AlphaBetaMin, AlphaBetaChild, AlphaBetaValue), with the same order of operations.
