# Shobu engine core in Dafny

This project models the core of a Shobu engine written in Python. Shobu is a
two-player game played on four 4x4 sub-boards. On each turn a player makes a
passive slide on one of their own two sub-boards. They then repeat the same
slide as an aggressive move on an adjacent sub-board, and that move may push
an opposing piece.

The model covers four layers:

- **Geometry** (`geometry.dfy`): coordinates, moves and move pairs. This
  includes the engine's own idea of a move's "normalized difference" and
  "magnitude".
- **Rules** (`rules.dfy`, `legality.dfy`, `apply.dfy`):
  - the position as an immutable value of four grids;
  - the start position, sub-board adjacency and win detection;
  - the two-phase generation of legal turns;
  - move application with pushes and push-offs.
- **Evaluation** (`evaluator.dfy`):
  - the concept weights;
  - the win short-circuit;
  - the per-sub-board mobility, support and aggression tallies, with exact
    `real` weights;
  - the signed combination of black and white terms.

  The four curve functions are parameters.
- **Search** (`cache.dfy`, `search.dfy`, `root.dfy`):
  - the analysis cache as a pure map transformer;
  - alpha-beta minimax over an abstract game;
  - the root move ordering and reduction, as a fold over any completion order
    of the root tasks.

`scores.dfy` defines the extended scores `NegInf | Fin(real) | PosInf`.
`seqs.dfy` and `wrappers.dfy` hold small generic helpers.

Python recursion depth is modelled by a `fuel` argument. When the fuel runs
out, the search returns `RecursionLimit`, which stands for the
`RecursionError` the engine would raise. The root then reports `None`.

## Behaviour as written

The model follows the code literally, including these behaviours:

- **Normalized difference.** `normalized_difference` takes `min(d, 1)` per
  component, so a -2 component stays -2. Two-square moves with a -2 component
  therefore look at the wrong "middle" and "after end" squares.
  - For (-2, 0), (0, -2) and (-2, -2), admissibility reduces to "the end
    square is empty" (`PushRules.BackwardTwoStepIgnoresMiddle`), and making
    such a move just relocates the piece (`Apply.MakeMoveBackwardTwoStep`).
  - For the mixed diagonals (2, -2) and (-2, 2), the square examined as the
    "middle" lies beside the end square, off the path. A piece there can
    block the move although the end is empty, and the square actually passed
    over is never examined (`PushRules.MixedDiagonalExaminesOffPathSquare`).
  - Making a mixed diagonal move empties that off-path square, so an
    opposing piece standing there is removed from the game
    (`Apply.MakeMoveMixedDiagonal`).
- **Magnitude.** `magnitude` is 2 only for a +2 component, so (-2, 0) has
  magnitude 1 (`Geometry.MagnitudeOfBackwardSlide`).
- **Middle-square push.** A two-square move whose middle square holds an
  opposing piece and whose end square is empty removes that piece. It does
  not push it past the end (`Apply.MiddlePushLosesPiece`).
- **Maximizer cutoff.** The maximizer stops when `beta >= alpha`, the reverse
  of the minimizer's test.
  - With `beta = +inf` only the first child is searched
    (`Search.MaximizerStopsAfterFirstChild`).
  - A two-leaf game where this loses the better move is given in
    `Search.MaximizerMissesBetterMove`.
- **Depth 0 at the root.** `get_best_move(depth=0)` searches its children at
  depth -1, which stops only at a won position or at one with no legal
  moves
  (`Root.GetBestMoveAtDepthZeroFails`).
- **Cache key collisions.** Two positions with the same cache key but
  different evaluations get the stale stored value
  (`Cache.StaleOnKeyCollision`).
- **Root move choice.** The chosen root move depends on completion order when
  scores tie (`Root.ReduceMoveDependsOnOrder`). The chosen score does not
  (`Root.GetBestMoveScoreIndependent`).
- **Win short-circuit.** The evaluator stops at the first sub-board missing a
  colour. It reports a white win when black is missing, even if white is
  missing too. This is the same order `is_winner`/`winner` use.

## Model

| member | source | states |
|---|---|---|
| Geometry.ValidIsWithinBounds | shobu/move.py:24-26 | a coordinate is valid exactly when both components are in {0,1,2,3} |
| Geometry.AddSubRoundTrip | shobu/move.py:28-32 | adding and then subtracting the same vector gives back the original, in both orders |
| Geometry.ScaleDistributes | shobu/move.py:34-35 | scaling is componentwise, so it distributes over a sum of factors and composes multiplicatively |
| Geometry.NormalizedDifferenceForward | shobu/move.py:62-64 | for differences with components in 0..2 the normalized difference is the unit step toward the end |
| Geometry.NormalizedDifferenceKeepsNegative | shobu/move.py:62-64 | components at most 1 (including -2) are kept unchanged, and components at least 1 become 1 |
| Geometry.MagnitudeVersusReach | shobu/move.py:66-68 | for a Shobu slide, magnitude equals the true distance iff the slide is a unit step or has a +2 component; magnitude 2 always means distance 2 |
| Geometry.MagnitudeOfBackwardSlide | shobu/move.py:66-68 | the difference (-2,0) has magnitude 1 although it spans two squares |
| Geometry.MoveArithmeticOnDifferences | shobu/move.py:70-77 | endpoint-wise +, - and * on moves act on the difference the same way |
| Geometry.Named | shobu/board.py:12-17 | the sub-board built from a colour and a side has exactly that colour and side |
| Geometry.StepsAreSlides | shobu/board.py:19-24 | the direction x magnitude list holds exactly the eight directions with magnitudes 1 and 2; each entry is a slide with that direction and distance |
| Geometry.SlideHasStep | shobu/board.py:19-24 | every Shobu slide vector appears in the direction x magnitude list |
| Geometry.CellsComplete | shobu/board.py:123-124 | the scan over x then y visits exactly the valid squares |
| Rules.Opposite | shobu/board.py:53-54 | the opposite colour differs from the given one |
| Rules.OppositeInvolution | shobu/board.py:53-54 | taking the opposite colour twice gives back the colour |
| Rules.Put | shobu/board.py:84-88 | writing a square sets that square and leaves every other square unchanged |
| Rules.Reset | shobu/board.py:31-42 | after reset every sub-board has black exactly on y=0, white exactly on y=3, and empty squares exactly on y=1 and y=2 |
| Rules.ResetCounts | shobu/board.py:31-42 | the start position has four pieces of each colour on each sub-board and no winner |
| Rules.Adjacent | shobu/board.py:44-52 | the first adjacent board has the same colour and the other side; the second has the other colour and the same side |
| Rules.AdjacentProperties | shobu/board.py:44-52 | both adjacent boards differ from the board and from each other, and each map is an involution |
| Rules.OwnBoards | shobu/board.py:118-122 | a player's two passive boards are distinct and are exactly the boards of their colour |
| Rules.WinnerIsFirstDecided | shobu/board.py:56-80 | a winner exists iff some sub-board lacks a colour; it is white if the first such board lacks black, otherwise black |
| Rules.Scan | shobu/board.py:57-71 | the square scan reports black and white present exactly when the sub-board holds them |
| Rules.IsWinner | shobu/board.py:56-80 | the method reports a win iff some sub-board lacks a colour, and then sets the winner from the first such board; otherwise no winner |
| Rules.CountZeroIffAbsent | app/engine/analyze.py:96-100 | a colour's piece count on a sub-board is zero exactly when the colour is absent |
| Rules.CountSwap | app/engine/analyze.py:96-97 | after swapping colours, the opposite colour's count equals the original colour's count |
| Rules.CountPut | shobu/board.py:83-115 | writing one square changes each count by what left and what arrived |
| Rules.SwapColours | app/engine/analyze.py:148-158 | swapping colours acts on each sub-board independently |
| Legality.PassiveStepExact | shobu/board.py:129-145 | one direction and magnitude yields the passive move exactly when the end is on the board and empty, and at magnitude 2 the middle is also empty |
| Legality.StepSound | shobu/board.py:129-145 | every generated passive slide starts on the mover's piece and ends on an open square along a slide |
| Legality.StepComplete | shobu/board.py:129-145 | every open slide from a mover's piece is found by some direction and magnitude |
| Legality.PassivesOnExact | shobu/board.py:123-145 | passive moves generated on a sub-board are exactly the open slides of the mover's pieces there |
| Legality.PassivesExact | shobu/board.py:117-145 | generated passive moves are exactly the open slides on the mover's own two boards |
| Legality.AggressiveAtExact | shobu/board.py:147-166 | an aggressive candidate is generated iff it repeats the passive difference from a mover's piece, has a valid end, and passes the push rules |
| Legality.LegalMovesSound | shobu/board.py:117-197 | every generated pair is a legal turn: a legal passive move on an own board plus an admissible aggressive move with the same vector on an adjacent board |
| Legality.LegalMovesComplete | shobu/board.py:117-197 | every legal turn is generated |
| Legality.LegalMovesExact | shobu/board.py:117-197 | the generated list holds exactly the legal turns |
| PushRules.OwnPieceNeverAdmitted | shobu/board.py:168-195 | an aggressive move onto the mover's own piece is never admitted |
| PushRules.UnitStepRule | shobu/board.py:168-179 | a one-square aggressive move is admitted iff the end is empty, or it holds an opponent and the square beyond is off-board or empty |
| PushRules.TwoStepBranch | shobu/board.py:181-195 | a move without a unit component is judged by the two-step rule on the normalized middle and after-end squares |
| PushRules.ForwardTwoStepRule | shobu/board.py:181-195 | in non-negative directions a two-square move is admitted iff both squares are empty, or neither holds an own piece and exactly one holds an opponent with room beyond |
| PushRules.BackwardTwoStepIgnoresMiddle | shobu/board.py:181-195 | straight or diagonal two-square moves toward lower coordinates are admitted iff the end is empty, whatever is in between |
| PushRules.MixedDiagonalExaminesOffPathSquare | shobu/board.py:181-195 | a (2,-2) or (-2,2) move is judged on the end square and an off-path square beside it, never on the square it passes over; the squares past the end are off the board |
| Apply.MakeMove | shobu/board.py:83-115 | applying a turn changes only the passive and aggressive sub-boards |
| Apply.LegalPairShape | shobu/board.py:117-197 | a legal turn uses valid moves on two different boards, with equal slide vectors, from the mover's pieces, onto an empty passive end |
| Apply.MakeMovePassive | shobu/board.py:84-88 | on the passive board the mover's piece goes from start to end and nothing else changes |
| Apply.AggressiveBoardBefore | shobu/board.py:83-98 | the aggressive move acts on the aggressive board as it was before the turn, because the two boards differ |
| Apply.UnitStepResult | shobu/board.py:90-98 | a one-square move relocates the piece, and a piece on the end square goes one square on when there is room |
| Apply.MakeMoveUnitStep | shobu/board.py:90-98 | on a legal one-square turn the mover lands on the end; an opponent there is pushed on or off the board; nothing else changes |
| Apply.ForwardTwoStepResult | shobu/board.py:100-111 | a forward two-square move relocates the piece, pushes an end piece on when there is room, and otherwise clears the middle |
| Apply.MakeMoveForwardTwoStep | shobu/board.py:100-111 | on a legal forward two-square turn the start and middle are empty, the mover is on the end, and an opponent is pushed past the end or off the board |
| Apply.MakeMoveBackwardTwoStep | shobu/board.py:100-115 | on a legal backward two-square turn only the start and end squares change |
| Apply.MakeMoveMixedDiagonal | shobu/board.py:100-115 | a legal mixed diagonal turn empties the start and the off-path probed square, puts the mover on the end and changes nothing else; an opposing piece on either square is lost |
| Apply.CountAfterCapture | shobu/board.py:83-115 | a move that removes one opposing piece lowers the opponent's count by one and keeps the mover's count |
| Apply.PushOffRemovesOnePiece | shobu/board.py:113-115 | pushing an opponent off the edge with a one-square move removes exactly that piece |
| Apply.MiddlePushLosesPiece | shobu/board.py:100-111 | an opponent on the middle square of a forward two-square move is removed, even when the square past the end is free |
| Evaluator.ConceptWeights | app/engine/analyze.py:31-37 | the weight table has exactly the keys Material, Support, Mobility and Aggression |
| Evaluator.SetConceptWeights | app/engine/analyze.py:60-66 | succeeds iff all four keys are present and then copies their values; otherwise it fails on the first missing key in the source's order |
| Evaluator.SetConceptWeightsRoundTrip | app/engine/analyze.py:60-66 | setting weights from a weight table gives back the same weights |
| Evaluator.OnBoard | app/engine/analyze.py:68-70 | the on-board test holds exactly for valid squares |
| Evaluator.Increment | app/engine/analyze.py:113-145 | every single tally increment is non-negative |
| Evaluator.OffBoardSkipped | app/engine/analyze.py:122-127 | a target square off the grid contributes nothing |
| Evaluator.DistanceTwoIgnoresMiddle | app/engine/analyze.py:122-137 | a distance-2 empty target adds 1.0 to mobility whatever the middle square holds |
| Evaluator.IncrementTable | app/engine/analyze.py:122-145 | for an on-board target: an empty square adds 0.5 (distance 1) or 1.0 (distance 2) to mobility in the offset's own direction and nothing to the other directions; a same-colour square adds 1 or 0.25 to support; an opposing square adds 1 or 0.35 to aggression; otherwise nothing |
| Evaluator.TallyNonNegative | app/engine/analyze.py:113-145 | every mobility, support and aggression tally is non-negative |
| Evaluator.TallySwap | app/engine/analyze.py:113-145 | after swapping colours, the opposite colour's tallies equal the original colour's |
| Evaluator.SubBoardScoreSwap | app/engine/analyze.py:147-158 | swapping colours negates a sub-board's contribution, whatever the curves and weights |
| Evaluator.ContributionAntisymmetric | app/engine/analyze.py:147-158 | the per-sub-board contribution is antisymmetric under colour swap |
| Evaluator.AnalyzeWith | app/engine/analyze.py:87-160 | the result is infinite iff there is a winner (-inf for white, +inf for black); otherwise it is the sum of the sub-board contributions |
| Evaluator.Analyze | app/engine/analyze.py:87-160 | the evaluation is -inf/+inf exactly when white/black has won, and otherwise the sum over sub-boards of the per-sub-board contribution |
| Evaluator.AnalyzeIsSubBoardSum | app/engine/analyze.py:87-160 | an undecided position evaluates to the sum over its four sub-boards of the signed concept terms (black's weighted curve minus white's, for material, mobility per direction, aggression and support) |
| Evaluator.AnalyzeSwapNegates | app/engine/analyze.py:147-158 | for any antisymmetric per-board score, swapping every piece's colour negates a non-terminal evaluation |
| Evaluator.AnalyzeColourSwap | app/engine/analyze.py:87-160 | the engine's evaluation of an undecided position is negated when every piece changes colour |
| Evaluator.WinnerInSwapNone | shobu/board.py:56-76 | swapping colours keeps a position undecided |
| Cache.Lookup | app/engine/__init__.py:15-19 | a lookup adds only the looked-up key, never changes existing entries, returns the stored entry, and evaluates on a miss |
| Cache.LookupTransparent | app/engine/__init__.py:15-19 | with a consistent cache and a key that determines the evaluation, a lookup returns the evaluation and keeps the cache consistent |
| Cache.LookupAll | app/engine/__init__.py:15-19 | a run of lookups returns one value per position, keeps every old key, and stores every looked-up key |
| Cache.LookupAllTransparent | app/engine/__init__.py:15-19 | under the same conditions, a run of lookups returns exactly the evaluations |
| Cache.StaleOnKeyCollision | app/engine/__init__.py:15-19 | two positions sharing a key but not an evaluation make the second lookup return the first's value |
| Scores.Max | app/engine/__init__.py:38 | the maximum is an upper bound on both arguments and is one of them |
| Scores.Min | app/engine/__init__.py:57 | the minimum is a lower bound on both arguments and is one of them |
| Scores.Neg | app/engine/analyze.py:147-158 | float negation of an evaluation: a finite x becomes -x, and the two win values -inf and +inf trade places |
| Scores.BelowIsStrictTotalOrder | app/engine/__init__.py:34-58 | the score comparison is a strict total order |
| Search.MinimaxShape | app/engine/__init__.py:21-61 | a position with a winner or at depth 0 returns its evaluation; a node with no moves returns -inf/+inf for black/white with no move; a chosen move is always a legal move |
| Search.MaxLoopShape | app/engine/__init__.py:25-42 | the maximizer's selected move comes from the move list and beats -inf, or there is none and the score is -inf |
| Search.MinLoopShape | app/engine/__init__.py:44-61 | the minimizer's selected move comes from the move list and is below +inf, or there is none and the score is +inf |
| Search.MaxLoopExplores | app/engine/__init__.py:25-42 | when the maximizer's loop finishes, its children were searched in order with alpha raised by every earlier score, it stopped exactly after the first child at which beta >= alpha, the test as written (or at the end), and it returns the first explored child with the strictly highest score above its starting best, or that starting best and move |
| Search.MinLoopExplores | app/engine/__init__.py:44-61 | the same for the minimizer: children searched in order with beta lowered by every earlier score, stop exactly after the first child at which beta <= alpha, and the first explored child with the strictly lowest score below its starting best |
| Search.MinimaxExplores | app/engine/__init__.py:21-61 | at an undecided node above depth 0, a finished search returns the first best among the children the pruned loop explored, starting from -inf for black and +inf for white with no move |
| Search.MinimaxTerminates | app/engine/__init__.py:21-61 | with recursion budget at least the depth, the search finishes |
| Search.NegativeDepthExhausts | app/engine/__init__.py:22 | from negative depth in a game that never ends, the search always exhausts the recursion budget |
| Search.MaximizerStopsAfterFirstChild | app/engine/__init__.py:38-40 | with beta = +inf the maximizer's result is its first child's result |
| Search.PlainMax | app/engine/__init__.py:25-42 | the unpruned maximum bounds every child's value and is attained by some child (or is -inf) |
| Search.PlainMin | app/engine/__init__.py:44-61 | the unpruned minimum is below every child's value and is attained by some child (or is +inf) |
| Search.MinLoopOverLeaves | app/engine/__init__.py:44-61 | over leaf children the minimizer's loop computes the true minimum |
| Search.MinimizerOverLeavesIsExact | app/engine/__init__.py:44-61 | a white node at depth 1 with a window above -inf gets exactly the unpruned minimax value |
| Search.TwoLeafGame | app/engine/__init__.py:25-42 | a game where black has two moves leading to leaves worth 0 and 1 |
| Search.MaximizerMissesBetterMove | app/engine/__init__.py:38-40 | in that game the search returns 0 with the first move while the true value is 1 |
| Root.BetterIsStrictTotalOrder | app/engine/__init__.py:85-90 | the root's strict comparison is a strict total order for either player |
| Root.Insert | app/engine/__init__.py:69-70 | inserting into the sorted list adds exactly that move |
| Root.InsertSorted | app/engine/__init__.py:69-70 | insertion keeps the list sorted by the key |
| Root.SortByKey | app/engine/__init__.py:69-70 | the sort yields a permutation of the input, sorted by the key |
| Root.SortedMoves | app/engine/__init__.py:69-70 | the ordered root moves are a permutation of the legal moves, ordered by their one-ply evaluation, best first for the side to move (no later move strictly better than an earlier one) |
| Root.Reduce | app/engine/__init__.py:76-92 | the reduction bounds every result; it keeps the initial pair iff nothing strictly beats it, and otherwise it returns the first result attaining the final score |
| Root.ReduceScoreIndependent | app/engine/__init__.py:79-92 | the reduced score depends only on the set of results, not their order |
| Root.ReduceMoveDependsOnOrder | app/engine/__init__.py:79-92 | with tied scores the chosen move depends on completion order |
| Root.Results | app/engine/__init__.py:79-84 | one (score, move) result per root move, in completion order |
| Root.GetBestMove | app/engine/__init__.py:63-92 | fails iff some root task exhausts the recursion budget; otherwise no root task beats the score; the move is either none (score still ∓inf) or a legal move whose task scored exactly the returned score |
| Root.GetBestMoveScoreIndependent | app/engine/__init__.py:79-92 | any two completion orders give the same success and the same best score |
| Root.GetBestMoveReturns | app/engine/__init__.py:63-92 | with positive depth within the recursion budget the root search succeeds |
| Root.GetBestMoveAtDepthZeroFails | app/engine/__init__.py:63-67 | at depth 0 in a game that never ends, the root search exhausts the recursion budget |
| Seqs.InFlatMap | shobu/board.py:117-166 | an element is in a flattened generation exactly when some source item produced it |

## Left out

- The GUI (`app/gui/`), `main.py` and `app/engine/board_node.py` are not part of this model. They cover rendering, input, timing and a wrapper over board functions that `shobu/board.py` does not define.
- The file and JSON loading in the evaluator's constructor is not modelled. The weights come in as a map.
- The constructor's all-1.0 weight table is not modelled: both of its branches overwrite it (with the given weights or with the profile file) before any evaluation reads it.
- The four log/sqrt curves are parameters (`Curves`), because they are floating-point library functions. `Evaluator.Analyze` states its result in terms of the curves rather than numbers.
- Floating point is modelled by exact `real`, so rounding, NaN and floating-point `-0.0` are not modelled. The infinities are the separate `NegInf`/`PosInf` values.
- The thread pool in `get_best_move` is replaced by an arbitrary completion order, given as a permutation parameter. Thread safety of the shared cache is not modelled.
- `has_winner`, `get_mock`, `current_player_turn`, `serialized_string` and move history are used by the engine but not defined in `shobu/board.py`. The search therefore runs over an abstract game record (`Search.Game`), with the cache key as a parameter of `Cache.Lookup`.
- The evaluator reads `board.boards`, `Board.NONE` and `new_piece == - piece`, which assume a numeric piece encoding, while `shobu/board.py` stores the strings "B", "W" and "." and defines neither `NONE` nor `boards` (with those strings `-piece` would raise `TypeError`). The model reads the evaluator under the numeric encoding: `NONE` is `Empty`, `-piece` is the opposite colour, and `boards` are the four sub-boards.
- The class-level `_boards` dictionary is shared by all `Board` instances. A board here is a value, so that sharing is not modelled.
- `Board.__str__` is display only.
- The engine branch where the current player is neither colour (`_minimax` then returns `None`) is not modelled. The game record's `blackToMove` is a boolean.
- Search.Minimax: the cache is not threaded through the search. The evaluation at a leaf is the cached value, which `Cache.LookupAllTransparent` shows equals the evaluator whenever the key determines the evaluation.
- Root.SortByKey: stability of Python's sort is not proved. Only the permutation and sortedness are stated, so ties may be ordered differently.
- Apply.MakeMove: requires both moves to be valid, so Python's negative list indexing on off-board squares is not modelled. Generated legal turns always satisfy this (`Apply.LegalPairShape`).
- `MovePair` equality is structural, because `MovePair` defines no `__eq__`. Identity-based checks live in the GUI.
