# py-chess search and evaluation engine, in Dafny

This project models the engine of a small chess program. The engine scores
positions with a classic material-and-mobility evaluator behind a cache. It
searches with a five-ply minimax that orders moves one ply deep, keeps a
beam of ten moves below depth three, and applies a cut-off test. It then
plays the best-ranked candidate move.

The chess rules come from an external library and are not modelled. The
model sees them through an abstract interface, `Game.Rules`. That interface
gives the legal moves of a position, the position a move leads to,
game-over detection and the result, the position key, and the pieces on the
board. Every result holds for all rule sets. The live board is
`Game.Board`. Its position changes only through `Push` and `Pop`, which
save and restore whole positions as the library does, and through direct
writes of its side-to-move field. The program's module-level board and
evaluator globals are replaced by explicit `Board` and `ClassicValuator`
arguments.

Modules, one per component:

- `Game` (game.dfy): colours, results, pieces, positions, the rules interface and the board.
- `Ordering` (ordering.dfy): a stable sort by score, descending when `desc` and ascending otherwise.
- `Evaluator` (evaluator.dfy): piece values, `MAXVALUE`, the evaluation as a function `Eval`, and the class `ClassicValuator` with its cache (`memo`) and call counter (`count`).
- `Search` (search.dfy): the search, as specification functions (`Score`, `Sweep`, `Candidates`) and as the imperative methods proved against them (`Minimax`, `OnePlyScores`, `SearchMoves`, `SearchChild`). It also proves that the cut-off is sound with respect to plain minimax (`Exhaustive`).
- `Driver` (driver.dfy): playing the chosen move.

How the code was read where it cannot run as written, or where its
behaviour is easy to misread:

- `reset` zeroes only the counter; cache entries survive across searches (play.py:41-42).
- The search calls `is_game_over()` on the state wrapper (play.py:90), but the wrapper in state.py has no such method. The model reads it as the board's game-over test, as in `value` (play.py:55).
- The mobility term calls `legal_moves.counts()` (play.py:80, play.py:82). The model reads it as the number of legal moves.
- The search passes `big` down to its recursive calls (play.py:116). Inner calls would then return pairs that `max`/`min` cannot compare. In the model only the invoking level collects pairs, and children are searched without `big`. When the node is a leaf, a `big` call returns the score alone (play.py:90-91), and the model returns no pairs.
- The cache is transparent only when positions with equal keys evaluate alike. The search methods therefore prove their value under two conditions: `Evaluator.Pure` holds, and the cache starts `Evaluator.Faithful`. Board restoration, cache growth and the counter are proved unconditionally.

## Model

| member | source | states |
|---|---|---|
| Evaluator.ClassicValuator.constructor | play.py:37-39 | a new evaluator has counter 0 and an empty cache |
| Evaluator.ClassicValuator.Reset | play.py:41-42 | the counter becomes 0; the cache is not touched (only `count` is in the frame) |
| Evaluator.ClassicValuator.Call | play.py:45-50 | the counter rises by exactly 1 on every call, hit or miss; afterwards the key is cached and the answer is the cached entry; an existing entry is never replaced; a miss adds exactly the position's evaluation; the side to move is unchanged; under purity a faithful cache stays faithful and the answer equals the fresh evaluation |
| Evaluator.ClassicValuator.Value | play.py:52-86 | the result is `Eval` of the position: a finished game scores MAXVALUE for '1-0', -MAXVALUE for '0-1' and 0 otherwise; the side to move, overwritten twice for the mobility count, is restored |
| Evaluator.EvalCases | play.py:55-86 | for a finished game, the score is MAXVALUE exactly when White won, -MAXVALUE exactly when Black won, and 0 exactly for any other result; for an unfinished game, the score is the per-kind material balance (P1 N3 B3 R5 Q9 K0) plus 0.1 x White's legal-move count minus 0.1 x Black's |
| Evaluator.MaterialIsBalance | play.py:66-74 | the material summed piece by piece, + for White and - for Black, equals the per-kind balance of piece counts |
| Evaluator.MaterialIgnoresOrder | play.py:68-74 | the material does not depend on the order in which the piece map is enumerated |
| Evaluator.EvalIgnoresTurn | play.py:77-84 | with the same setup, an unfinished game evaluates the same whoever is to move, because mobility is counted for both sides |
| Evaluator.StoreKeepsFaithful | play.py:47-50 | under purity, storing a position's evaluation under its key keeps every cache entry equal to the evaluation of every position with that key |
| Ordering.SortSortsAndPermutes | play.py:108 | the ranking is a permutation of its input, ordered high-to-low when descending and low-to-high otherwise |
| Ordering.SortIsStable | play.py:108 | for every score, pairs with that score keep their input order in both directions |
| Ordering.SortedHead | play.py:162-169 | the first ranked pair is in the input, scores at least as well as every input pair for the side to move, and is the earliest input pair with that score |
| Search.Minimax | play.py:88-133 | on return, the board's position, move stack and saved positions equal those on entry; cache entries are never changed; at depth 5 or in a finished game the evaluator is called exactly once and no pairs are returned; without `big` no pairs are returned; under purity with a faithful cache, the value is `Score` and, with `big`, the pairs are those of `Sweep` over `Candidates` |
| Search.OnePlyScores | play.py:103-107 | every legal move is pushed, scored and popped in generation order; the board is restored; the counter rises by the number of legal moves; under purity the list is the one-ply list `OnePly` |
| Search.SearchMoves | play.py:114-131 | the moves are visited in order, with the board restored on the normal exit and on a `break` alike; under purity the running best and the collected pairs are those of `Sweep` started from -MAXVALUE for White and MAXVALUE for Black |
| Search.FoldChild | play.py:120-129 | the running best becomes the max (White) or min (Black) of itself and the child's score; the loop stops exactly when max(alpha, ret) >= beta (White) or min(beta, ret) <= alpha (Black); alpha and beta are not narrowed |
| Search.SearchChild | play.py:115-117 | pushes the move, searches one ply deeper with the same `alpha` and `beta`, pops it, and leaves the board as on entry |
| Search.CandidatesAreRanked | play.py:103-114 | the moves searched are the moves of the ranked one-ply list, in order; all of them at depth 3 or less, and the first min(10, number of legal moves) below depth 3; the ranked list is a stable permutation of the one-ply list, best first for the side to move |
| Search.SweepVisits | play.py:114-129 | the visited children are a prefix of the candidates, in order, and at least one when there is any; each is searched one ply deeper with the node's own `alpha` and `beta`; one `(score, move)` pair is collected per visited child; the loop stops after the first child whose running best passes the cut-off test, and never earlier; the result is the running best over the visited scores |
| Search.SweepIsExtreme | play.py:95-127 | a White node returns the maximum of -MAXVALUE and its visited children's scores; a Black node returns the minimum of MAXVALUE and those scores |
| Search.RunningIsExtreme | play.py:120-127 | folding scores with max (White) or min (Black) gives a value that is at least as good as the start and as every score, and is one of them |
| Search.ScoreFailSoft | play.py:88-133 | for `alpha < beta`, the search value and plain minimax over the same candidate moves are in the fail-soft relation: a search value strictly between the bounds is exact, one at or below `alpha` bounds minimax from above, and one at or above `beta` bounds it from below |
| Search.SweepFailSoft | play.py:114-129 | the loop preserves the fail-soft relation between its running best and the exhaustive running best, including when it stops at a cut-off |
| Driver.ComputerMove | play.py:160-169 | with no candidates the board is unchanged; otherwise exactly one move is pushed: the first candidate after a stable ranking by score, highest first for White and lowest first for Black |
| Driver.ChosenCarriesRootValue | play.py:160-169 | ranking the pairs a top-level search collected chooses a visited move whose score is the best among them; that score is the search value unless it is worse than the starting bound |

## Left out

- The chess rules (move generation, `push_san`, `fen`, `result`, game-over detection, the piece map) belong to the external library. State.py's key tuple is represented by the abstract `key` of `Game.Rules`.
- The library's `push` does not check legality. `Game.Board.Push` does not check it either and takes the rules' successor position.
- `Valuator` (play.py:10-21) and train.py are a neural-network evaluator with its training loop. They are floating-point numerics and calls into a foreign library.
- `explore_leaves` (play.py:135-143) is left out. It never calls the search and never returns: play.py:142 names an undefined `cval`, so the call raises; even with that name fixed, the print at play.py:142 gives four conversions five values and raises; only with the print repaired would it return its empty `ret`. `Driver.ComputerMove` therefore takes its candidate list as a parameter, and `Driver.ChosenCarriesRootValue` relates that list to the list a top-level search would collect.
- Scores are exact reals. The program's floating-point `0.1 * count` rounding is not modelled. In doubles, two positions that `Eval` scores equally can get slightly different scores (0.1*3 - 0.1*1 is not exactly 0.1*2 - 0.1*0), so where the model keeps tied moves in generation order the program may order them strictly; that can change which ten moves the beam keeps, whether a cut-off fires, and the move played.
- The interactive and self-play loops, the web routes, SVG and base64 rendering, and all printing (including the top-three report, play.py:165-168) are I/O and are not modelled.
- Search.Minimax: its value is stated under two conditions: positions with equal keys evaluate alike (`Pure`), and the cache starts faithful. Without them the program can answer from a cache entry made for a different position with the same key.
- Search.Minimax: it requires `0 <= depth <= 5`; a negative start depth, which the program accepts as a deeper search, is not modelled. From a start depth above 5, the program's recursion never reaches depth 5 and recurses without bound until the game ends or the interpreter's recursion limit is hit.
- Search.ScoreFailSoft: the exact comparison is with plain minimax over the same ordered and beam-truncated candidates, not over all legal moves. Beam truncation discards moves by their one-ply scores.
