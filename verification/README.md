# Crossword generator and tic-tac-toe player, in Dafny

This project models two programs from an introductory AI course and proves
properties of the models.

**The crossword generator (`generate.py`)** fills the slots of a crossword
with words. It treats the puzzle as a constraint satisfaction problem:

- The variables are slots. A domain is the set of candidate words for a slot.
- A word must have its slot's length (node consistency).
- Two slots that share a cell must agree on the shared letter (arc consistency).

The solver prunes the domains with node consistency and AC-3. It then runs a
backtracking search. The search picks the variable with the fewest remaining
values, breaking ties by degree. It tries values in least-constraining order.

**The tic-tac-toe player (`tictactoe.py`)** is made of the following:

- The board functions `initial_state`, `player`, `actions`, `result`,
  `winner`, `terminal` and `utility`.
- An alpha-beta search that picks the move for the player to move.

The model is functional. Domains and assignments are immutable maps. The
operations return new values instead of updating `self.domains` or the board
in place.

**Modules:**

- `Wrappers`: `Option` and `Result`.
- `Collections`: set iteration in an unspecified order, and selection by key.
- `Grid`: the crossword structure and the domains.
- `Consistency`: `consistent` and `assignment_complete`.
- `Propagation`: node consistency, `revise` and AC-3.
- `Search`: variable and value ordering, backtracking and `solve`.
- `TicTacToe`: the board functions.
- `GameTree`: the minimax value and the alpha-beta search.

**How the crossword properties are stated:**

- Soundness is stated against `Consistency.Valid`. It says the words are
  distinct, of the right length, and agree on every shared cell.
- Completeness is stated against `Search.NoCompletion`. It says no solution
  extends the assignment with words from the domains.
- AC-3 never removes a word that some solution uses. On success from the full
  arc list, every overlapping arc is arc consistent.

**How the game properties are stated:**

- The alpha-beta search is measured against a ghost minimax value
  `GameTree.Value`.
- Each level of the search returns a fail-soft bound on that value for its
  window. With the full window it returns the value itself.
- `alphabeta` returns the first move whose value is best for the player to
  move.

Python's infinities are written as -2 and 2. Every score lies in -1..1, so
these compare with scores exactly as the infinities do.

**Where the code and its documentation disagree, the model follows the code:**

- `ac3` returns `False` only when a revision empties a domain. A domain that
  was empty from the start is never revised to empty, so `ac3` can return
  `True` with it. From the full arc list that happens only when no neighbour
  of that slot has a word left: an arc into an empty domain empties its source
  domain. `Propagation.AC3` states both facts.
- On a tie for fewest remaining values, `select_unassigned_variable` picks
  the variable of highest degree among ALL unassigned variables, not only
  the tied ones.
- `solve` ignores the result of `ac3`. It searches even when a domain is
  empty; the search then finds nothing.
- `backtrack` returns a complete assignment it is given without checking it.
  `Search.Found` allows that case, and `Search.Solve` starts from the empty
  assignment, where it does not arise.

## Model

| member | source | states |
|---|---|---|
| Propagation.EnforceNodeConsistency | 3.Optimization/crossword/generate.py:103-115 | keeps the variables, leaves every domain node consistent, only removes words, and removes exactly the words whose length differs from the slot's |
| Propagation.NodeConsistencyKeepsSolutions | 3.Optimization/crossword/generate.py:103-115 | every word a solution uses survives node consistency |
| Propagation.NodeConsistencyIdempotent | 3.Optimization/crossword/generate.py:109-115 | enforcing node consistency twice gives the same domains as once |
| Propagation.Revise | 3.Optimization/crossword/generate.py:118-142 | changes only the domain of `x`; keeps exactly the words of `x` that some word of `y` matches on the shared cell; reports a revision exactly when a word was removed; does nothing when the slots do not overlap |
| Propagation.ReviseMakesArcConsistent | 3.Optimization/crossword/generate.py:118-142 | after `revise(x, y)`, every word of `x` has a partner in the domain of `y` |
| Propagation.ReviseIdempotent | 3.Optimization/crossword/generate.py:118-142 | revising the same arc again reports no revision |
| Propagation.ReviseKeepsSolutions | 3.Optimization/crossword/generate.py:118-142 | every word a solution uses survives `revise` |
| Propagation.ReviseKeepsReverseArc | 3.Optimization/crossword/generate.py:163-167 | revising `x` against `y` keeps arc `(y, x)` consistent, which is why `y` is not queued again |
| Propagation.StepKeepsSettled | 3.Optimization/crossword/generate.py:160-167 | after one turn of the AC-3 loop, every overlapping arc is either consistent or still in the queue |
| Propagation.IncomingArcs | 3.Optimization/crossword/generate.py:166-167 | every listed arc is an arc `(z, x)` from a neighbour `z` of `x` other than `y`; every such arc is listed; no arc is listed twice |
| Propagation.Requeue | 3.Optimization/crossword/generate.py:163-167 | the rest of the queue stays in front, in order; when `x` was revised, every arc `(z, x)` from a neighbour `z` other than `y` is appended once and nothing else; when it was not, the queue is just the rest; every overlapping arc stays consistent or queued |
| Propagation.ProcessArc | 3.Optimization/crossword/generate.py:161-167 | pops the head arc `(x, y)`; the domains become exactly those of `revise(x, y)`, so only `x` changes; it fails exactly when that empties a domain that was not empty; otherwise the rest of the queue stays in front, in order, followed only by arcs `(z, x)` from neighbours `z` other than `y`, and by all of them when `x` was pruned; every solution word is kept; the candidate words or the queue shrink |
| Propagation.ReviseHead | 3.Optimization/crossword/generate.py:161-163 | the revision of the head arc is `revise(x, y)`: only the domain of `x` changes, it shrinks strictly exactly when `revise` reports a revision, and solution words survive |
| Propagation.Drain | 3.Optimization/crossword/generate.py:160-169 | the loop only removes words and keeps every solution word; it stops with `False` only when a revision emptied a domain that had words; with `True` no domain is empty that was not empty before; with `True` from all arcs, every overlapping arc is arc consistent |
| Propagation.AC3 | 3.Optimization/crossword/generate.py:145-169 | only removes words and never a word of a solution; `False` means a revision emptied a domain; `True` means no domain became empty; on `True` from all arcs, every overlapping arc is arc consistent, and a slot with an empty neighbour domain is itself empty |
| Propagation.EmptyTargetEmptiesSource | 3.Optimization/crossword/generate.py:130-142 | an arc `(x, y)` is consistent with an empty domain at `y` only when the domain of `x` is empty too, because no word of `x` has a partner |
| Grid.Neighbors | 3.Optimization/crossword/generate.py:166 | the neighbours of `x` are exactly the slots that share a cell with it |
| Consistency.AssignmentComplete | 3.Optimization/crossword/generate.py:172-180 | true exactly when every variable has a word and no word is empty |
| Consistency.FullValidIsComplete | 3.Optimization/crossword/generate.py:172-180 | a consistent assignment is complete exactly when it assigns every variable, since no slot holds an empty word |
| Consistency.Consistent | 3.Optimization/crossword/generate.py:183-204 | true exactly when the words are pairwise distinct, each has its slot's length, and every two assigned overlapping slots agree on the shared letter |
| Consistency.InjectiveByCardinality | 3.Optimization/crossword/generate.py:188-190 | comparing the number of distinct values with the number of keys is the same as checking that no two variables share a word |
| Consistency.ConsistentEmpty | 3.Optimization/crossword/generate.py:188-204 | the empty assignment is consistent for every crossword |
| Consistency.ConsistentRejectsDuplicates | 3.Optimization/crossword/generate.py:188-190 | an assignment that gives two slots the same word is not consistent |
| Consistency.ValidShrinks | 3.Optimization/crossword/generate.py:263-265 | a part of a consistent assignment is consistent, so rejecting an inconsistent partial assignment loses no solution |
| Collections.SortByKey | 3.Optimization/crossword/generate.py:223-224 | the result lists every element once, in ascending order of its key |
| Search.Conflicts | 3.Optimization/crossword/generate.py:214-221 | zero exactly when the word agrees on the shared cell with every word of every unassigned neighbour |
| Search.OrderDomainValues | 3.Optimization/crossword/generate.py:207-224 | lists the domain of the variable, each word once, ordered by how many (unassigned neighbour, word) candidates it rules out |
| Search.SelectUnassignedVariable | 3.Optimization/crossword/generate.py:227-246 | returns an unassigned variable: the one with strictly fewest remaining values when it is unique, otherwise one of highest degree among all unassigned variables |
| Search.HighestDegree | 3.Optimization/crossword/generate.py:244-246 | a variable of the set with the most neighbours |
| Search.InvalidHasNoCompletion | 3.Optimization/crossword/generate.py:265 | an inconsistent assignment extends to no solution |
| Search.NoCompletionFromBranches | 3.Optimization/crossword/generate.py:262-272 | when no word of the variable's domain leads to a solution, the assignment has no completion |
| Search.Backtrack | 3.Optimization/crossword/generate.py:249-272 | a result is complete and extends the input with words from the domains; it is consistent unless it is the input itself returned unchecked, so it is consistent whenever the input is; `None` means no solution extends the input with words from the domains |
| Search.TryValues | 3.Optimization/crossword/generate.py:261-272 | a result holds one of the listed values for the variable, and every value listed before it leads to no solution, so it comes from the first value that leads to one; if none does, there is no completion |
| Search.TryValue | 3.Optimization/crossword/generate.py:263-269 | a result assigns the tried word to the variable and is a solution extending the input; `None` means the input with that word extends to no solution |
| Search.InitialDomains | 3.Optimization/crossword/generate.py:15-18 | every variable starts with the whole vocabulary |
| Search.Solve | 3.Optimization/crossword/generate.py:94-100 | returns a solution built from the vocabulary, or `None` only when no solution uses vocabulary words alone |
| TicTacToe.InitialState | 0.Search/tictactoe/tictactoe.py:12-18 | every cell is empty: nine empty cells and no marks |
| TicTacToe.InitialStateFacts | 0.Search/tictactoe/tictactoe.py:21-31 | on the empty board the counts are balanced, X moves first, and the game is not over |
| TicTacToe.Marks | 0.Search/tictactoe/tictactoe.py:25-29 | the nine cells of the board, as a multiset of nine marks |
| TicTacToe.Count | 0.Search/tictactoe/tictactoe.py:25-29 | how many cells hold a mark, at most nine |
| TicTacToe.CountZero | 0.Search/tictactoe/tictactoe.py:102-105 | a count is zero exactly when no cell holds that mark; the empty, X and O counts add up to nine |
| TicTacToe.Player | 0.Search/tictactoe/tictactoe.py:21-31 | X moves when X has no more marks than O; O moves when X has more |
| TicTacToe.PlayerOfBalanced | 0.Search/tictactoe/tictactoe.py:21-31 | in a game that alternates from X, X moves exactly when the counts are equal and O exactly when X is one ahead |
| TicTacToe.PlayerAlternates | 0.Search/tictactoe/tictactoe.py:21-31 | on a balanced board a legal move keeps the counts balanced and passes the turn to the other player |
| TicTacToe.Actions | 0.Search/tictactoe/tictactoe.py:34-46 | nothing exactly when the game is over; otherwise exactly the empty cells, a non-empty set |
| TicTacToe.EmptiesInRow | 0.Search/tictactoe/tictactoe.py:43-45 | exactly the empty cells of one row |
| TicTacToe.Place | 0.Search/tictactoe/tictactoe.py:56-57 | the chosen cell holds the mark, every other cell is unchanged, and the board's marks change by that one cell |
| TicTacToe.Index | 0.Search/tictactoe/tictactoe.py:53 | Python list indexing on three elements: -3..2 address a cell, counted from the back when negative; anything else is out of range |
| TicTacToe.Result | 0.Search/tictactoe/tictactoe.py:49-58 | an index outside -3..2 is an index error; otherwise the move succeeds exactly when the addressed cell is empty, that cell gets the mover's mark, nothing else changes, and one empty cell fewer remains |
| TicTacToe.OnlyMoverCompletesLine | 0.Search/tictactoe/tictactoe.py:49-58 | a move never completes a line for the player who did not move |
| TicTacToe.FirstOwner | 0.Search/tictactoe/tictactoe.py:65-92 | the first non-empty owner in line order: every earlier owner is empty; empty exactly when no line has an owner |
| TicTacToe.RowOwner | 0.Search/tictactoe/tictactoe.py:66-70 | a row belongs to X (or O) exactly when all three of its cells hold X (or O) |
| TicTacToe.TripleOwner | 0.Search/tictactoe/tictactoe.py:73-90 | a column or diagonal belongs to X (or O) exactly when all three of its cells hold X (or O) |
| TicTacToe.OwnerList | 0.Search/tictactoe/tictactoe.py:65-90 | one owner for each of the eight lines, rows then columns then diagonals; an entry is X or O exactly when that mark fills that line |
| TicTacToe.FirstCompletedLine | 0.Search/tictactoe/tictactoe.py:65-92 | the first owner of such a list is a mark that fills a line, and no earlier line is filled by either mark |
| TicTacToe.NoCompletedLine | 0.Search/tictactoe/tictactoe.py:65-92 | the first owner of such a list is empty exactly when neither mark fills a line |
| TicTacToe.Winner | 0.Search/tictactoe/tictactoe.py:61-92 | a winner owns a complete line; there is no winner exactly when neither mark owns one |
| TicTacToe.WinnerTakesFirstLine | 0.Search/tictactoe/tictactoe.py:65-92 | the winner fills the first filled line in the order rows, columns, diagonals, so when both marks have a line, the earlier line decides |
| TicTacToe.Terminal | 0.Search/tictactoe/tictactoe.py:95-105 | the game is over exactly when a mark owns a line or the board is full |
| TicTacToe.Utility | 0.Search/tictactoe/tictactoe.py:109-118 | 1 only if X has a line, -1 only if O has a line, 0 exactly when neither has |
| GameTree.MaxAlphaBeta | 0.Search/tictactoe/tictactoe.py:211-221 | a score in -1..1 that is a fail-soft bound on the minimax value of a maximising level for its window, and that value itself when it falls inside the window |
| GameTree.MinAlphaBeta | 0.Search/tictactoe/tictactoe.py:198-208 | the same for a minimising level |
| GameTree.MaxStep | 0.Search/tictactoe/tictactoe.py:215-219 | one turn of the maximising loop keeps its bounds on the replies seen so far |
| GameTree.MinStep | 0.Search/tictactoe/tictactoe.py:202-206 | one turn of the minimising loop keeps its bounds |
| GameTree.MaxOfOutcomes | 0.Search/tictactoe/tictactoe.py:211-221 | a loop that ran out of moves or stopped at `alpha >= beta` returns a fail-soft bound on the best outcome |
| GameTree.MinOfOutcomes | 0.Search/tictactoe/tictactoe.py:198-208 | the same for the minimising loop stopping at `beta <= alpha` |
| GameTree.HighestMove | 0.Search/tictactoe/tictactoe.py:181-187 | X's choice is the first move, in iteration order, whose reply value no other move's exceeds: later moves replace it only when strictly better |
| GameTree.LowestMove | 0.Search/tictactoe/tictactoe.py:188-194 | O's choice is the first move, in iteration order, whose reply value no other move's undercuts |
| GameTree.BestIsMax | 0.Search/tictactoe/tictactoe.py:181-187 | a move no other move beats for X reaches the board's minimax value |
| GameTree.BestIsMin | 0.Search/tictactoe/tictactoe.py:188-194 | the same for O |
| GameTree.ReplyValue | 0.Search/tictactoe/tictactoe.py:184-191 | scoring a move by the search of the reply with the full window gives the minimax value of the board after the move |
| GameTree.Lead | 0.Search/tictactoe/tictactoe.py:185-187 | keeps the first best score so far: the move replaces the best one exactly when its score is strictly higher |
| GameTree.Trail | 0.Search/tictactoe/tictactoe.py:192-194 | keeps the first lowest score so far: the move replaces the best one exactly when its score is strictly lower |
| GameTree.HighStep | 0.Search/tictactoe/tictactoe.py:183-187 | one turn of the loop for X keeps the first best move among the moves seen so far |
| GameTree.LowStep | 0.Search/tictactoe/tictactoe.py:190-194 | one turn of the loop for O keeps the first lowest move among the moves seen so far |
| GameTree.AlphaBeta | 0.Search/tictactoe/tictactoe.py:171-195 | no move exactly when the game is over; otherwise an empty cell whose value is optimal for the player to move and equals the board's minimax value |

## Left out

- `print`, `save` and `main` of the crossword generator: terminal and image output, and argument parsing.
- `letter_grid`: it only lays out letters for display.
- Building a crossword from the structure and word files: `crossword.py` is not part of this model. `Grid.WellFormed` states what that construction guarantees: every slot spans at least two cells, overlap entries for every ordered pair of distinct slots, mirrored entries, and offsets inside their slots.
- `copy.deepcopy` of assignments and boards: the model works on immutable values, so copies are implicit.
- `minimax`, `max_value` and `min_value` of the tic-tac-toe player: `max_value` and `min_value` call `min_alpha_beta` and `max_alpha_beta` with one argument instead of three (tictactoe.py lines 154 and 167), so they would fail on their first recursive call. `minimax` is not the search that is modelled; `alphabeta` is.
- Iteration order of Python sets and dicts: each iteration is modelled as some order (`Collections.Enumerate`). The sort in `order_domain_values` is stable over that order, so the order among equal counts is left open.
- Python's `math.inf`: it is modelled as the constants -2 and 2, which compare with every score in -1..1 exactly as the infinities do.
- Boards of other shapes: a board is three rows of three cells, which is all the program creates.
- GameTree.AlphaBeta: the contract does not say which of several equally good moves is returned. That depends on the unspecified order of the move set; `GameTree.HighestMove` and `GameTree.LowestMove` state the first-best rule for a given order.
- Search.OrderDomainValues: the conflict count is stated as the size of the set of (neighbour, word) pairs, which is the number of increments `generate.py` makes. It is not compared with a separate loop-by-loop count.
