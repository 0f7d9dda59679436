# wildsat: a verified model of the SAT solver core

This project models `src/SATSolver.kt` of wildsat, a small CNF satisfiability tool, in Dafny. It has three parts:

- **Formula evaluator** (`formula.dfy`, `solver.dfy`). `Literal` and `Clause` are datatypes. The solver is the class
  `Solver.SATSolver`. Its tri-state assignment `Array<Boolean?>` is an `array<Option<bool>>`, with `None` standing for
  `null`. The queries `satisfied(clause)`, `satisfied()`, `numSatisfied`, `numUnsatisfied` and the `T`/`F`/`U`
  fingerprint `toString` are loops. Each is proved to compute a function of module `Formula`. The lemmas of `Formula`
  state what those functions mean.
- **Greedy local search** (`moves.dfy`, `greedy.dfy`, `driver.dfy`). The local state of `greedyBFS` is the class
  `Greedy.Search`. It holds the undo stack of `Move(index, previous value)` and the closed set of fingerprints. The
  local helpers `move`, `undo` and `getMoves` and the `filter`/`minBy` probes are methods. Each one is proved against a
  function of module `Moves` on the value `SearchState(assignment, history)`. `GreedyBFS` is the main loop, run for at
  most `fuel` passes. `Driver.Solve` resets the iteration count and runs a search. `Driver.Random` is the random walk,
  fed by a stream of draws.
- **DIMACS reader** (`text.dfy`, `dimacs.dfy`). `parseFile` works on the file's lines, given as a `seq<string>`. The
  Kotlin string operations it uses are functions in module `Text`. These are `trim`, `split(' ')`, `isNotBlank` and
  `toInt`. One line is the function `Dimacs.ParseLine`. The line loop is the method `Dimacs.ParseFile`. It stops at the
  first line that throws, because the exception is caught outside the loop. It then checks the declared clause count.
  A writer `Dimacs.Render` is the reader's partner. Reading the text it writes gives the problem back.

Some behaviours of the code are easy to miss, and the model keeps them:

- Unlike the DIMACS convention, a `0` token does not end a clause. It is skipped, and later tokens on the line are
  still read.
- Every variable is a move candidate, not only the variables of unsatisfied clauses.
- The fingerprint of the state being left is added to the closed set after the move is chosen.
- `solve` resets only the iteration count, not the assignment. Solving again starts from the last assignment.
- A malformed line does not stop the program at once. The exception is swallowed and the remaining lines are not read.
  After that, two checks can still fail. The declared clause count may differ from the clauses read. The variable count
  may be negative, for example after `p cnf -5 x`: the `-5` is stored before `x` throws, and `Array(-5)` then throws.
  The model reports these as `ClauseCountMismatch` and `NegativeVariableCount`.

## Model

| member | source | states |
|---|---|---|
| Formula.ClauseSatisfied | src/SATSolver.kt:24-30 | defines a satisfied clause: some literal's variable is assigned and its value differs from `negated`; a `null` variable is skipped |
| Formula.CountUnsatisfied | src/SATSolver.kt:33 | defines the unsatisfied count clause by clause, not as a difference; it is at most the number of clauses |
| Formula.Fingerprint | src/SATSolver.kt:13-21 | defines `toString`: one symbol per variable, in index order, so its length is the number of variables |
| Formula.CountSatisfied | src/SATSolver.kt:32 | the number of satisfied clauses is at most the number of clauses |
| Formula.ClauseSatisfiedIff | src/SATSolver.kt:24-30 | a clause is satisfied exactly when one of its literals has an assigned variable whose value differs from `negated`; the empty clause never is |
| Formula.UnassignedClauseUnsatisfied | src/SATSolver.kt:26 | unassigned variables are skipped, so a clause whose variables are all unassigned is unsatisfied |
| Formula.ClauseSatisfiedMonotone | src/SATSolver.kt:24-30 | assigning more variables never unsatisfies a satisfied clause |
| Formula.CountsPartition | src/SATSolver.kt:32-33 | the satisfied and unsatisfied counts add up to the number of clauses |
| Formula.AllSatisfiedIffCount | src/SATSolver.kt:23-32 | every clause is satisfied exactly when the satisfied count equals the clause count |
| Formula.UnsatisfiedZeroIff | src/SATSolver.kt:33 | `numUnsatisfied` lies in `[0, clauses.size]` and is zero exactly when `satisfied()` holds |
| Formula.EmptyFormulaSatisfied | src/SATSolver.kt:23 | an empty clause list is satisfied by every assignment |
| Formula.FingerprintAt | src/SATSolver.kt:13-21 | the fingerprint has one symbol per variable, `T`/`F`/`U` for true/false/null, position by position |
| Formula.FingerprintInjective | src/SATSolver.kt:13-21 | distinct assignments have distinct fingerprints |
| Solver.SATSolver.constructor | src/SATSolver.kt:8-11 | a fresh array of `numLiterals` unassigned variables, the given clauses, zero iterations |
| Solver.SATSolver.ToString | src/SATSolver.kt:13-21 | the loop builds the fingerprint of the current array |
| Solver.SATSolver.SatisfiedClause | src/SATSolver.kt:24-30 | the early-return loop computes whether the clause is satisfied |
| Solver.SATSolver.Satisfied | src/SATSolver.kt:23 | true exactly when every clause is satisfied |
| Solver.SATSolver.NumSatisfied | src/SATSolver.kt:32 | the count of satisfied clauses, between 0 and the clause count |
| Solver.SATSolver.NumUnsatisfied | src/SATSolver.kt:33 | the count of unsatisfied clauses, in range, and zero exactly when every clause is satisfied |
| Moves.MoveState | src/SATSolver.kt:51-54 | defines `move` on the value: push the variable with its old value, then set it; one more history entry, same number of variables |
| Moves.UndoState | src/SATSolver.kt:56-59 | defines `undo` on the value: pop the top entry, move back to its recorded value, pop the entry that move pushed; one history entry fewer |
| Moves.MovesAt | src/SATSolver.kt:64-70 | defines the moves of one variable: both values when it is `null`, else its negation; every move changes that variable to a different non-null value |
| Moves.Apply | src/SATSolver.kt:53 | a move sets its variable to its value and leaves every other variable alone |
| Moves.MoveStateEffect | src/SATSolver.kt:51-54 | `move` pushes exactly one entry, the variable and its old value, and changes only that variable |
| Moves.UndoStateEffect | src/SATSolver.kt:56-59 | `undo` pops the top entry and restores that variable's recorded value, changing nothing else |
| Moves.UndoAfterMove | src/SATSolver.kt:51-59 | `undo` after `move` restores both the assignment and the history exactly |
| Moves.UndoTimesAfterMoveAll | src/SATSolver.kt:51-59 | after any sequence of moves, as many undos return to the starting state |
| Moves.RewindMove | src/SATSolver.kt:51-54 | a move keeps the assignment that unwinding the whole history leads back to |
| Moves.RewindUndo | src/SATSolver.kt:56-59 | an undo keeps the assignment that unwinding the whole history leads back to |
| Moves.AncestorsClosedGrow | src/SATSolver.kt:49 | adding fingerprints to the closed set keeps every state on the history closed |
| Moves.AncestorsClosedAfterMove | src/SATSolver.kt:101-102 | closing the current state and then moving keeps every state on the history closed |
| Moves.AncestorsClosedAfterUndo | src/SATSolver.kt:97-99 | backtracking keeps every state on the remaining history closed |
| Moves.MovesFor | src/SATSolver.kt:61-74 | every listed move names a variable of the array |
| Moves.MovesForLength | src/SATSolver.kt:61-74 | there are `n + #unassigned` moves |
| Moves.MovesForExact | src/SATSolver.kt:61-74 | the moves are exactly the changes of one variable to a different non-null value |
| Moves.MovesForOrdered | src/SATSolver.kt:61-74 | moves come in index order, and for an unassigned variable `true` comes before `false` |
| Moves.OpenMoves | src/SATSolver.kt:82-86 | the surviving moves name variables of the array |
| Moves.OpenMovesIff | src/SATSolver.kt:82-86 | a move survives the filter exactly when it leads to a fingerprint not in the closed set; the filter only drops moves |
| Moves.FirstMinUnique | src/SATSolver.kt:87-93 | the first move of least score is unique, so ties go to the earliest move |
| Moves.ChosenMoveIsNew | src/SATSolver.kt:82-102 | a surviving move leads to a fingerprint that is neither closed nor the state being left |
| Moves.ContradictionUnsatisfiable | src/SATSolver.kt:23-30 | the clauses `[1]` and `[-1]` over one variable are satisfied by no assignment |
| Moves.NoOpenMoveFromF | src/SATSolver.kt:61-86 | from `F`, with `U` and `T` closed, the only move leads to `T`, so no move is open |
| Moves.OneOpenMoveFromT | src/SATSolver.kt:61-86 | from `T`, with `U` and `T` closed, the only open move sets the variable to false |
| Moves.BacktrackCycle | src/SATSolver.kt:80-103 | on that formula the search moves from `T` to `F`, finds no open move and undoes back to `T`, whose fingerprint is already closed, so `F` is chosen again: the search can cycle forever |
| Greedy.Search.constructor | src/SATSolver.kt:47-49 | the search starts with an empty history and an empty closed set |
| Greedy.Search.DoMove | src/SATSolver.kt:51-54 | `move` on the array and stack does what `MoveState` says; the closed set is unchanged |
| Greedy.Search.Undo | src/SATSolver.kt:56-59 | `undo` on the array and stack does what `UndoState` says; the closed set is unchanged |
| Greedy.Search.GetMoves | src/SATSolver.kt:61-74 | the loop lists exactly `MovesFor` of the current array |
| Greedy.Search.ProbeOpen | src/SATSolver.kt:83-85 | the filter probe decides whether the move leads to an unclosed state, and leaves array and history as they were |
| Greedy.Search.ProbeScore | src/SATSolver.kt:88-92 | the `minBy` probe returns the unsatisfied count after the move, and leaves array and history as they were |
| Greedy.Search.FilterOpen | src/SATSolver.kt:82-86 | the filter keeps exactly the open moves in order, and leaves array and history as they were |
| Greedy.Search.MinByScore | src/SATSolver.kt:87-93 | `null` exactly on no candidates, otherwise the first candidate of least score; array and history unchanged |
| Greedy.Search.Step | src/SATSolver.kt:80-103 | with no open move: fail on an empty history, else undo one step; otherwise close the state being left and apply the first least-scoring open move, which reaches an unclosed state; closed only grows |
| Greedy.GreedyBFS | src/SATSolver.kt:46-107 | returns true exactly when the formula is satisfied; gives up only with the assignment it started from; `iterations` grows by exactly the number of passes run, and an already satisfied formula takes no pass |
| Driver.ApplyPicks | src/SATSolver.kt:114-121 | the assignment after a sequence of draws: same length, and a variable never drawn keeps its value |
| Driver.Random | src/SATSolver.kt:114-121 | never returns false; returns true exactly when the formula is satisfied; `iterations` grows by exactly the number of draws used, and the assignment is the start with those draws applied; an already satisfied formula uses none |
| Driver.Solve | src/SATSolver.kt:40-43 | resets the iteration count, so afterwards it equals the passes of the chosen search; the outcome is true exactly when the formula is satisfied |
| Text.Trim | src/SATSolver.kt:129 | `trim` as the front trim of the back trim; never longer than the line |
| Text.IsBlank | src/SATSolver.kt:140 | `isBlank`: every character is whitespace, in the set the line trim uses |
| Text.BlankIffTrimEmpty | src/SATSolver.kt:129-140 | a string is blank exactly when it trims to the empty string |
| Text.TrimStartSpec | src/SATSolver.kt:129 | trimming the front drops a whitespace prefix and keeps a suffix that does not start with whitespace |
| Text.TrimEndSpec | src/SATSolver.kt:129 | trimming the back drops a whitespace suffix and keeps a prefix that does not end with whitespace |
| Text.TrimSpec | src/SATSolver.kt:129 | `trim` keeps a middle slice with whitespace on both sides removed; a string without whitespace at its ends is unchanged |
| Text.TrimBlank | src/SATSolver.kt:129 | a whitespace-only line trims to the empty string |
| Text.Split | src/SATSolver.kt:133 | `split` always yields at least one piece |
| Text.SplitPieces | src/SATSolver.kt:133 | no piece contains the separator |
| Text.JoinSplit | src/SATSolver.kt:133 | joining the pieces with the separator gives the line back |
| Text.SplitJoin | src/SATSolver.kt:133 | splitting pieces joined by the separator gives the pieces back |
| Text.ParseInt | src/SATSolver.kt:135-136 | `toInt` yields only values in the 32-bit range |
| Text.ParseShowInt | src/SATSolver.kt:135-136 | `toInt` reads every 32-bit integer back from its decimal text |
| Text.DigitsValueShowNat | src/SATSolver.kt:142 | the digits of a natural number read back as that number |
| Dimacs.Dec32 | src/SATSolver.kt:145 | `index - 1` on `Int` stays in range and is the true difference except at the bottom of the range |
| Dimacs.ParseToken | src/SATSolver.kt:141-145 | one token: it reads exactly when the text after one leading `-` reads as an `Int`, otherwise the line throws; `negated` is the leading `-`; the value `0` gives no literal |
| Dimacs.NonBlank | src/SATSolver.kt:140 | the `filter { it.isNotBlank() }` of the split pieces; never more pieces than it was given |
| Dimacs.ClauseLiterals | src/SATSolver.kt:140-145 | the literals of a clause line in token order, or a throw at the first bad token; at most one literal per token |
| Dimacs.ParseHeader | src/SATSolver.kt:132-136 | a `p` line: throws unless the second piece is `cnf`; stores the variable count before reading the clause count, so a bad clause count still leaves it set; never touches the clauses |
| Dimacs.ParseLine | src/SATSolver.kt:129-147 | one line: a `c` line changes nothing, a `p` line changes only the counts, any other line changes only the clauses and only by appending |
| Dimacs.ParseLines | src/SATSolver.kt:128-153 | the line loop, stopping at the first line that throws; clauses are only ever appended |
| Dimacs.Finish | src/SATSolver.kt:155-159 | reading succeeds exactly when the declared clause count matches and the variable count is not negative; a mismatch reports both counts |
| Dimacs.ParseFile | src/SATSolver.kt:123-160 | the line loop stops after the first line that throws and then checks the count; every clause read has a literal |
| Dimacs.ParsedClausesNonEmpty | src/SATSolver.kt:146 | literal-free lines are dropped, so no clause read is empty |
| Dimacs.ParseLineClauses | src/SATSolver.kt:138-147 | a line leaves the clause list alone or appends one clause with literals |
| Dimacs.CommentLine | src/SATSolver.kt:131 | a line whose trimmed text starts with `c` changes nothing |
| Dimacs.CommentLinesIgnored | src/SATSolver.kt:131 | inserting a comment line anywhere leaves the result unchanged |
| Dimacs.BlankLine | src/SATSolver.kt:138-146 | a blank line adds no clause |
| Dimacs.NonBlankIff | src/SATSolver.kt:140 | the filter keeps exactly the pieces that are not blank |
| Dimacs.ZeroSkipped | src/SATSolver.kt:143 | a `0` token anywhere on a clause line is skipped and does not end the clause |
| Dimacs.DoubleMinusToken | src/SATSolver.kt:141-145 | only one `-` is removed, so `--n` reads as the negated literal of index `-n - 1` |
| Dimacs.UnknownFormatReadsEmpty | src/SATSolver.kt:127-153 | a first line `p` with a format other than `cnf` makes the whole file read as the empty problem |
| Dimacs.LinesAfterAbortIgnored | src/SATSolver.kt:127-153 | nothing after a line that throws is read |
| Dimacs.ParseLiteralToken | src/SATSolver.kt:141-145 | the token of a literal reads back as that literal: variable `k - 1`, negated when written with `-` |
| Dimacs.ClauseLiteralsTokens | src/SATSolver.kt:140-146 | the tokens of a list of literals read back as that list |
| Dimacs.ParseClauseLine | src/SATSolver.kt:138-147 | a written clause line appends exactly that clause |
| Dimacs.ParseHeaderLine | src/SATSolver.kt:132-136 | a written `p cnf` line sets both counts |
| Dimacs.ParseLinesPrefix | src/SATSolver.kt:128-149 | lines that each append one clause append them all, in order |
| Dimacs.ParseClauseLines | src/SATSolver.kt:138-147 | written clause lines read back as those clauses |
| Dimacs.ParseRender | src/SATSolver.kt:123-160 | reading the text written for a problem gives the problem back |

## Left out

- File access, `main` and all console output are not modelled. This covers `forEachLine`, `printStackTrace`, `println`
  and `print()`. The input is the file's lines as a `seq<string>`. `print()` also reads one element past the array,
  because it loops over `0..literals.size`.
- `bestDistance` is not modelled. It only feeds the progress output.
- Greedy.GreedyBFS: the loop runs for at most `fuel` passes. The source's loop need not terminate: a dead end reached
  by backtracking is never closed, so the search can cycle (`Moves.BacktrackCycle` shows one). Only partial
  correctness is proved.
- Driver.Random: the `java.util.Random(0)` generator is replaced by a sequence of draws `(index, value)`, each index in
  range. The walk stops with `OutOfFuel` when the draws run out.
- Solver.SATSolver.Valid: every literal must name a variable of the array. The source instead throws an index exception
  in `satisfied`. The reader does not enforce this; see `Dimacs.DoubleMinusToken`.
- Text.ParseInt: only ASCII digits are read. Java's `Integer.parseInt` also accepts other Unicode decimal digits.
- Driver.Solve: `iterations` is an unbounded integer. Kotlin's `Int` wraps after 2^31 - 1 passes.
- Greedy.Search.MinByScore: follows `minBy`, which returns `null` on an empty list and otherwise the first element of
  least score. The Kotlin versions where `minBy` throws on an empty list are not modelled.
