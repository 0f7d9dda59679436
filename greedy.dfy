/**
 * `greedyBFS` (src/SATSolver.kt:46-107): the greedy local search over the
 * solver's assignment array, with its undo stack and its closed set of
 * fingerprints. The local state of the Kotlin function becomes the class
 * `Search`; its local helpers `move`, `undo` and `getMoves`, and the
 * `filter`/`minBy` probes of the loop, become methods proved against the
 * functions of module Moves.
 */
module Greedy {
  import opened Wrappers
  import opened Formula
  import opened Solver
  import opened Moves

  /** How a search ends: solved, given up (`false`), or stopped by the fuel bound. */
  datatype Outcome = Solved | Exhausted | OutOfFuel

  /** What one pass of the main loop did. */
  datatype StepOutcome = Moved(chosen: Move) | Backtracked | Stuck

  class Search {
    const solver: SATSolver
    /** The undo stack: for each move applied, the variable and its previous value. */
    var history: seq<Move>
    /** Fingerprints of the states the search has left by a move. */
    var closed: set<string>

    ghost predicate Valid()
      reads this
    {
      solver.Valid() && InRange(history, solver.literals.Length)
    }

    /** The assignment and the undo stack, as a value. */
    ghost function State(): SearchState
      reads this, solver.literals
    {
      SearchState(solver.literals[..], history)
    }

    constructor (solver: SATSolver)
      requires solver.Valid()
      ensures Valid() && this.solver == solver
      ensures history == [] && closed == {}
    {
      this.solver := solver;
      history := [];
      closed := {};
    }

    /** `move`: record the variable's current value, then set it. */
    method DoMove(m: Move)
      requires Valid() && 0 <= m.index < solver.literals.Length
      modifies this`history, solver.literals
      ensures Valid() && closed == old(closed)
      ensures State() == MoveState(old(State()), m)
    {
      history := history + [Move(m.index, solver.literals[m.index])];
      solver.literals[m.index] := m.value;
    }

    /** `undo`: pop the top entry, re-apply it with `move`, and pop what that pushed. */
    method Undo()
      requires Valid() && history != []
      modifies this`history, solver.literals
      ensures Valid() && closed == old(closed)
      ensures State() == UndoState(old(State()))
    {
      var top := history[|history| - 1];
      history := history[..|history| - 1];
      DoMove(top);
      history := history[..|history| - 1];
    }

    /** `getMoves`: the candidate moves of the current assignment, in index order. */
    method GetMoves() returns (moves: seq<Move>)
      ensures moves == MovesFor(solver.literals[..])
    {
      moves := [];
      var i := 0;
      while i < solver.literals.Length
        invariant 0 <= i <= solver.literals.Length
        invariant moves == MovesFor(solver.literals[..i])
      {
        assert solver.literals[..i + 1][..i] == solver.literals[..i];
        match solver.literals[i] {
          case Some(true) => moves := moves + [Move(i, Some(false))];
          case Some(false) => moves := moves + [Move(i, Some(true))];
          case None => moves := moves + [Move(i, Some(true)), Move(i, Some(false))];
        }
        i := i + 1;
      }
      assert solver.literals[..i] == solver.literals[..];
    }

    /**
     * The predicate passed to `filter`: apply `m`, look the fingerprint up
     * in `closed`, undo.
     */
    method ProbeOpen(m: Move) returns (keep: bool)
      requires Valid() && 0 <= m.index < solver.literals.Length
      modifies this`history, solver.literals
      ensures Valid() && closed == old(closed)
      ensures State() == old(State())
      ensures keep == IsOpen(old(solver.literals[..]), closed, m)
    {
      ghost var start := State();
      DoMove(m);
      var fingerprint := solver.ToString();
      keep := fingerprint !in closed;
      Undo();
      UndoAfterMove(start, m);
    }

    /**
     * The selector passed to `minBy`: apply `m`, count the unsatisfied
     * clauses, undo.
     */
    method ProbeScore(m: Move) returns (dist: int)
      requires Valid() && 0 <= m.index < solver.literals.Length
      modifies this`history, solver.literals
      ensures Valid() && closed == old(closed)
      ensures State() == old(State())
      ensures dist == Score(solver.clauses, old(solver.literals[..]), m)
    {
      ghost var start := State();
      DoMove(m);
      dist := solver.NumUnsatisfied();
      Undo();
      UndoAfterMove(start, m);
    }

    /**
     * The `filter` of the main loop: each move is applied, the new
     * fingerprint looked up in `closed`, and the move undone.
     */
    method FilterOpen(moves: seq<Move>) returns (open: seq<Move>)
      requires Valid() && InRange(moves, solver.literals.Length)
      modifies this`history, solver.literals
      ensures Valid() && closed == old(closed)
      ensures State() == old(State())
      ensures open == OpenMoves(old(solver.literals[..]), closed, moves)
    {
      ghost var start := State();
      open := [];
      var i := 0;
      while i < |moves|
        invariant 0 <= i <= |moves|
        invariant Valid() && closed == old(closed)
        invariant State() == start
        invariant open == OpenMoves(start.assignment, closed, moves[..i])
      {
        assert moves[..i + 1][..i] == moves[..i];
        assert moves[i] in moves;
        var keep := ProbeOpen(moves[i]);
        if keep {
          open := open + [moves[i]];
        }
        i := i + 1;
      }
      assert moves[..i] == moves;
    }

    /**
     * The `minBy` of the main loop (Kotlin's nullable `minBy`): the first
     * candidate with the fewest unsatisfied clauses, each scored by moving,
     * counting and undoing; `None` when there is no candidate.
     */
    method MinByScore(cands: seq<Move>) returns (next: Option<Move>)
      requires Valid() && InRange(cands, solver.literals.Length)
      modifies this`history, solver.literals
      ensures Valid() && closed == old(closed)
      ensures State() == old(State())
      ensures next.None? <==> cands == []
      ensures next.Some? ==> exists k :: IsFirstMin(solver.clauses, old(solver.literals[..]), cands, k)
                                         && cands[k] == next.value
    {
      if cands == [] {
        return None;
      }
      ghost var start := State();
      var a := start.assignment;
      assert cands[0] in cands;
      var best := 0;
      var bestValue := ProbeScore(cands[0]);
      var i := 1;
      while i < |cands|
        invariant 1 <= i <= |cands|
        invariant Valid() && closed == old(closed)
        invariant State() == start
        invariant 0 <= best < i && bestValue == Score(solver.clauses, a, cands[best])
        invariant forall j :: 0 <= j < i ==> bestValue <= Score(solver.clauses, a, cands[j])
        invariant forall j :: 0 <= j < best ==> bestValue < Score(solver.clauses, a, cands[j])
      {
        assert cands[i] in cands;
        var value := ProbeScore(cands[i]);
        if bestValue > value {
          best, bestValue := i, value;
        }
        i := i + 1;
      }
      assert IsFirstMin(solver.clauses, a, cands, best);
      return Some(cands[best]);
    }

    /**
     * One pass of the main loop after the iteration count: choose the
     * first least-scoring open move, close the state being left and apply
     * the move; with no open move, fail on an empty history and otherwise
     * undo one step.
     */
    method Step() returns (o: StepOutcome)
      requires Valid()
      modifies this, solver.literals
      ensures Valid() && old(closed) <= closed
      ensures var a := old(solver.literals[..]);
        var open := OpenMoves(a, old(closed), MovesFor(a));
        && (o.Stuck? <==> open == [] && old(history) == [])
        && (o.Backtracked? <==> open == [] && old(history) != [])
        && (o.Stuck? ==> State() == old(State()) && closed == old(closed))
        && (o.Backtracked? ==> old(history) != [] && State() == UndoState(old(State()))
                               && closed == old(closed))
        && (o.Moved? ==>
              && (exists k :: IsFirstMin(solver.clauses, a, open, k) && open[k] == o.chosen)
              && 0 <= o.chosen.index < |a|
              && closed == old(closed) + {Fingerprint(a)}
              && State() == MoveState(old(State()), o.chosen)
              && Fingerprint(solver.literals[..]) !in closed)
    {
      ghost var a := solver.literals[..];
      var moves := GetMoves();
      var open := FilterOpen(moves);
      OpenMovesIff(a, closed, moves);
      var next := MinByScore(open);
      if next.None? {
        if history == [] {
          return Stuck;
        }
        Undo();
        return Backtracked;
      }
      var m := next.value;
      ChosenMoveIsNew(a, closed, m);
      var fingerprint := solver.ToString();
      closed := closed + {fingerprint};
      DoMove(m);
      return Moved(m);
    }
  }

  /**
   * `greedyBFS`, the loop bounded by `fuel` passes (the source's loop need
   * not terminate). Returns `Solved` exactly when the formula holds; gives
   * up only after backtracking to the assignment it started from. `passes`
   * is the number of loop passes, each of which adds one to `iterations`;
   * a formula that already holds takes none.
   */
  method GreedyBFS(s: SATSolver, fuel: nat) returns (r: Outcome, passes: nat)
    requires s.Valid()
    modifies s, s.literals
    ensures r == Solved <==> AllSatisfied(s.literals[..], s.clauses)
    ensures r == Exhausted ==> s.literals[..] == old(s.literals[..])
    ensures s.iterations == old(s.iterations) + passes && passes <= fuel
    ensures r == OutOfFuel ==> passes == fuel
    ensures AllSatisfied(old(s.literals[..]), s.clauses) ==> r == Solved && passes == 0
  {
    var search := new Search(s);
    ghost var start := s.literals[..];
    var f: nat := fuel;
    var sat := s.Satisfied();
    while !sat
      invariant search.Valid() && search.solver == s
      invariant Rewind(s.literals[..], search.history) == start
      invariant AncestorsClosed(s.literals[..], search.history, search.closed)
      invariant sat == AllSatisfied(s.literals[..], s.clauses)
      invariant f <= fuel && s.iterations == old(s.iterations) + (fuel - f)
      invariant AllSatisfied(old(s.literals[..]), s.clauses) ==> f == fuel && sat
      decreases f
    {
      if f == 0 {
        return OutOfFuel, fuel;
      }
      f := f - 1;
      s.iterations := s.iterations + 1;
      ghost var before := search.State();
      ghost var closedBefore := search.closed;
      var o := search.Step();
      match o {
        case Stuck =>
          return Exhausted, fuel - f;
        case Backtracked =>
          RewindUndo(before);
          AncestorsClosedAfterUndo(before.assignment, before.history, closedBefore);
        case Moved(m) =>
          RewindMove(before, m);
          AncestorsClosedAfterMove(before.assignment, before.history, closedBefore, m);
      }
      sat := s.Satisfied();
    }
    return Solved, fuel - f;
  }
}
