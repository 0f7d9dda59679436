/**
 * `solve` (src/SATSolver.kt:40-43) and the unguided baseline `random`
 * (src/SATSolver.kt:114-121). In the source `solve` takes the search as a
 * function bound to the solver; here the choice is a value of `Algorithm`.
 */
module Driver {
  import opened Wrappers
  import opened Formula
  import opened Solver
  import opened Greedy

  /** One draw of the random source: a variable and the value it is set to. */
  datatype Pick = Pick(index: int, value: bool)

  /**
   * The search to run. `GreedyBfs` carries the bound on loop passes;
   * `RandomWalk` carries the draws of the seeded generator, in order.
   */
  datatype Algorithm = GreedyBfs(fuel: nat) | RandomWalk(picks: seq<Pick>)

  /** The assignment after setting each drawn variable to its drawn value, in order. */
  function ApplyPicks(a: Assignment, picks: seq<Pick>): (b: Assignment)
    requires forall p :: p in picks ==> 0 <= p.index < |a|
    ensures |b| == |a|
    ensures forall i :: 0 <= i < |a| && (forall p :: p in picks ==> p.index != i) ==> b[i] == a[i]
  {
    if picks == [] then a
    else
      var last := picks[|picks| - 1];
      ApplyPicks(a, picks[..|picks| - 1])[last.index := Some(last.value)]
  }

  /**
   * `random`: while the formula is not satisfied, set the drawn variable to
   * the drawn value. Never gives up; stops only when the draws run out.
   * `used` is the number of draws taken, one per loop pass and one
   * iteration each; the array is the old one with those draws applied.
   */
  method Random(s: SATSolver, picks: seq<Pick>) returns (r: Outcome, used: nat)
    requires s.Valid()
    requires forall p :: p in picks ==> 0 <= p.index < s.literals.Length
    modifies s, s.literals
    ensures r != Exhausted
    ensures r == Solved <==> AllSatisfied(s.literals[..], s.clauses)
    ensures used <= |picks| && s.iterations == old(s.iterations) + used
    ensures r == OutOfFuel ==> used == |picks|
    ensures s.literals[..] == ApplyPicks(old(s.literals[..]), picks[..used])
    ensures AllSatisfied(old(s.literals[..]), s.clauses) ==> r == Solved && used == 0
  {
    var i := 0;
    var sat := s.Satisfied();
    while !sat
      invariant 0 <= i <= |picks|
      invariant s.iterations == old(s.iterations) + i
      invariant sat == AllSatisfied(s.literals[..], s.clauses)
      invariant s.literals[..] == ApplyPicks(old(s.literals[..]), picks[..i])
      invariant AllSatisfied(old(s.literals[..]), s.clauses) ==> i == 0 && sat
      decreases |picks| - i
    {
      if i == |picks| {
        return OutOfFuel, i;
      }
      s.iterations := s.iterations + 1;
      assert picks[i] in picks;
      assert picks[..i + 1][..i] == picks[..i];
      s.literals[picks[i].index] := Some(picks[i].value);
      i := i + 1;
      sat := s.Satisfied();
    }
    return Solved, i;
  }

  /**
   * `solve`: reset the iteration count, then run the chosen search; the
   * count is then the number of passes the search made.
   */
  method Solve(s: SATSolver, algorithm: Algorithm) returns (r: Outcome, passes: nat)
    requires s.Valid()
    requires algorithm.RandomWalk? ==>
      forall p :: p in algorithm.picks ==> 0 <= p.index < s.literals.Length
    modifies s, s.literals
    ensures r == Solved <==> AllSatisfied(s.literals[..], s.clauses)
    ensures s.iterations == passes
    ensures algorithm.GreedyBfs? ==> passes <= algorithm.fuel
    ensures algorithm.GreedyBfs? && r == Exhausted ==> s.literals[..] == old(s.literals[..])
    ensures algorithm.RandomWalk? ==> r != Exhausted && passes <= |algorithm.picks|
    ensures AllSatisfied(old(s.literals[..]), s.clauses) ==> r == Solved && passes == 0
  {
    s.iterations := 0;
    match algorithm {
      case GreedyBfs(fuel) =>
        r, passes := GreedyBFS(s, fuel);
      case RandomWalk(picks) =>
        r, passes := Random(s, picks);
    }
  }
}
