/**
 * The solver object (src/SATSolver.kt:8-44): the clause list, the tri-state
 * assignment array that the search mutates in place, and the iteration
 * counter. Its queries are loops over the array and the clauses; each is
 * proved to compute the matching function of module Formula.
 */
module Solver {
  import opened Wrappers
  import opened Formula

  class SATSolver {
    const clauses: seq<Clause>
    /** The assignment, one `Boolean?` per variable; never resized. */
    const literals: array<Option<bool>>
    var iterations: int

    /** The solver's precondition: every literal names a variable of the array. */
    ghost predicate Valid()
    {
      WellFormed(clauses, literals.Length)
    }

    /** All variables start unassigned and no iteration has run. */
    constructor (numLiterals: nat, clauses: seq<Clause>)
      ensures this.clauses == clauses
      ensures fresh(literals) && literals.Length == numLiterals
      ensures forall i :: 0 <= i < numLiterals ==> literals[i] == None
      ensures iterations == 0
    {
      this.clauses := clauses;
      literals := new Option<bool>[numLiterals](_ => None);
      iterations := 0;
    }

    /** `toString`: the fingerprint of the current assignment. */
    method ToString() returns (s: string)
      ensures s == Fingerprint(literals[..])
    {
      s := [];
      var i := 0;
      while i < literals.Length
        invariant 0 <= i <= literals.Length
        invariant s == Fingerprint(literals[..i])
      {
        assert literals[..i + 1][..i] == literals[..i];
        s := s + [Symbol(literals[i])];
        i := i + 1;
      }
      assert literals[..i] == literals[..];
    }

    /** `satisfied(clause)`: scan the literals, skipping unassigned variables. */
    method SatisfiedClause(clause: Clause) returns (r: bool)
      requires forall l :: l in clause.literals ==> 0 <= l.index < literals.Length
      ensures r == ClauseSatisfied(literals[..], clause)
    {
      var k := 0;
      while k < |clause.literals|
        invariant 0 <= k <= |clause.literals|
        invariant forall j :: 0 <= j < k ==> !LiteralTrue(literals[..], clause.literals[j])
      {
        var literal := clause.literals[k];
        assert literal in clause.literals;
        var value := literals[literal.index];
        if value.Some? {
          if (value.value && !literal.negated) || (!value.value && literal.negated) {
            assert LiteralTrue(literals[..], clause.literals[k]);
            return true;
          }
        }
        k := k + 1;
      }
      return false;
    }

    /** `satisfied()`: every clause is satisfied. */
    method Satisfied() returns (r: bool)
      requires Valid()
      ensures r == AllSatisfied(literals[..], clauses)
    {
      var i := 0;
      while i < |clauses|
        invariant 0 <= i <= |clauses|
        invariant forall j :: 0 <= j < i ==> ClauseSatisfied(literals[..], clauses[j])
      {
        var ok := SatisfiedClause(clauses[i]);
        if !ok {
          return false;
        }
        i := i + 1;
      }
      return true;
    }

    /** `numSatisfied`: how many clauses are satisfied. */
    method NumSatisfied() returns (k: int)
      requires Valid()
      ensures k == CountSatisfied(literals[..], clauses)
      ensures 0 <= k <= |clauses|
    {
      k := 0;
      var i := 0;
      while i < |clauses|
        invariant 0 <= i <= |clauses|
        invariant k == CountSatisfied(literals[..], clauses[..i])
      {
        assert clauses[..i + 1][..i] == clauses[..i];
        var ok := SatisfiedClause(clauses[i]);
        if ok {
          k := k + 1;
        }
        i := i + 1;
      }
      assert clauses[..i] == clauses;
    }

    /**
     * `numUnsatisfied`: the clause count minus the satisfied count, which is
     * the number of unsatisfied clauses; zero exactly when the formula holds.
     */
    method NumUnsatisfied() returns (k: int)
      requires Valid()
      ensures k == CountUnsatisfied(literals[..], clauses)
      ensures 0 <= k <= |clauses|
      ensures k == 0 <==> AllSatisfied(literals[..], clauses)
    {
      var sat := NumSatisfied();
      k := |clauses| - sat;
      CountsPartition(literals[..], clauses);
      UnsatisfiedZeroIff(literals[..], clauses);
    }
  }
}
