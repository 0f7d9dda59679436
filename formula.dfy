/**
 * The CNF formula and its evaluator (src/SATSolver.kt:5-33).
 *
 * An assignment is the solver's `Array<Boolean?>` seen as a value: one
 * tri-state entry per variable, `None` being Kotlin's `null` (unassigned).
 * The functions here are the specification of the solver's read-only
 * queries; the class in module Solver computes them with loops.
 */
module Formula {
  import opened Wrappers

  /** A literal refers to variable `index` (zero-based); `negated` flips it. */
  datatype Literal = Literal(index: int, negated: bool)

  datatype Clause = Clause(literals: seq<Literal>)

  type Assignment = seq<Option<bool>>

  /** Every literal of every clause names one of the `n` variables. */
  predicate WellFormed(clauses: seq<Clause>, n: nat)
  {
    forall c, l :: c in clauses && l in c.literals ==> 0 <= l.index < n
  }

  /**
   * A literal is true when its variable is assigned and the value differs
   * from `negated`. An unassigned variable makes no literal true. Outside
   * `WellFormed` (where the source would throw) a literal is simply false.
   */
  predicate LiteralTrue(a: Assignment, l: Literal)
  {
    0 <= l.index < |a| && a[l.index].Some? && a[l.index].value != l.negated
  }

  predicate ClauseSatisfied(a: Assignment, c: Clause)
  {
    exists i :: 0 <= i < |c.literals| && LiteralTrue(a, c.literals[i])
  }

  predicate AllSatisfied(a: Assignment, clauses: seq<Clause>)
  {
    forall i :: 0 <= i < |clauses| ==> ClauseSatisfied(a, clauses[i])
  }

  /** How many of `clauses` are satisfied, counted over the clause list left to right. */
  function CountSatisfied(a: Assignment, clauses: seq<Clause>): (k: nat)
    ensures k <= |clauses|
  {
    if clauses == [] then 0
    else CountSatisfied(a, clauses[..|clauses| - 1])
         + (if ClauseSatisfied(a, clauses[|clauses| - 1]) then 1 else 0)
  }

  /** How many of `clauses` are NOT satisfied, defined directly (not as a difference). */
  function CountUnsatisfied(a: Assignment, clauses: seq<Clause>): (k: nat)
    ensures k <= |clauses|
  {
    if clauses == [] then 0
    else CountUnsatisfied(a, clauses[..|clauses| - 1])
         + (if ClauseSatisfied(a, clauses[|clauses| - 1]) then 0 else 1)
  }

  /** The fingerprint symbol of one variable: `T`, `F` or `U`. */
  function Symbol(v: Option<bool>): char
  {
    match v
    case Some(true) => 'T'
    case Some(false) => 'F'
    case None => 'U'
  }

  /** The solver's `toString`: one symbol per variable, in index order. */
  function Fingerprint(a: Assignment): (s: string)
    ensures |s| == |a|
  {
    if a == [] then [] else Fingerprint(a[..|a| - 1]) + [Symbol(a[|a| - 1])]
  }

  /** `a` and `b` agree wherever `a` is assigned; `b` may assign more. */
  predicate Extends(b: Assignment, a: Assignment)
  {
    |a| == |b| && forall i :: 0 <= i < |a| && a[i].Some? ==> b[i] == a[i]
  }

  // ---------------------------------------------------------------------
  // Properties of the evaluator

  /** A clause is satisfied exactly when one of its literals is true; so the empty clause never is. */
  lemma ClauseSatisfiedIff(a: Assignment, c: Clause)
    ensures ClauseSatisfied(a, c) <==> exists l :: l in c.literals && LiteralTrue(a, l)
    ensures c.literals == [] ==> !ClauseSatisfied(a, c)
  {
    if exists l :: l in c.literals && LiteralTrue(a, l) {
      var l :| l in c.literals && LiteralTrue(a, l);
      var i :| 0 <= i < |c.literals| && c.literals[i] == l;
      assert LiteralTrue(a, c.literals[i]);
    }
  }

  /** A clause whose variables are all unassigned is not satisfied. */
  lemma UnassignedClauseUnsatisfied(a: Assignment, c: Clause)
    requires forall l :: l in c.literals && 0 <= l.index < |a| ==> a[l.index].None?
    ensures !ClauseSatisfied(a, c)
  {
    forall i | 0 <= i < |c.literals| ensures !LiteralTrue(a, c.literals[i]) {
      assert c.literals[i] in c.literals;
    }
  }

  /** Assigning more variables never unsatisfies a satisfied clause. */
  lemma ClauseSatisfiedMonotone(a: Assignment, b: Assignment, c: Clause)
    requires Extends(b, a)
    requires ClauseSatisfied(a, c)
    ensures ClauseSatisfied(b, c)
  {
    var i :| 0 <= i < |c.literals| && LiteralTrue(a, c.literals[i]);
    assert LiteralTrue(b, c.literals[i]);
  }

  /** The satisfied and unsatisfied counts partition the clause list. */
  lemma {:induction false} CountsPartition(a: Assignment, clauses: seq<Clause>)
    ensures CountSatisfied(a, clauses) + CountUnsatisfied(a, clauses) == |clauses|
  {
    if clauses != [] {
      CountsPartition(a, clauses[..|clauses| - 1]);
    }
  }

  /** Every clause is satisfied exactly when the satisfied count is the clause count. */
  lemma {:induction false} AllSatisfiedIffCount(a: Assignment, clauses: seq<Clause>)
    ensures AllSatisfied(a, clauses) <==> CountSatisfied(a, clauses) == |clauses|
  {
    if clauses != [] {
      var init := clauses[..|clauses| - 1];
      AllSatisfiedIffCount(a, init);
      if AllSatisfied(a, clauses) {
        assert AllSatisfied(a, init) by {
          forall i | 0 <= i < |init| ensures ClauseSatisfied(a, init[i]) {
            assert init[i] == clauses[i];
          }
        }
      }
      if CountSatisfied(a, clauses) == |clauses| {
        forall i | 0 <= i < |clauses| ensures ClauseSatisfied(a, clauses[i]) {
          if i < |init| { assert init[i] == clauses[i]; }
        }
      }
    }
  }

  /** The number of unsatisfied clauses is zero exactly when every clause is satisfied. */
  lemma UnsatisfiedZeroIff(a: Assignment, clauses: seq<Clause>)
    ensures CountUnsatisfied(a, clauses) <= |clauses|
    ensures CountUnsatisfied(a, clauses) == 0 <==> AllSatisfied(a, clauses)
  {
    CountsPartition(a, clauses);
    AllSatisfiedIffCount(a, clauses);
  }

  /** The empty formula is satisfied by every assignment. */
  lemma EmptyFormulaSatisfied(a: Assignment)
    ensures AllSatisfied(a, []) && CountUnsatisfied(a, []) == 0
  {
  }

  /** The fingerprint has one symbol per variable, `T`/`F`/`U` position by position. */
  lemma {:induction false} FingerprintAt(a: Assignment)
    ensures |Fingerprint(a)| == |a|
    ensures forall i :: 0 <= i < |a| ==> Fingerprint(a)[i] == Symbol(a[i])
  {
    if a != [] {
      FingerprintAt(a[..|a| - 1]);
    }
  }

  /** Distinct assignments have distinct fingerprints. */
  lemma FingerprintInjective(a: Assignment, b: Assignment)
    requires Fingerprint(a) == Fingerprint(b)
    ensures a == b
  {
    FingerprintAt(a);
    FingerprintAt(b);
    forall i | 0 <= i < |a| ensures a[i] == b[i] {
      assert Symbol(a[i]) == Symbol(b[i]);
    }
  }
}
