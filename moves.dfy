/**
 * The pure side of the greedy search (src/SATSolver.kt:46-107): moves, the
 * undo stack as a value, the candidate moves of an assignment, the closed-set
 * filter and the selection rule. The class in module Greedy performs these
 * steps in place on the solver's array and is proved against them.
 */
module Moves {
  import opened Wrappers
  import opened Formula

  /**
   * `Move(index, value)`: set variable `index` to `value`. The same shape is
   * pushed on the history stack, holding the value the variable had before.
   */
  datatype Move = Move(index: int, value: Option<bool>)

  /** The search state the local helpers `move`/`undo` act on. */
  datatype SearchState = SearchState(assignment: Assignment, history: seq<Move>)

  predicate InRange(ms: seq<Move>, n: nat)
  {
    forall m :: m in ms ==> 0 <= m.index < n
  }

  /** The assignment after `m`: only variable `m.index` changes. */
  function Apply(a: Assignment, m: Move): (b: Assignment)
    requires 0 <= m.index < |a|
    ensures |b| == |a| && b[m.index] == m.value
    ensures forall i :: 0 <= i < |a| && i != m.index ==> b[i] == a[i]
  {
    a[m.index := m.value]
  }

  /** `move`: push the variable's current value, then apply the move. */
  function MoveState(s: SearchState, m: Move): (t: SearchState)
    requires 0 <= m.index < |s.assignment|
    ensures |t.assignment| == |s.assignment| && |t.history| == |s.history| + 1
  {
    SearchState(Apply(s.assignment, m),
                s.history + [Move(m.index, s.assignment[m.index])])
  }

  /**
   * `undo`: pop the top entry and apply it with `move` (which pushes an
   * entry of its own), then pop that pushed entry again.
   */
  function UndoState(s: SearchState): (t: SearchState)
    requires s.history != [] && InRange(s.history, |s.assignment|)
    ensures |t.assignment| == |s.assignment| && |t.history| == |s.history| - 1
  {
    var top := s.history[|s.history| - 1];
    var popped := SearchState(s.assignment, s.history[..|s.history| - 1]);
    var moved := MoveState(popped, top);
    SearchState(moved.assignment, moved.history[..|moved.history| - 1])
  }

  /** `move` pushes exactly one entry and changes exactly one variable. */
  lemma MoveStateEffect(s: SearchState, m: Move)
    requires 0 <= m.index < |s.assignment|
    ensures var t := MoveState(s, m);
      && |t.history| == |s.history| + 1
      && t.history[..|s.history|] == s.history
      && t.history[|s.history|] == Move(m.index, s.assignment[m.index])
      && |t.assignment| == |s.assignment|
      && t.assignment[m.index] == m.value
      && forall i :: 0 <= i < |s.assignment| && i != m.index ==> t.assignment[i] == s.assignment[i]
  {
    var t := MoveState(s, m);
    assert t.history[..|s.history|] == s.history;
  }

  /** `undo` drops the top entry and restores the value it recorded. */
  lemma UndoStateEffect(s: SearchState)
    requires s.history != [] && InRange(s.history, |s.assignment|)
    ensures var top := s.history[|s.history| - 1];
      UndoState(s) == SearchState(Apply(s.assignment, top), s.history[..|s.history| - 1])
  {
    var h' := s.history[..|s.history| - 1];
    var top := s.history[|s.history| - 1];
    var e := Move(top.index, s.assignment[top.index]);
    assert (h' + [e])[..|h'|] == h';
  }

  /** `undo` after `move` restores both the assignment and the history exactly. */
  lemma UndoAfterMove(s: SearchState, m: Move)
    requires 0 <= m.index < |s.assignment| && InRange(s.history, |s.assignment|)
    ensures InRange(MoveState(s, m).history, |s.assignment|)
    ensures UndoState(MoveState(s, m)) == s
  {
    var t := MoveState(s, m);
    assert t.history[..|s.history|] == s.history;
    UndoStateEffect(t);
    assert Apply(t.assignment, t.history[|t.history| - 1]) == s.assignment;
  }

  /** Apply `ms` one after another with `move`. */
  function MoveAll(s: SearchState, ms: seq<Move>): (t: SearchState)
    requires InRange(ms, |s.assignment|)
    ensures |t.assignment| == |s.assignment|
    ensures |t.history| == |s.history| + |ms|
    ensures InRange(s.history, |s.assignment|) ==> InRange(t.history, |s.assignment|)
    decreases |ms|
  {
    if ms == [] then s else MoveAll(MoveState(s, ms[0]), ms[1..])
  }

  /** Call `undo` `k` times. */
  function UndoTimes(s: SearchState, k: nat): (t: SearchState)
    requires k <= |s.history| && InRange(s.history, |s.assignment|)
    ensures |t.assignment| == |s.assignment| && |t.history| == |s.history| - k
    ensures InRange(t.history, |s.assignment|)
  {
    if k == 0 then s
    else
      var u := UndoTimes(s, k - 1);
      UndoStateEffect(u);
      UndoState(u)
  }

  /** Undoing as many moves as were applied returns to the starting state. */
  lemma {:induction false} UndoTimesAfterMoveAll(s: SearchState, ms: seq<Move>)
    requires InRange(ms, |s.assignment|) && InRange(s.history, |s.assignment|)
    ensures UndoTimes(MoveAll(s, ms), |ms|) == s
    decreases |ms|
  {
    if ms != [] {
      var s1 := MoveState(s, ms[0]);
      UndoAfterMove(s, ms[0]);
      var t := MoveAll(s1, ms[1..]);
      assert MoveAll(s, ms) == t;
      UndoTimesAfterMoveAll(s1, ms[1..]);
      assert UndoTimes(t, |ms| - 1) == s1;
      UndoTimesSplit(t, |ms| - 1);
      assert UndoTimes(t, |ms|) == UndoState(s1);
    }
  }

  /** One more `undo` after `k` of them is `k + 1` of them. */
  lemma UndoTimesSplit(s: SearchState, k: nat)
    requires k < |s.history| && InRange(s.history, |s.assignment|)
    ensures UndoTimes(s, k).history != []
    ensures UndoTimes(s, k + 1) == UndoState(UndoTimes(s, k))
  {
  }

  /**
   * The assignment reached by undoing every entry of the history, top
   * first: the state the search path started from.
   */
  function Rewind(a: Assignment, h: seq<Move>): (r: Assignment)
    requires InRange(h, |a|)
    ensures |r| == |a|
    decreases |h|
  {
    if h == [] then a else Rewind(Apply(a, h[|h| - 1]), h[..|h| - 1])
  }

  /** `move` keeps the path's starting state. */
  lemma RewindMove(s: SearchState, m: Move)
    requires 0 <= m.index < |s.assignment| && InRange(s.history, |s.assignment|)
    ensures InRange(MoveState(s, m).history, |s.assignment|)
    ensures Rewind(MoveState(s, m).assignment, MoveState(s, m).history) == Rewind(s.assignment, s.history)
  {
    var e := Move(m.index, s.assignment[m.index]);
    assert (s.history + [e])[..|s.history|] == s.history;
    assert Apply(Apply(s.assignment, m), e) == s.assignment;
  }

  /** `undo` keeps the path's starting state. */
  lemma RewindUndo(s: SearchState)
    requires s.history != [] && InRange(s.history, |s.assignment|)
    ensures InRange(UndoState(s).history, |s.assignment|)
    ensures Rewind(UndoState(s).assignment, UndoState(s).history) == Rewind(s.assignment, s.history)
  {
    UndoStateEffect(s);
  }

  /**
   * Every state on the current search path below the top (the state before
   * each recorded move, found by undoing the entries from the top down) has
   * its fingerprint in `closed`.
   */
  ghost predicate AncestorsClosed(a: Assignment, h: seq<Move>, closed: set<string>)
    requires InRange(h, |a|)
    decreases |h|
  {
    h == [] ||
    var below := Apply(a, h[|h| - 1]);
    Fingerprint(below) in closed && AncestorsClosed(below, h[..|h| - 1], closed)
  }

  /** Adding fingerprints to `closed` keeps the ancestors closed. */
  lemma {:induction false} AncestorsClosedGrow(a: Assignment, h: seq<Move>, closed: set<string>, more: set<string>)
    requires InRange(h, |a|) && AncestorsClosed(a, h, closed)
    ensures AncestorsClosed(a, h, closed + more)
    decreases |h|
  {
    if h != [] {
      AncestorsClosedGrow(Apply(a, h[|h| - 1]), h[..|h| - 1], closed, more);
    }
  }

  /** Closing the current state and then moving keeps every ancestor closed. */
  lemma AncestorsClosedAfterMove(a: Assignment, h: seq<Move>, closed: set<string>, m: Move)
    requires InRange(h, |a|) && AncestorsClosed(a, h, closed) && 0 <= m.index < |a|
    ensures InRange(h + [Move(m.index, a[m.index])], |a|)
    ensures AncestorsClosed(Apply(a, m), h + [Move(m.index, a[m.index])], closed + {Fingerprint(a)})
  {
    var e := Move(m.index, a[m.index]);
    assert (h + [e])[..|h|] == h;
    assert Apply(Apply(a, m), e) == a;
    AncestorsClosedGrow(a, h, closed, {Fingerprint(a)});
  }

  /** Undoing one step keeps every remaining ancestor closed. */
  lemma AncestorsClosedAfterUndo(a: Assignment, h: seq<Move>, closed: set<string>)
    requires InRange(h, |a|) && AncestorsClosed(a, h, closed) && h != []
    ensures var t := UndoState(SearchState(a, h));
      InRange(t.history, |a|) && AncestorsClosed(t.assignment, t.history, closed)
  {
    UndoStateEffect(SearchState(a, h));
  }

  // ---------------------------------------------------------------------
  // Candidate moves (`getMoves`)

  /** The moves offered for one variable with value `v`. */
  function MovesAt(i: int, v: Option<bool>): (ms: seq<Move>)
    ensures |ms| == if v.None? then 2 else 1
    ensures forall m :: m in ms ==> m.index == i && m.value.Some? && m.value != v
  {
    match v
    case Some(true) => [Move(i, Some(false))]
    case Some(false) => [Move(i, Some(true))]
    case None => [Move(i, Some(true)), Move(i, Some(false))]
  }

  /** `getMoves`: the moves of every variable, in index order. */
  function MovesFor(a: Assignment): (ms: seq<Move>)
    ensures InRange(ms, |a|)
  {
    if a == [] then [] else MovesFor(a[..|a| - 1]) + MovesAt(|a| - 1, a[|a| - 1])
  }

  function CountUnassigned(a: Assignment): nat
  {
    if a == [] then 0 else CountUnassigned(a[..|a| - 1]) + (if a[|a| - 1].None? then 1 else 0)
  }

  /** One move per assigned variable and two per unassigned one. */
  lemma {:induction false} MovesForLength(a: Assignment)
    ensures |MovesFor(a)| == |a| + CountUnassigned(a)
  {
    if a != [] {
      MovesForLength(a[..|a| - 1]);
    }
  }

  /**
   * The moves are exactly the changes of one variable to a value it does
   * not have: every move names a variable and assigns it a new value, and
   * every such change is offered.
   */
  lemma {:induction false} MovesForExact(a: Assignment)
    ensures forall m :: m in MovesFor(a) ==>
      0 <= m.index < |a| && m.value.Some? && m.value != a[m.index]
    ensures forall i, b :: 0 <= i < |a| && a[i] != Some(b) ==> Move(i, Some(b)) in MovesFor(a)
  {
    if a != [] {
      var init := a[..|a| - 1];
      MovesForExact(init);
      forall i, b | 0 <= i < |a| && a[i] != Some(b) ensures Move(i, Some(b)) in MovesFor(a) {
        if i < |init| {
          assert init[i] == a[i];
          assert Move(i, Some(b)) in MovesFor(init);
        } else {
          assert Move(i, Some(b)) in MovesAt(|a| - 1, a[|a| - 1]);
        }
      }
    }
  }

  /** Moves come in variable order; for one variable `true` comes before `false`. */
  lemma {:induction false} MovesForOrdered(a: Assignment)
    ensures forall p, q :: 0 <= p < q < |MovesFor(a)| ==>
      MovesFor(a)[p].index < MovesFor(a)[q].index ||
      (MovesFor(a)[p].index == MovesFor(a)[q].index &&
       MovesFor(a)[p].value == Some(true) && MovesFor(a)[q].value == Some(false))
  {
    if a != [] {
      var init := a[..|a| - 1];
      MovesForOrdered(init);
      MovesForExact(init);
      var ms := MovesFor(a);
      var pre := MovesFor(init);
      forall p, q | 0 <= p < q < |ms|
        ensures ms[p].index < ms[q].index ||
          (ms[p].index == ms[q].index && ms[p].value == Some(true) && ms[q].value == Some(false))
      {
        if q < |pre| {
          assert ms[p] == pre[p] && ms[q] == pre[q];
        } else if p < |pre| {
          assert ms[p] == pre[p] && pre[p] in pre;
        }
      }
    }
  }

  // ---------------------------------------------------------------------
  // The closed-set filter and the selection rule

  /** A move is kept when the state it leads to has not been closed. */
  predicate IsOpen(a: Assignment, closed: set<string>, m: Move)
    requires 0 <= m.index < |a|
  {
    Fingerprint(Apply(a, m)) !in closed
  }

  /** The `filter` of the search step, keeping the order of `ms`. */
  function OpenMoves(a: Assignment, closed: set<string>, ms: seq<Move>): (r: seq<Move>)
    requires InRange(ms, |a|)
    ensures InRange(r, |a|)
  {
    if ms == [] then []
    else OpenMoves(a, closed, ms[..|ms| - 1])
         + (if IsOpen(a, closed, ms[|ms| - 1]) then [ms[|ms| - 1]] else [])
  }

  /** The filter keeps exactly the moves of `ms` that lead to a state not in `closed`. */
  lemma {:induction false} OpenMovesIff(a: Assignment, closed: set<string>, ms: seq<Move>)
    requires InRange(ms, |a|)
    ensures |OpenMoves(a, closed, ms)| <= |ms|
    ensures InRange(OpenMoves(a, closed, ms), |a|)
    ensures forall m :: m in OpenMoves(a, closed, ms) <==> m in ms && IsOpen(a, closed, m)
  {
    if ms != [] {
      var init := ms[..|ms| - 1];
      OpenMovesIff(a, closed, init);
      assert ms == init + [ms[|ms| - 1]];
    }
  }

  /** The number of unsatisfied clauses after `m`: what the search minimises. */
  function Score(clauses: seq<Clause>, a: Assignment, m: Move): nat
    requires 0 <= m.index < |a|
  {
    CountUnsatisfied(Apply(a, m), clauses)
  }

  /**
   * `cands[k]` is what Kotlin's `minBy` returns: a move of least score,
   * and every move before it scores strictly more.
   */
  ghost predicate IsFirstMin(clauses: seq<Clause>, a: Assignment, cands: seq<Move>, k: int)
    requires InRange(cands, |a|)
  {
    0 <= k < |cands| &&
    (forall j :: 0 <= j < |cands| ==> Score(clauses, a, cands[k]) <= Score(clauses, a, cands[j])) &&
    (forall j :: 0 <= j < k ==> Score(clauses, a, cands[k]) < Score(clauses, a, cands[j]))
  }

  /** The selection is deterministic: at most one position is the first minimum. */
  lemma FirstMinUnique(clauses: seq<Clause>, a: Assignment, cands: seq<Move>, k1: int, k2: int)
    requires InRange(cands, |a|)
    requires IsFirstMin(clauses, a, cands, k1) && IsFirstMin(clauses, a, cands, k2)
    ensures k1 == k2
  {
    var s1, s2 := Score(clauses, a, cands[k1]), Score(clauses, a, cands[k2]);
  }

  /**
   * A move chosen from the open candidates leads to a state that is not in
   * `closed` even after the state being left has been added to it.
   */
  lemma ChosenMoveIsNew(a: Assignment, closed: set<string>, m: Move)
    requires m in OpenMoves(a, closed, MovesFor(a))
    ensures 0 <= m.index < |a|
    ensures Fingerprint(Apply(a, m)) !in closed + {Fingerprint(a)}
  {
    MovesForExact(a);
    OpenMovesIff(a, closed, MovesFor(a));
    if Fingerprint(Apply(a, m)) == Fingerprint(a) {
      FingerprintInjective(Apply(a, m), a);
      assert false;
    }
  }

  /** The clauses `x1` and `-x1`. */
  const Contradiction := [Clause([Literal(0, false)]), Clause([Literal(0, true)])]

  /** No assignment of one variable satisfies both `x1` and `-x1`. */
  lemma ContradictionUnsatisfiable()
    ensures forall a: Assignment :: |a| == 1 ==> !AllSatisfied(a, Contradiction)
  {
    forall a: Assignment | |a| == 1 ensures !AllSatisfied(a, Contradiction) {
      if a[0] == Some(true) {
        assert !LiteralTrue(a, Contradiction[1].literals[0]);
        assert !ClauseSatisfied(a, Contradiction[1]);
      } else {
        assert !LiteralTrue(a, Contradiction[0].literals[0]);
        assert !ClauseSatisfied(a, Contradiction[0]);
      }
    }
  }

  /** From `F` the only move leads to the closed `T`. */
  lemma NoOpenMoveFromF()
    ensures OpenMoves([Some(false)], {"U", "T"}, MovesFor([Some(false)])) == []
  {
    assert [Some(false)][..0] == [] && [Some(true)][..0] == [];
    assert MovesFor([Some(false)]) == [Move(0, Some(true))];
    assert Apply([Some(false)], Move(0, Some(true))) == [Some(true)];
    assert Fingerprint([Some(true)]) == "T";
    assert [Move(0, Some(true))][..0] == [];
  }

  /** From the closed `T` the only move leads to the open `F`. */
  lemma OneOpenMoveFromT()
    ensures OpenMoves([Some(true)], {"U", "T"}, MovesFor([Some(true)])) == [Move(0, Some(false))]
    ensures Fingerprint([Some(true)]) in {"U", "T"}
  {
    assert [Some(false)][..0] == [] && [Some(true)][..0] == [];
    assert MovesFor([Some(true)]) == [Move(0, Some(false))];
    assert Apply([Some(true)], Move(0, Some(false))) == [Some(false)];
    assert Fingerprint([Some(true)]) == "T" && Fingerprint([Some(false)]) == "F";
    assert [Move(0, Some(false))][..0] == [];
  }

  /**
   * The search can cycle. Take one variable and the clauses `x1` and `-x1`,
   * which no assignment satisfies, with `U` and `T` already closed (as after
   * the first two passes from the all-unset start). From `F` the only move,
   * back to `T`, is closed, so the pass undoes one step to `T`. From `T` the
   * only move, to `F`, is open and is chosen again, and closing `T` adds
   * nothing. The undo leads back to exactly the state the move left.
   */
  lemma BacktrackCycle(h: seq<Move>)
    requires InRange(h, 1)
    ensures forall a: Assignment :: |a| == 1 ==> !AllSatisfied(a, Contradiction)
    ensures OpenMoves([Some(false)], {"U", "T"}, MovesFor([Some(false)])) == []
    ensures OpenMoves([Some(true)], {"U", "T"}, MovesFor([Some(true)])) == [Move(0, Some(false))]
    ensures Fingerprint([Some(true)]) in {"U", "T"}
    ensures var left := MoveState(SearchState([Some(true)], h), Move(0, Some(false)));
      left.assignment == [Some(false)] && UndoState(left) == SearchState([Some(true)], h)
  {
    ContradictionUnsatisfiable();
    NoOpenMoveFromF();
    OneOpenMoveFromT();
    UndoAfterMove(SearchState([Some(true)], h), Move(0, Some(false)));
  }
}
