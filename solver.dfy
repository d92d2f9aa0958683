/**
 * The DPLL solver of dpll/solver.java: class `DPLL`, whose methods change
 * the trail stack and the `decisions` table in place. Each method is
 * proved to have the effect of the matching step in module Search, and
 * `Execute` is proved sound for a satisfiable answer.
 */
module Solver {
  import opened Cnf
  import opened Search
  import opened Dimacs

  /** The answer of `Execute`; `Unknown` when the step budget runs out. */
  datatype Verdict = Sat | Unsat | Unknown

  class DPLL {
    var trail: seq<Assignment>
    var decisions: Lookup
    var clauses: seq<seq<int>>
    var numberOfVariables: nat

    /** The search state as a value. */
    ghost function Snapshot(): State
      reads this
    {
      State(trail, decisions)
    }

    /**
     * The object invariant: every literal is non-zero and names a variable
     * 1..numberOfVariables, and so does every key of the table and every
     * trail entry.
     */
    ghost predicate Valid()
      reads this
    {
      WellFormed(clauses, numberOfVariables) && Bounded(Snapshot(), numberOfVariables)
    }

    constructor ()
      ensures Valid()
      ensures trail == [] && decisions == map[] && clauses == [] && numberOfVariables == 0
    {
      trail := [];
      decisions := map[];
      clauses := [];
      numberOfVariables := 0;
    }

    /**
     * The clause-building rule of `parse_dimacs` for one line of tokens:
     * keep the literals before the first 0, raise the variable count to
     * the largest magnitude seen, and store the clause unless it is empty.
     */
    method AddClauseLine(tokens: seq<int>)
      requires Valid()
      modifies this
      ensures Valid() && trail == old(trail) && decisions == old(decisions)
      ensures clauses == old(clauses) + LineClauses(Literals(tokens))
      ensures numberOfVariables == Max(old(numberOfVariables), Width(ClauseOf(tokens)))
    {
      var clause: seq<int> := [];
      var i := 0;
      while i < |tokens|
        invariant 0 <= i <= |tokens|
        invariant forall j :: 0 <= j < i ==> tokens[j] != 0
        invariant clause == tokens[..i]
        invariant numberOfVariables == Max(old(numberOfVariables), Width(clause))
        invariant clauses == old(clauses) && trail == old(trail) && decisions == old(decisions)
      {
        var lit := tokens[i];
        if lit == 0 {
          break;
        }
        assert tokens[..i + 1] == clause + [lit];
        WidthSnoc(clause, lit);
        clause := clause + [lit];
        if Var(lit) > numberOfVariables {
          numberOfVariables := Var(lit);
        }
        i := i + 1;
      }
      ClauseOfPrefix(tokens, i);
      if |clause| > 0 {
        clauses := clauses + [clause];
      }
      AppendWellFormed(old(clauses), clause, old(numberOfVariables), numberOfVariables);
      BoundedWider(Snapshot(), old(numberOfVariables), numberOfVariables);
    }

    /**
     * `parse_dimacs` over lines already split into integer tokens: comment
     * and problem lines are skipped, every other line goes through the
     * clause-building rule.
     */
    method ParseDimacs(lines: seq<Line>)
      requires Valid()
      modifies this
      ensures Valid() && trail == old(trail) && decisions == old(decisions)
      ensures clauses == old(clauses) + Stored(lines)
      ensures numberOfVariables == Max(old(numberOfVariables), Widest(Stored(lines)))
    {
      for i := 0 to |lines|
        invariant Valid() && trail == old(trail) && decisions == old(decisions)
        invariant clauses == old(clauses) + Stored(lines[..i])
        invariant numberOfVariables == Max(old(numberOfVariables), Widest(Stored(lines[..i])))
      {
        ParseStep(old(clauses), old(numberOfVariables), lines, i);
        if lines[i].Literals? {
          AddClauseLine(lines[i].tokens);
        }
      }
      assert lines[..|lines|] == lines;
    }

    /**
     * `execute`: clear the trail (the table is kept), propagate, then
     * alternate decide and propagate, backtracking on every conflict.
     * `fuel` bounds the number of decide and backtrack steps.
     *
     * A `Sat` answer is sound: every variable is assigned and every clause
     * has a true literal. On a fresh solver (empty table) an `Unsat`
     * answer either comes from a conflict of the very first propagation,
     * and then no assignment satisfies the formula, or from a backtrack
     * that ran out of decisions, which leaves trail and table empty.
     */
    method Execute(fuel: nat) returns (verdict: Verdict)
      requires Valid()
      modifies this
      ensures Valid() && clauses == old(clauses) && numberOfVariables == old(numberOfVariables)
      ensures verdict == Sat ==>
        Covers(decisions, numberOfVariables) && Satisfies(decisions, clauses)
      ensures verdict == Unsat && old(decisions) == map[] ==>
        Unsatisfiable(clauses) || (trail == [] && decisions == map[])
    {
      trail := [];
      ghost var start := Snapshot();
      var propagated := BooleanConstraintPropagation();
      if !propagated {
        if old(decisions) == map[] {
          SweepImplied(clauses, start, clauses);
          ConflictRefutes(clauses, decisions);
        }
        return Unsat;
      }
      if old(decisions) == map[] {
        SweepWitnessed(start, clauses);
      }
      var budget := fuel;
      while budget > 0
        invariant Valid() && clauses == old(clauses) && numberOfVariables == old(numberOfVariables)
        invariant !Conflict(clauses, decisions)
        invariant old(decisions) == map[] ==> Witnessed(Snapshot())
        decreases budget
      {
        budget := budget - 1;
        ghost var undecided := Snapshot();
        var decided := Decide();
        if !decided {
          NoConflictCoveredSatisfies(clauses, decisions, numberOfVariables);
          return Sat;
        }
        if old(decisions) == map[] {
          DecideWitnessed(undecided, numberOfVariables);
        }
        ghost var afterDecide := Snapshot();
        propagated := BooleanConstraintPropagation();
        if old(decisions) == map[] {
          SweepWitnessed(afterDecide, clauses);
        }
        while !propagated
          invariant Valid() && clauses == old(clauses) && numberOfVariables == old(numberOfVariables)
          invariant propagated ==> !Conflict(clauses, decisions)
          invariant old(decisions) == map[] ==> Witnessed(Snapshot())
          decreases budget
        {
          if budget == 0 {
            return Unknown;
          }
          budget := budget - 1;
          ghost var before := Snapshot();
          var resumed := Backtrack();
          if !resumed {
            if old(decisions) == map[] {
              BacktrackExhausted(before);
            }
            return Unsat;
          }
          if old(decisions) == map[] {
            BacktrackWitnessed(before);
          }
          ghost var flipped := Snapshot();
          propagated := BooleanConstraintPropagation();
          if old(decisions) == map[] {
            SweepWitnessed(flipped, clauses);
          }
        }
      }
      return Unknown;
    }

    /**
     * `backtrack`: pop flipped entries, removing each popped variable from
     * the table; at the first unflipped entry push its variable with the
     * opposite value, flipped, and succeed; fail once the trail is empty.
     */
    method Backtrack() returns (resumed: bool)
      requires Valid()
      modifies this
      ensures Valid() && clauses == old(clauses) && numberOfVariables == old(numberOfVariables)
      ensures (resumed, Snapshot()) == BacktrackStep(old(Snapshot()))
    {
      ghost var t0, d0 := trail, decisions;
      ghost var after := BacktrackStep(State(t0, d0));
      BacktrackBounded(State(t0, d0), numberOfVariables);
      while true
        invariant clauses == old(clauses) && numberOfVariables == old(numberOfVariables)
        invariant |trail| <= |t0| && trail == t0[..|trail|]
        invariant forall j :: |trail| <= j < |t0| ==> t0[j].flipped
        invariant decisions == d0 - Popped(t0, |trail|)
        decreases |trail|
      {
        if |trail| == 0 {
          assert LastUnflipped(t0) < 0;
          assert Snapshot() == after.1;
          return false;
        }
        var assignment := trail[|trail| - 1];
        PopOne(t0, d0, |trail| - 1);
        trail := trail[..|trail| - 1];
        decisions := decisions - {assignment.variable};
        if !assignment.flipped {
          assert LastUnflipped(t0) == |trail|;
          trail := trail + [Assignment(assignment.variable, !assignment.value, true)];
          decisions := decisions[assignment.variable := !assignment.value];
          assert Snapshot() == after.1;
          return true;
        }
      }
    }

    /**
     * `decide`: fail, changing nothing, when the table has
     * numberOfVariables entries; otherwise push `false` for the smallest
     * variable without an entry, as a decision still to be flipped.
     */
    method Decide() returns (decided: bool)
      requires Valid()
      modifies this
      ensures Valid() && clauses == old(clauses) && numberOfVariables == old(numberOfVariables)
      ensures (decided, Snapshot()) == DecideStep(old(Snapshot()), numberOfVariables)
      ensures !decided <==> Covers(old(decisions), numberOfVariables)
    {
      DecideEffect(Snapshot(), numberOfVariables);
      DecideBounded(Snapshot(), numberOfVariables);
      if |decisions| == numberOfVariables {
        return false;
      }
      var i := 1;
      while i <= numberOfVariables
        invariant 1 <= i <= numberOfVariables + 1
        invariant forall v :: 1 <= v < i ==> v in decisions
        invariant Snapshot() == old(Snapshot())
      {
        if i !in decisions {
          trail := trail + [Assignment(i, false, false)];
          decisions := decisions[i := false];
          break;
        }
        i := i + 1;
      }
      return true;
    }

    /**
     * `booleanContraintPropogation`: one sweep over the clauses in order —
     * a clause of length one is pushed as it stands, then the unit rule
     * runs on the clause — followed by the conflict check on the table the
     * sweep leaves. Succeeds exactly when there is no conflict.
     */
    method BooleanConstraintPropagation() returns (noConflict: bool)
      requires Valid()
      modifies this
      ensures Valid() && clauses == old(clauses) && numberOfVariables == old(numberOfVariables)
      ensures Snapshot() == Sweep(old(Snapshot()), clauses)
      ensures noConflict == !Conflict(clauses, decisions)
    {
      for i := 0 to |clauses|
        invariant clauses == old(clauses) && numberOfVariables == old(numberOfVariables)
        invariant Snapshot() == Sweep(old(Snapshot()), clauses[..i])
        invariant Valid()
      {
        var clause := clauses[i];
        assert ClauseOk(clause, numberOfVariables);
        assert clauses[..i + 1][..i] == clauses[..i];
        ghost var visited := Snapshot();
        if |clause| == 1 {
          trail := trail + [Assignment(Var(clause[0]), clause[0] > 0, true)];
          decisions := decisions[Var(clause[0]) := clause[0] > 0];
          PushBounded(visited, Forced(clause[0]), numberOfVariables);
        }
        CheckForUnitClauseAndAssign(clause);
      }
      assert clauses[..|clauses|] == clauses;
      var unsatisfied := IsUnsatisfiedClausePresent();
      noConflict := !unsatisfied;
    }

    /**
     * `checkForUnitClauseAndAssign`: scan the clause, stop at the first
     * true literal or at a second free literal; if the scan ends with one
     * free literal and every other literal false, push the value that
     * makes the free literal true, flipped.
     */
    method CheckForUnitClauseAndAssign(clause: seq<int>)
      requires Valid() && ClauseOk(clause, numberOfVariables)
      modifies this
      ensures Valid() && clauses == old(clauses) && numberOfVariables == old(numberOfVariables)
      ensures Snapshot() == UnitCheck(old(Snapshot()), clause)
    {
      UnitCheckBounded(Snapshot(), clause, numberOfVariables);
      var unassignedLiteral := 0;
      var falseLiteralsCount := 0;
      ghost var u := -1;
      for j := 0 to |clause|
        invariant -1 <= u < j
        invariant forall k :: 0 <= k < j ==> !IsTrue(clause[k], decisions)
        invariant u < 0 ==> unassignedLiteral == 0 && falseLiteralsCount == j
        invariant u < 0 ==> forall k :: 0 <= k < j ==> IsFalse(clause[k], decisions)
        invariant u >= 0 ==> unassignedLiteral == clause[u] && falseLiteralsCount == j - 1
        invariant u >= 0 ==> IsFree(clause[u], decisions)
        invariant u >= 0 ==> forall k :: 0 <= k < j && k != u ==> IsFalse(clause[k], decisions)
      {
        var literal := clause[j];
        var variable := Var(literal);
        if variable in decisions {
          var literalTrue := if literal < 0 then !decisions[variable] else decisions[variable];
          if literalTrue {
            NoUnitWithTrue(clause, decisions, j);
            return;
          } else {
            falseLiteralsCount := falseLiteralsCount + 1;
          }
        } else if variable !in decisions && unassignedLiteral != 0 {
          NoUnitWithTwoFree(clause, decisions, u, j);
          return;
        } else if variable !in decisions {
          unassignedLiteral := literal;
          u := j;
        }
      }
      if falseLiteralsCount == |clause| {
        assert forall k :: !IsUnitAt(clause, decisions, k);
        return;
      }
      UnitLiteralAt(clause, decisions, u);
      trail := trail + [Assignment(Var(unassignedLiteral), unassignedLiteral > 0, true)];
      decisions := decisions[Var(unassignedLiteral) := unassignedLiteral > 0];
    }

    /**
     * `isUnsatisfiedClausePresent`: count the clauses with a literal that
     * is free or true; report a conflict when that count falls short of
     * the number of clauses.
     */
    method IsUnsatisfiedClausePresent() returns (present: bool)
      requires Valid()
      ensures present == Conflict(clauses, decisions)
    {
      var fineClausesCount := 0;
      for i := 0 to |clauses|
        invariant fineClausesCount <= i
        invariant fineClausesCount == i <==> forall k :: 0 <= k < i ==> Open(clauses[k], decisions)
      {
        var clause := clauses[i];
        assert ClauseOk(clause, numberOfVariables);
        ghost var before := fineClausesCount;
        for j := 0 to |clause|
          invariant forall k :: 0 <= k < j ==> !IsFree(clause[k], decisions) && !IsTrue(clause[k], decisions)
          invariant fineClausesCount == before
        {
          var literal := clause[j];
          var variable := Var(literal);
          if variable !in decisions
             || (if variable in decisions && literal < 0 then !decisions[variable] else decisions[variable])
          {
            fineClausesCount := fineClausesCount + 1;
            break;
          }
        }
        assert fineClausesCount == before + 1 <==> Open(clause, decisions);
      }
      present := fineClausesCount != |clauses|;
    }
  }

  /** A true literal rules the unit rule out. */
  lemma NoUnitWithTrue(c: seq<int>, d: Lookup, j: int)
    requires 0 <= j < |c| && IsTrue(c[j], d)
    ensures forall k :: !IsUnitAt(c, d, k)
  {
    forall k | IsUnitAt(c, d, k)
      ensures j != k && !IsFalse(c[j], d)
    {
    }
  }

  /** Two free literals rule the unit rule out. */
  lemma NoUnitWithTwoFree(c: seq<int>, d: Lookup, u: int, j: int)
    requires 0 <= u < j < |c| && IsFree(c[u], d) && IsFree(c[j], d)
    ensures forall k :: !IsUnitAt(c, d, k)
  {
  }
}
