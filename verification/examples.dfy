/**
 Concrete solves: a case the repository's tests check, and the inputs behind
 the discrepancies between the code as written and its corrected form.
 */
module Examples {
  import opened Systems
  import opened Swaps
  import opened Pivoting
  import opened Elimination
  import opened Substitution
  import opened Solver

  /** [[1, 2], [3, 4]]·x = [5, 6] without pivoting (test/square-matrix-test.js
      lines 14-25): row 1 loses 3 times row 0, leaving -2·x1 = -9. */
  lemma SolvesTwoByTwo()
    ensures var r := Solve(Config(None, false), [[1.0, 2.0], [3.0, 4.0]], [5.0, 6.0]);
            r == Success(SolutionSystem([[1.0, 2.0], [0.0, -2.0]], [-4.0, 4.5], false))
  {
    TwoByTwoForward();
    TwoByTwoBack();
    assert Replay([-4.0, 4.5], []) == [-4.0, 4.5];
  }

  /** The forward pass of SolvesTwoByTwo. */
  lemma TwoByTwoForward()
    ensures ForwardElimination(Config(None, false), [[1.0, 2.0], [3.0, 4.0]], [5.0, 6.0], false)
         == Success(System([[1.0, 2.0], [0.0, -2.0]], [5.0, -9.0], []))
  {
    var cfg := Config(None, false);
    var a, b := [[1.0, 2.0], [3.0, 4.0]], [5.0, 6.0];
    var s0 := System(a, b, []);
    var s1 := System([[1.0, 2.0], [0.0, -2.0]], [5.0, -9.0], []);
    assert ReduceRow(a[1], a[0], 0, 3.0, false) == [0.0, -2.0];
    assert EliminateColumn(s0, 0, false) == s1;
    assert Pivot(None, s0, 0) == Success(s0);
    assert Step(cfg, s0, 0) == Success(s1);
    assert EliminateFrom(cfg, s1, 1, 2) == Success(s1);
    assert EliminateFrom(cfg, s0, 0, 2) == Iteration(cfg, s0, 0, 2);
    assert EliminationSteps(cfg, a, b) == Success(s1);
    assert ReorderFrom(s1, 1, 1, 1, false) == (s1, 1);
  }

  /** The back substitution of SolvesTwoByTwo. */
  lemma TwoByTwoBack()
    ensures BackSubstitution([[1.0, 2.0], [0.0, -2.0]], [5.0, -9.0], true)
         == Success(SolutionSystem([[1.0, 2.0], [0.0, -2.0]], [-4.0, 4.5], false))
  {
    var a, b := [[1.0, 2.0], [0.0, -2.0]], [5.0, -9.0];
    var x1 := [5.0, 4.5];
    assert DotFrom(a[1], b, 2) == 0.0;
    assert SubstituteRow(a, b, 1, true) == Success((4.5, false));
    assert b[1 := 4.5] == x1;
    assert DotFrom(a[0], x1, 1) == 9.0;
    assert SubstituteRow(a, x1, 0, true) == Success((-4.0, false));
    assert x1[0 := -4.0] == [-4.0, 4.5];
    assert SubstituteFrom(a, b, 2, false, true) == SubstituteFrom(a, x1, 1, false, true);
    assert SubstituteFrom(a, x1, 1, false, true) == SubstituteFrom(a, [-4.0, 4.5], 0, false, true);
    assert CheckRemainingRows(a, [-4.0, 4.5], 4.5, 2) == Success(());
    assert [-4.0, 4.5][..2] == [-4.0, 4.5];
  }

  // ---------------------------------------------------------------------------
  // LU capture

  /** [[4, 3], [2, 1]]·x = [6, 5] without pivoting and with LU capture
      (test/lu-test.js lines 14-28): row 1 loses 0.5 times row 0, and the
      cleared slot below the pivot keeps the multiplier 0.5. */
  lemma LuKeepsMultiplier()
    ensures ForwardElimination(Config(None, true), [[4.0, 3.0], [2.0, 1.0]], [6.0, 5.0], false)
         == Success(System([[4.0, 3.0], [0.5, -0.5]], [6.0, 2.0], []))
  {
    var cfg := Config(None, true);
    var a, b := [[4.0, 3.0], [2.0, 1.0]], [6.0, 5.0];
    var s0 := System(a, b, []);
    var s1 := System([[4.0, 3.0], [0.5, -0.5]], [6.0, 2.0], []);
    assert ReduceRow(a[1], a[0], 0, 0.5, true) == [0.5, -0.5];
    assert EliminateColumn(s0, 0, true) == s1;
    assert Pivot(None, s0, 0) == Success(s0);
    assert Step(cfg, s0, 0) == Success(s1);
    assert EliminateFrom(cfg, s1, 1, 2) == Success(s1);
    assert EliminateFrom(cfg, s0, 0, 2) == Iteration(cfg, s0, 0, 2);
    assert EliminationSteps(cfg, a, b) == Success(s1);
    assert ReorderFrom(s1, 1, 1, 1, false) == (s1, 1);
  }

  /** [[1, 2], [3, 4], [6, 8]]·x = [5, 6, 12] without pivoting and with LU
      capture (test/lu-test.js lines 34-49): the multipliers 3 and 6 stay in
      column 0, the extra row 2 agrees with x1 = 4.5, and the solution is
      [-4, 4.5]. */
  lemma LuSolvesThreeByTwo()
    ensures Solve(Config(None, true), [[1.0, 2.0], [3.0, 4.0], [6.0, 8.0]], [5.0, 6.0, 12.0])
         == Success(SolutionSystem([[1.0, 2.0], [3.0, -2.0], [6.0, -4.0]], [-4.0, 4.5], false))
  {
    LuThreeByTwoForward();
    LuThreeByTwoBack();
    assert Replay([-4.0, 4.5], []) == [-4.0, 4.5];
  }

  /** The forward pass of LuSolvesThreeByTwo. */
  lemma LuThreeByTwoForward()
    ensures ForwardElimination(Config(None, true), [[1.0, 2.0], [3.0, 4.0], [6.0, 8.0]], [5.0, 6.0, 12.0], false)
         == Success(System([[1.0, 2.0], [3.0, -2.0], [6.0, -4.0]], [5.0, -9.0, -18.0], []))
  {
    var cfg := Config(None, true);
    var a, b := [[1.0, 2.0], [3.0, 4.0], [6.0, 8.0]], [5.0, 6.0, 12.0];
    var s0 := System(a, b, []);
    var s1 := System([[1.0, 2.0], [3.0, -2.0], [6.0, -4.0]], [5.0, -9.0, -18.0], []);
    assert ReduceRow(a[1], a[0], 0, 3.0, true) == [3.0, -2.0];
    assert ReduceRow(a[2], a[0], 0, 6.0, true) == [6.0, -4.0];
    assert EliminateColumn(s0, 0, true) == s1;
    assert Pivot(None, s0, 0) == Success(s0);
    assert Step(cfg, s0, 0) == Success(s1);
    assert EliminateFrom(cfg, s1, 1, 2) == Success(s1);
    assert EliminateFrom(cfg, s0, 0, 2) == Iteration(cfg, s0, 0, 2);
    assert EliminationSteps(cfg, a, b) == Success(s1);
    assert ReorderFrom(s1, 1, 2, 2, false) == (s1, 2);
    assert ReorderFrom(s1, 1, 1, 2, false) == (s1, 2);
  }

  /** The back substitution of LuSolvesThreeByTwo: x1 = -9 / -2, x0 = 5 - 2·4.5,
      and row 2 gives -18 / -4 = 4.5 as well. */
  lemma LuThreeByTwoBack()
    ensures BackSubstitution([[1.0, 2.0], [3.0, -2.0], [6.0, -4.0]], [5.0, -9.0, -18.0], true)
         == Success(SolutionSystem([[1.0, 2.0], [3.0, -2.0], [6.0, -4.0]], [-4.0, 4.5], false))
  {
    var a, b := [[1.0, 2.0], [3.0, -2.0], [6.0, -4.0]], [5.0, -9.0, -18.0];
    var x1, x0 := [5.0, 4.5, -18.0], [-4.0, 4.5, -18.0];
    assert DotFrom(a[1], b, 2) == 0.0;
    assert SubstituteRow(a, b, 1, true) == Success((4.5, false));
    assert b[1 := 4.5] == x1;
    assert DotFrom(a[0], x1, 1) == 9.0;
    assert SubstituteRow(a, x1, 0, true) == Success((-4.0, false));
    assert x1[0 := -4.0] == x0;
    assert SubstituteFrom(a, b, 2, false, true) == SubstituteFrom(a, x1, 1, false, true);
    assert SubstituteFrom(a, x1, 1, false, true) == SubstituteFrom(a, x0, 0, false, true);
    assert SameQuotient(-18.0, -4.0, 4.5);
    assert CheckRemainingRows(a, x0, 4.5, 3) == Success(());
    assert CheckRemainingRows(a, x0, 4.5, 2) == Success(());
    assert x0[..2] == [-4.0, 4.5];
  }

  /** [[1, 2, 0], [0, 0, 1], [0, 0, 2]]·x = [1, 1, 2] with the default
      partial pivoting. Row 1 becomes 0·x1 = 0 once x2 = 1 is known, so x1 is
      free; but the flag is raised only where the right-hand side entry itself
      is zero (the zero-diagonal test of _backSubstitution), and 1 is not, so the solve reports the single
      solution [1, 0, 1]. */
  lemma DependentUnknownNotFlagged()
    ensures Solve(Config(Partial, false), [[1.0, 2.0, 0.0], [0.0, 0.0, 1.0], [0.0, 0.0, 2.0]], [1.0, 1.0, 2.0])
         == Success(SolutionSystem([[1.0, 2.0, 0.0], [0.0, 0.0, 1.0], [0.0, 0.0, 2.0]], [1.0, 0.0, 1.0], false))
  {
    DependentForward();
    DependentBack();
    assert Replay([1.0, 0.0, 1.0], []) == [1.0, 0.0, 1.0];
  }

  /** Partial pivoting keeps row 0 for column 0, whose multipliers are zero,
      and column 1 is zero from row 1 down, so it is passed over. */
  lemma DependentForward()
    ensures var a, b := [[1.0, 2.0, 0.0], [0.0, 0.0, 1.0], [0.0, 0.0, 2.0]], [1.0, 1.0, 2.0];
            ForwardElimination(Config(Partial, false), a, b, false) == Success(System(a, b, []))
  {
    var cfg, a, b := Config(Partial, false), [[1.0, 2.0, 0.0], [0.0, 0.0, 1.0], [0.0, 0.0, 2.0]], [1.0, 1.0, 2.0];
    var s0 := System(a, b, []);
    DependentColumnZero();
    DependentColumnOne();
    assert EliminateFrom(cfg, s0, 2, 3) == Success(s0);
    assert EliminateFrom(cfg, s0, 1, 3) == Iteration(cfg, s0, 1, 3);
    assert EliminateFrom(cfg, s0, 0, 3) == Iteration(cfg, s0, 0, 3);
    assert ReorderFrom(s0, 2, 2, 2, false) == (s0, 2);
  }

  /** Step 0 of DependentForward: row 0 stays, and rows 1 and 2 lose zero
      times it. */
  lemma DependentColumnZero()
    ensures var a, b := [[1.0, 2.0, 0.0], [0.0, 0.0, 1.0], [0.0, 0.0, 2.0]], [1.0, 1.0, 2.0];
            Step(Config(Partial, false), System(a, b, []), 0) == Success(System(a, b, []))
  {
    var a, b := [[1.0, 2.0, 0.0], [0.0, 0.0, 1.0], [0.0, 0.0, 2.0]], [1.0, 1.0, 2.0];
    var s0 := System(a, b, []);
    assert ColumnMaxIndex(a, 0) == 0;
    assert PartialPivot(s0, 0) == s0;
    forall i | 0 < i < 3
      ensures ReduceRow(a[i], a[0], 0, a[i][0] / a[0][0], false) == a[i]
    {
    }
    assert EliminateColumn(s0, 0, false) == s0;
  }

  /** Step 1 of DependentForward: column 1 is zero from row 1 down. */
  lemma DependentColumnOne()
    ensures var a, b := [[1.0, 2.0, 0.0], [0.0, 0.0, 1.0], [0.0, 0.0, 2.0]], [1.0, 1.0, 2.0];
            Step(Config(Partial, false), System(a, b, []), 1) == Success(System(a, b, []))
  {
    var a, b := [[1.0, 2.0, 0.0], [0.0, 0.0, 1.0], [0.0, 0.0, 2.0]], [1.0, 1.0, 2.0];
    var s0 := System(a, b, []);
    assert ColumnMaxIndex(a, 1) == 1;
    assert PartialPivot(s0, 1) == s0;
  }

  /** x2 = 1; row 1 then reads 0·x1 = 0 and x1 is set to 0; x0 = 1. */
  lemma DependentBack()
    ensures var a := [[1.0, 2.0, 0.0], [0.0, 0.0, 1.0], [0.0, 0.0, 2.0]];
            BackSubstitution(a, [1.0, 1.0, 2.0], true) == Success(SolutionSystem(a, [1.0, 0.0, 1.0], false))
  {
    var a, x1 := [[1.0, 2.0, 0.0], [0.0, 0.0, 1.0], [0.0, 0.0, 2.0]], [1.0, 0.0, 1.0];
    DependentRows();
    assert CheckRemainingRows(a, x1, 1.0, 3) == Success(());
    assert x1[..3] == x1;
  }

  /** The loop of DependentBack, row by row. */
  lemma DependentRows()
    ensures var a := [[1.0, 2.0, 0.0], [0.0, 0.0, 1.0], [0.0, 0.0, 2.0]];
            SubstituteFrom(a, [1.0, 1.0, 2.0], 3, false, true) == Success(([1.0, 0.0, 1.0], false))
  {
    var a, b := [[1.0, 2.0, 0.0], [0.0, 0.0, 1.0], [0.0, 0.0, 2.0]], [1.0, 1.0, 2.0];
    var x2, x1 := [1.0, 1.0, 1.0], [1.0, 0.0, 1.0];
    assert DotFrom(a[2], b, 3) == 0.0;
    assert SubstituteRow(a, b, 2, true) == Success((1.0, false));
    assert b[2 := 1.0] == x2;
    assert DotFrom(a[1], x2, 2) == 1.0;
    assert SubstituteRow(a, x2, 1, true) == Success((0.0, false));
    assert x2[1 := 0.0] == x1;
    assert DotFrom(a[0], x1, 1) == 0.0;
    assert SubstituteRow(a, x1, 0, true) == Success((1.0, false));
    assert x1[0 := 1.0] == x1;
    assert SubstituteFrom(a, b, 3, false, true) == SubstituteFrom(a, x2, 2, false, true);
    assert SubstituteFrom(a, x2, 2, false, true) == SubstituteFrom(a, x1, 1, false, true);
    assert SubstituteFrom(a, x1, 1, false, true) == SubstituteFrom(a, x1, 0, false, true);
  }

  // ---------------------------------------------------------------------------
  // reorderRows does not re-test the row it swaps in

  /** [[1, 0], [0, 0], [0, 1], [0, 0]]·x = [1, 0, 2, 0] is solved by x = [1, 2].
      Without pivoting, elimination changes nothing; reorderRows swaps the
      zero row 1 with the zero row 3 and moves on, so the row asking for
      x1 = 2 stays among the extra rows, where it contradicts x1 = 0 taken
      from the free row 1. Re-testing the swapped-in row finds the solution. */
  lemma ReorderRowsRejectsSolvableSystem()
    ensures var cfg, a, b := Config(None, false), [[1.0, 0.0], [0.0, 0.0], [0.0, 1.0], [0.0, 0.0]], [1.0, 0.0, 2.0, 0.0];
            && Solves(a, b, [1.0, 2.0])
            && Solve(cfg, a, b) == Failure(InconsistentRow(2))
            && SolveCorrected(cfg, a, b) == Success(SolutionSystem([[1.0, 0.0], [0.0, 1.0], [0.0, 0.0], [0.0, 0.0]], [1.0, 2.0], false))
  {
    var a, b := [[1.0, 0.0], [0.0, 0.0], [0.0, 1.0], [0.0, 0.0]], [1.0, 0.0, 2.0, 0.0];
    var y := [1.0, 2.0];
    SolvesEveryRow(a, b, y);
    assert Dot(a[0], y) == 1.0 && Dot(a[1], y) == 0.0 && Dot(a[2], y) == 2.0 && Dot(a[3], y) == 0.0;
    FourByTwoSteps();
    FourByTwoReorder();
    FourByTwoBackAsWritten();
    FourByTwoBackCorrected();
    assert Replay([1.0, 2.0], []) == [1.0, 2.0];
  }

  /** Elimination below the pivot 1 of column 0 subtracts zero rows. */
  lemma FourByTwoSteps()
    ensures var cfg, a, b := Config(None, false), [[1.0, 0.0], [0.0, 0.0], [0.0, 1.0], [0.0, 0.0]], [1.0, 0.0, 2.0, 0.0];
            EliminationSteps(cfg, a, b) == Success(System(a, b, []))
  {
    var cfg, a, b := Config(None, false), [[1.0, 0.0], [0.0, 0.0], [0.0, 1.0], [0.0, 0.0]], [1.0, 0.0, 2.0, 0.0];
    var s0 := System(a, b, []);
    forall i | 0 < i < 4
      ensures ReduceRow(a[i], a[0], 0, a[i][0] / a[0][0], false) == a[i]
    {
    }
    assert EliminateColumn(s0, 0, false) == s0;
    assert Step(cfg, s0, 0) == Success(s0);
    assert EliminateFrom(cfg, s0, 1, 2) == Success(s0);
    assert EliminateFrom(cfg, s0, 0, 2) == Iteration(cfg, s0, 0, 2);
  }

  /** reorderRows as written leaves the system as it is; the re-testing
      reorder brings row 2 up to row 1. */
  lemma FourByTwoReorder()
    ensures var a, b := [[1.0, 0.0], [0.0, 0.0], [0.0, 1.0], [0.0, 0.0]], [1.0, 0.0, 2.0, 0.0];
            && ReorderRows(System(a, b, []), 2, false) == System(a, b, [])
            && ReorderRows(System(a, b, []), 2, true)
               == System([[1.0, 0.0], [0.0, 1.0], [0.0, 0.0], [0.0, 0.0]], [1.0, 2.0, 0.0, 0.0], [])
  {
    var a, b := [[1.0, 0.0], [0.0, 0.0], [0.0, 1.0], [0.0, 0.0]], [1.0, 0.0, 2.0, 0.0];
    var s0 := System(a, b, []);
    var s2 := System([[1.0, 0.0], [0.0, 1.0], [0.0, 0.0], [0.0, 0.0]], [1.0, 2.0, 0.0, 0.0], []);
    assert SwapRows(s0, 1, 3) == s0;
    assert ReorderFrom(s0, 1, 1, 3, false) == ReorderFrom(s0, 1, 2, 2, false);
    assert ReorderFrom(s0, 1, 1, 3, true) == ReorderFrom(s0, 1, 1, 2, true);
    assert SwapRows(s0, 1, 2) == s2;
    assert ReorderFrom(s0, 1, 1, 2, true) == ReorderFrom(s2, 1, 1, 1, true);
  }

  /** Back substitution with the shortcut takes x1 = 0 from the zero row 1,
      then meets row 2, which gives x1 = 2. */
  lemma FourByTwoBackAsWritten()
    ensures BackSubstitution([[1.0, 0.0], [0.0, 0.0], [0.0, 1.0], [0.0, 0.0]], [1.0, 0.0, 2.0, 0.0], true)
         == Failure(InconsistentRow(2))
  {
    var a, b := [[1.0, 0.0], [0.0, 0.0], [0.0, 1.0], [0.0, 0.0]], [1.0, 0.0, 2.0, 0.0];
    assert SubstituteRow(a, b, 1, true) == Success((0.0, true));
    assert b[1 := 0.0] == b;
    assert DotFrom(a[0], b, 1) == 0.0;
    assert SubstituteRow(a, b, 0, true) == Success((1.0, false));
    assert b[0 := 1.0] == b;
    assert SubstituteFrom(a, b, 2, false, true) == SubstituteFrom(a, b, 1, true, true);
    assert SubstituteFrom(a, b, 1, true, true) == SubstituteFrom(a, b, 0, true, true);
    assert !SameQuotient(2.0, 1.0, 0.0);
    assert CheckRemainingRows(a, b, 0.0, 2) == Failure(InconsistentRow(2));
  }

  /** Back substitution on the corrected order: x1 = 2, x0 = 1, and the
      extra rows are zero. */
  lemma FourByTwoBackCorrected()
    ensures BackSubstitution([[1.0, 0.0], [0.0, 1.0], [0.0, 0.0], [0.0, 0.0]], [1.0, 2.0, 0.0, 0.0], false)
         == Success(SolutionSystem([[1.0, 0.0], [0.0, 1.0], [0.0, 0.0], [0.0, 0.0]], [1.0, 2.0], false))
  {
    var a, b := [[1.0, 0.0], [0.0, 1.0], [0.0, 0.0], [0.0, 0.0]], [1.0, 2.0, 0.0, 0.0];
    assert DotFrom(a[1], b, 2) == 0.0;
    assert SubstituteRow(a, b, 1, false) == Success((2.0, false));
    assert b[1 := 2.0] == b;
    assert DotFrom(a[0], b, 1) == 0.0;
    assert SubstituteRow(a, b, 0, false) == Success((1.0, false));
    assert b[0 := 1.0] == b;
    assert SubstituteFrom(a, b, 2, false, false) == SubstituteFrom(a, b, 1, false, false);
    assert SubstituteFrom(a, b, 1, false, false) == SubstituteFrom(a, b, 0, false, false);
    assert CheckRemainingRows(a, b, 2.0, 3) == Success(());
    assert CheckRemainingRows(a, b, 2.0, 2) == Success(());
    assert b[..2] == [1.0, 2.0];
  }

  // ---------------------------------------------------------------------------
  // The back-substitution shortcut

  /** [[0, 1], [0, 1]]·x = [0, 1] has no solution: its rows ask for x1 = 0
      and x1 = 1. With the avoid-zero strategy column 0 is zero, so nothing
      is eliminated, and the shortcut passes over row 0: the solve as written
      reports [0, 1] with infinitely many solutions. The corrected solve
      reports the contradiction. */
  lemma ShortcutReportsUnsolvableSystem()
    ensures var cfg, a, b := Config(AvoidZero, false), [[0.0, 1.0], [0.0, 1.0]], [0.0, 1.0];
            && (forall x :: !Solves(a, b, x))
            && Solve(cfg, a, b) == Success(SolutionSystem(a, [0.0, 1.0], true))
            && SolveCorrected(cfg, a, b) == Failure(ZeroTimesNonZero(0))
  {
    TwoEqualRowsUnsolvable();
    ShortcutForward();
    ShortcutAcceptsInconsistentRow();
    assert Replay([0.0, 1.0], []) == [0.0, 1.0];
  }

  /** No x meets both x1 = 0 and x1 = 1. */
  lemma TwoEqualRowsUnsolvable()
    ensures forall x :: !Solves([[0.0, 1.0], [0.0, 1.0]], [0.0, 1.0], x)
  {
    var a, b := [[0.0, 1.0], [0.0, 1.0]], [0.0, 1.0];
    forall x
      ensures !Solves(a, b, x)
    {
      SolvesEveryRow(a, b, x);
      if |x| == 2 {
        assert Dot(a[0], x) == x[1] && Dot(a[1], x) == x[1];
      }
    }
  }

  /** Column 0 is zero: the avoid-zero pivot swaps row 0 with itself, the
      column is passed over and neither reorder moves a row. */
  lemma ShortcutForward()
    ensures var a, b := [[0.0, 1.0], [0.0, 1.0]], [0.0, 1.0];
            && ForwardElimination(Config(AvoidZero, false), a, b, false) == Success(System(a, b, []))
            && ForwardElimination(Config(AvoidZero, false), a, b, true) == Success(System(a, b, []))
  {
    var cfg, a, b := Config(AvoidZero, false), [[0.0, 1.0], [0.0, 1.0]], [0.0, 1.0];
    var s0 := System(a, b, []);
    assert ColumnMaxIndex(a, 0) == 0;
    assert PartialPivot(s0, 0) == s0;
    assert Step(cfg, s0, 0) == Success(s0);
    assert EliminateFrom(cfg, s0, 1, 2) == Success(s0);
    assert EliminateFrom(cfg, s0, 0, 2) == Iteration(cfg, s0, 0, 2);
    assert ReorderFrom(s0, 1, 1, 1, false) == (s0, 1);
    assert ReorderFrom(s0, 1, 1, 1, true) == (s0, 1);
  }

  // ---------------------------------------------------------------------------
  // The single-pass replay of the column order

  /** [[0, 8, 0, 0], [0, 0, 4, 0], [0, 0, 0, 2], [1, 0, 0, 0]]·x = [16, 12, 8, 1]
      has the one solution [1, 2, 3, 4]. Complete pivoting exchanges columns
      0 and 1, then 1 and 2, then 2 and 3, leaving a diagonal matrix and the
      transformation vector [1, 2, 3, 0]; the replay as written turns
      [2, 3, 4, 1] into [3, 2, 1, 4], which does not solve the system, while
      RestoreOrder recovers [1, 2, 3, 4]. */
  lemma ReplayScramblesSolution()
    ensures var cfg, a, b := Config(Complete, false), [[0.0, 8.0, 0.0, 0.0], [0.0, 0.0, 4.0, 0.0], [0.0, 0.0, 0.0, 2.0], [1.0, 0.0, 0.0, 0.0]], [16.0, 12.0, 8.0, 1.0];
            var d := [[8.0, 0.0, 0.0, 0.0], [0.0, 4.0, 0.0, 0.0], [0.0, 0.0, 2.0, 0.0], [0.0, 0.0, 0.0, 1.0]];
            && Solves(a, b, [1.0, 2.0, 3.0, 4.0])
            && Solve(cfg, a, b) == Success(SolutionSystem(d, [3.0, 2.0, 1.0, 4.0], false))
            && !Solves(a, b, [3.0, 2.0, 1.0, 4.0])
            && SolveCorrected(cfg, a, b) == Success(SolutionSystem(d, [1.0, 2.0, 3.0, 4.0], false))
  {
    var a, b := [[0.0, 8.0, 0.0, 0.0], [0.0, 0.0, 4.0, 0.0], [0.0, 0.0, 0.0, 2.0], [1.0, 0.0, 0.0, 0.0]], [16.0, 12.0, 8.0, 1.0];
    var d := [[8.0, 0.0, 0.0, 0.0], [0.0, 4.0, 0.0, 0.0], [0.0, 0.0, 2.0, 0.0], [0.0, 0.0, 0.0, 1.0]];
    var tv := [1, 2, 3, 0];
    CycleRestore();
    CycleSolves();
    CycleForward();
    CycleBack();
    CycleReplay();
  }

  /** The corrected replay puts entry t of [2, 3, 4, 1] at position tv[t]. */
  lemma CycleRestore()
    ensures IsPermutation([1, 2, 3, 0]) && RestoreOrder([2.0, 3.0, 4.0, 1.0], [1, 2, 3, 0]) == [1.0, 2.0, 3.0, 4.0]
  {
    var tv := [1, 2, 3, 0];
    assert IsPermutation(tv);
    var x := RestoreOrder([2.0, 3.0, 4.0, 1.0], tv);
    assert Permute(x, tv) == [2.0, 3.0, 4.0, 1.0];
    assert x[1] == 2.0 && x[2] == 3.0 && x[3] == 4.0 && x[0] == 1.0;
  }

  /** [1, 2, 3, 4] solves the system, [3, 2, 1, 4] does not. */
  lemma CycleSolves()
    ensures var a, b := [[0.0, 8.0, 0.0, 0.0], [0.0, 0.0, 4.0, 0.0], [0.0, 0.0, 0.0, 2.0], [1.0, 0.0, 0.0, 0.0]], [16.0, 12.0, 8.0, 1.0];
            Solves(a, b, [1.0, 2.0, 3.0, 4.0]) && !Solves(a, b, [3.0, 2.0, 1.0, 4.0])
  {
    var a, b := [[0.0, 8.0, 0.0, 0.0], [0.0, 0.0, 4.0, 0.0], [0.0, 0.0, 0.0, 2.0], [1.0, 0.0, 0.0, 0.0]], [16.0, 12.0, 8.0, 1.0];
    var x, y := [1.0, 2.0, 3.0, 4.0], [3.0, 2.0, 1.0, 4.0];
    SolvesEveryRow(a, b, x);
    SolvesEveryRow(a, b, y);
    assert Dot(a[0], x) == 16.0 && Dot(a[1], x) == 12.0 && Dot(a[2], x) == 8.0 && Dot(a[3], x) == 1.0;
    assert Dot(a[0], y) == 16.0 && Dot(a[1], y) == 4.0;
  }

  /** The forward pass: three complete-pivoting steps, then a reorder that
      moves nothing. */
  lemma CycleForward()
    ensures var a, b := [[0.0, 8.0, 0.0, 0.0], [0.0, 0.0, 4.0, 0.0], [0.0, 0.0, 0.0, 2.0], [1.0, 0.0, 0.0, 0.0]], [16.0, 12.0, 8.0, 1.0];
            var d := [[8.0, 0.0, 0.0, 0.0], [0.0, 4.0, 0.0, 0.0], [0.0, 0.0, 2.0, 0.0], [0.0, 0.0, 0.0, 1.0]];
            && ForwardElimination(Config(Complete, false), a, b, false) == Success(System(d, b, [1, 2, 3, 0]))
            && ForwardElimination(Config(Complete, false), a, b, true) == Success(System(d, b, [1, 2, 3, 0]))
  {
    var b := [16.0, 12.0, 8.0, 1.0];
    var s3 := System([[8.0, 0.0, 0.0, 0.0], [0.0, 4.0, 0.0, 0.0], [0.0, 0.0, 2.0, 0.0], [0.0, 0.0, 0.0, 1.0]], b, [1, 2, 3, 0]);
    assert ReorderFrom(s3, 3, 3, 3, false) == (s3, 3);
    assert ReorderFrom(s3, 3, 3, 3, true) == (s3, 3);
    CycleSteps();
  }

  /** The three complete-pivoting steps, each followed by an elimination
      whose multipliers are all zero. */
  lemma CycleSteps()
    ensures var a, b := [[0.0, 8.0, 0.0, 0.0], [0.0, 0.0, 4.0, 0.0], [0.0, 0.0, 0.0, 2.0], [1.0, 0.0, 0.0, 0.0]], [16.0, 12.0, 8.0, 1.0];
            var d := [[8.0, 0.0, 0.0, 0.0], [0.0, 4.0, 0.0, 0.0], [0.0, 0.0, 2.0, 0.0], [0.0, 0.0, 0.0, 1.0]];
            EliminationSteps(Config(Complete, false), a, b) == Success(System(d, b, [1, 2, 3, 0]))
  {
    var cfg, b := Config(Complete, false), [16.0, 12.0, 8.0, 1.0];
    var s0 := System([[0.0, 8.0, 0.0, 0.0], [0.0, 0.0, 4.0, 0.0], [0.0, 0.0, 0.0, 2.0], [1.0, 0.0, 0.0, 0.0]], b, [0, 1, 2, 3]);
    var s1 := System([[8.0, 0.0, 0.0, 0.0], [0.0, 0.0, 4.0, 0.0], [0.0, 0.0, 0.0, 2.0], [0.0, 1.0, 0.0, 0.0]], b, [1, 0, 2, 3]);
    var s2 := System([[8.0, 0.0, 0.0, 0.0], [0.0, 4.0, 0.0, 0.0], [0.0, 0.0, 0.0, 2.0], [0.0, 0.0, 1.0, 0.0]], b, [1, 2, 0, 3]);
    var s3 := System([[8.0, 0.0, 0.0, 0.0], [0.0, 4.0, 0.0, 0.0], [0.0, 0.0, 2.0, 0.0], [0.0, 0.0, 0.0, 1.0]], b, [1, 2, 3, 0]);
    assert Identity(4) == [0, 1, 2, 3];
    assert EliminateFrom(cfg, s3, 3, 4) == Success(s3);
    CycleChainZero();
    CycleChainOne();
    CycleChainTwo();
  }

  /** Step 0 of CycleSteps inside the k loop. */
  lemma CycleChainZero()
    ensures var cfg, b := Config(Complete, false), [16.0, 12.0, 8.0, 1.0];
            EliminateFrom(cfg, System([[0.0, 8.0, 0.0, 0.0], [0.0, 0.0, 4.0, 0.0], [0.0, 0.0, 0.0, 2.0], [1.0, 0.0, 0.0, 0.0]], b, [0, 1, 2, 3]), 0, 4)
            == EliminateFrom(cfg, System([[8.0, 0.0, 0.0, 0.0], [0.0, 0.0, 4.0, 0.0], [0.0, 0.0, 0.0, 2.0], [0.0, 1.0, 0.0, 0.0]], b, [1, 0, 2, 3]), 1, 4)
  {
    var cfg, b := Config(Complete, false), [16.0, 12.0, 8.0, 1.0];
    var s, r := System([[0.0, 8.0, 0.0, 0.0], [0.0, 0.0, 4.0, 0.0], [0.0, 0.0, 0.0, 2.0], [1.0, 0.0, 0.0, 0.0]], b, [0, 1, 2, 3]), System([[8.0, 0.0, 0.0, 0.0], [0.0, 0.0, 4.0, 0.0], [0.0, 0.0, 0.0, 2.0], [0.0, 1.0, 0.0, 0.0]], b, [1, 0, 2, 3]);
    assert WellFormed(s) && TvFits(Complete, s.tv, 4);
    CycleStepZero();
    ChainStep(cfg, s, 0, 4, r);
  }

  /** Step 1 of CycleSteps inside the k loop. */
  lemma CycleChainOne()
    ensures var cfg, b := Config(Complete, false), [16.0, 12.0, 8.0, 1.0];
            EliminateFrom(cfg, System([[8.0, 0.0, 0.0, 0.0], [0.0, 0.0, 4.0, 0.0], [0.0, 0.0, 0.0, 2.0], [0.0, 1.0, 0.0, 0.0]], b, [1, 0, 2, 3]), 1, 4)
            == EliminateFrom(cfg, System([[8.0, 0.0, 0.0, 0.0], [0.0, 4.0, 0.0, 0.0], [0.0, 0.0, 0.0, 2.0], [0.0, 0.0, 1.0, 0.0]], b, [1, 2, 0, 3]), 2, 4)
  {
    var cfg, b := Config(Complete, false), [16.0, 12.0, 8.0, 1.0];
    var s, r := System([[8.0, 0.0, 0.0, 0.0], [0.0, 0.0, 4.0, 0.0], [0.0, 0.0, 0.0, 2.0], [0.0, 1.0, 0.0, 0.0]], b, [1, 0, 2, 3]), System([[8.0, 0.0, 0.0, 0.0], [0.0, 4.0, 0.0, 0.0], [0.0, 0.0, 0.0, 2.0], [0.0, 0.0, 1.0, 0.0]], b, [1, 2, 0, 3]);
    assert WellFormed(s) && TvFits(Complete, s.tv, 4);
    CycleStepOne();
    ChainStep(cfg, s, 1, 4, r);
  }

  /** Step 2 of CycleSteps inside the k loop. */
  lemma CycleChainTwo()
    ensures var cfg, b := Config(Complete, false), [16.0, 12.0, 8.0, 1.0];
            EliminateFrom(cfg, System([[8.0, 0.0, 0.0, 0.0], [0.0, 4.0, 0.0, 0.0], [0.0, 0.0, 0.0, 2.0], [0.0, 0.0, 1.0, 0.0]], b, [1, 2, 0, 3]), 2, 4)
            == EliminateFrom(cfg, System([[8.0, 0.0, 0.0, 0.0], [0.0, 4.0, 0.0, 0.0], [0.0, 0.0, 2.0, 0.0], [0.0, 0.0, 0.0, 1.0]], b, [1, 2, 3, 0]), 3, 4)
  {
    var cfg, b := Config(Complete, false), [16.0, 12.0, 8.0, 1.0];
    var s, r := System([[8.0, 0.0, 0.0, 0.0], [0.0, 4.0, 0.0, 0.0], [0.0, 0.0, 0.0, 2.0], [0.0, 0.0, 1.0, 0.0]], b, [1, 2, 0, 3]), System([[8.0, 0.0, 0.0, 0.0], [0.0, 4.0, 0.0, 0.0], [0.0, 0.0, 2.0, 0.0], [0.0, 0.0, 0.0, 1.0]], b, [1, 2, 3, 0]);
    assert WellFormed(s) && TvFits(Complete, s.tv, 4);
    CycleStepTwo();
    ChainStep(cfg, s, 2, 4, r);
  }

  /** A successful step k hands the rest of the k loop its outcome. */
  lemma ChainStep(cfg: Config, s: System, k: nat, end: nat, r: System)
    requires WellFormed(s) && k + 1 < end <= |s.matrix| && end <= |s.matrix[0]| && TvFits(cfg.pivoting, s.tv, |s.matrix[0]|)
    requires Step(cfg, s, k) == Success(r)
    ensures EliminateFrom(cfg, s, k, end) == EliminateFrom(cfg, r, k + 1, end)
  {
    assert EliminateFrom(cfg, s, k, end) == Iteration(cfg, s, k, end);
  }

  /** A strictly greatest magnitude is the one getMaxAbsValueIndexOfMatrix
      reports. */
  lemma UniqueMaximum(a: Matrix, k: nat, p: nat, q: nat)
    requires |a| > 0 && Shape(a, |a|, |a[0]|) && k <= p < |a| && k <= q < |a[0]|
    requires forall x, y :: k <= x < |a| && k <= y < |a[0]| && (x != p || y != q) ==> Abs(a[x][y]) < Abs(a[p][q])
    ensures MatrixMaxIndex(a, k) == (p, q)
  {
  }

  /** A complete-pivoting step whose pivot lands on a clear column leaves
      the pivoted system as it is. */
  lemma CompleteStepOnClearColumn(s: System, k: nat, r: System)
    requires WellFormed(s) && k < |s.matrix| && k < |s.matrix[0]| && |s.tv| == |s.matrix[0]| && IsPermutation(s.tv)
    requires CompletePivot(s, k) == r && r.matrix[k][k] != 0.0
    requires forall i :: k < i < |s.matrix| ==> r.matrix[i][k] == 0.0
    ensures Step(Config(Complete, false), s, k) == Success(r)
  {
    assert Pivot(Complete, s, k) == Success(r);
    ClearColumnStays(r, k);
  }

  /** Below a pivot whose column is already clear, elimination changes nothing. */
  lemma ClearColumnStays(s: System, k: nat)
    requires WellFormed(s) && k < |s.matrix| && k < |s.matrix[0]| && s.matrix[k][k] != 0.0
    requires forall i :: k < i < |s.matrix| ==> s.matrix[i][k] == 0.0
    ensures EliminateColumn(s, k, false) == s
  {
    var a := s.matrix;
    var r := EliminateColumn(s, k, false);
    forall i | k < i < |a|
      ensures r.matrix[i] == a[i] && r.result[i] == s.result[i]
    {
      assert a[i][k] / a[k][k] == 0.0;
      assert r.matrix[i] == ReduceRow(a[i], a[k], k, 0.0, false);
    }
    assert r.matrix == a && r.result == s.result;
  }

  /** Two four-row matrices with the same rows are equal. */
  lemma FourRows(p: Matrix, r: Matrix)
    requires |p| == |r| == 4 && p[0] == r[0] && p[1] == r[1] && p[2] == r[2] && p[3] == r[3]
    ensures p == r
  {
  }

  /** Complete pivoting at step k of a four-row system whose strictly
      greatest trailing magnitude sits at (k, k + 1): a row swap (k, k), which
      does nothing, and the column swap (k, k + 1), which turns `s` into `r`. */
  lemma PivotSwapsNextColumn(s: System, k: nat, r: System)
    requires WellFormed(s) && |s.matrix| == 4 && k < 4 && k + 1 < |s.matrix[0]| && |s.tv| == |s.matrix[0]|
    requires forall x, y :: k <= x < |s.matrix| && k <= y < |s.matrix[0]| && (x != k || y != k + 1) ==>
               Abs(s.matrix[x][y]) < Abs(s.matrix[k][k + 1])
    requires |r.matrix| == 4 && r.result == s.result && r.tv == SwapPlaces(s.tv, k, k + 1)
    requires forall t :: 0 <= t < 4 ==> r.matrix[t] == SwapPlaces(s.matrix[t], k, k + 1)
    ensures CompletePivot(s, k) == r
  {
    UniqueMaximum(s.matrix, k, k, k + 1);
    assert SwapRows(s, k, k) == s;
    var p := SwapColumns(s, k, k + 1);
    FourRows(p.matrix, r.matrix);
  }

  /** The trailing sub-matrix of step 0 has its strictly greatest magnitude
      at (0, 1). */
  lemma CycleMaxZero()
    ensures var a := [[0.0, 8.0, 0.0, 0.0], [0.0, 0.0, 4.0, 0.0], [0.0, 0.0, 0.0, 2.0], [1.0, 0.0, 0.0, 0.0]];
            forall x, y :: 0 <= x < |a| && 0 <= y < |a[0]| && (x != 0 || y != 0 + 1) ==> Abs(a[x][y]) < Abs(a[0][0 + 1])
  {
  }

  /** The trailing sub-matrix of step 1 has its strictly greatest magnitude
      at (1, 2). */
  lemma CycleMaxOne()
    ensures var a := [[8.0, 0.0, 0.0, 0.0], [0.0, 0.0, 4.0, 0.0], [0.0, 0.0, 0.0, 2.0], [0.0, 1.0, 0.0, 0.0]];
            forall x, y :: 1 <= x < |a| && 1 <= y < |a[0]| && (x != 1 || y != 1 + 1) ==> Abs(a[x][y]) < Abs(a[1][1 + 1])
  {
  }

  /** The trailing sub-matrix of step 2 has its strictly greatest magnitude
      at (2, 3). */
  lemma CycleMaxTwo()
    ensures var a := [[8.0, 0.0, 0.0, 0.0], [0.0, 4.0, 0.0, 0.0], [0.0, 0.0, 0.0, 2.0], [0.0, 0.0, 1.0, 0.0]];
            forall x, y :: 2 <= x < |a| && 2 <= y < |a[0]| && (x != 2 || y != 2 + 1) ==> Abs(a[x][y]) < Abs(a[2][2 + 1])
  {
  }

  /** Step 0: the greatest magnitude from (0, 0) on, 8, sits at (0, 1); the
      column below the new pivot is already clear. */
  lemma CycleStepZero()
    ensures var b := [16.0, 12.0, 8.0, 1.0];
            Step(Config(Complete, false), System([[0.0, 8.0, 0.0, 0.0], [0.0, 0.0, 4.0, 0.0], [0.0, 0.0, 0.0, 2.0], [1.0, 0.0, 0.0, 0.0]], b, [0, 1, 2, 3]), 0)
            == Success(System([[8.0, 0.0, 0.0, 0.0], [0.0, 0.0, 4.0, 0.0], [0.0, 0.0, 0.0, 2.0], [0.0, 1.0, 0.0, 0.0]], b, [1, 0, 2, 3]))
  {
    var b := [16.0, 12.0, 8.0, 1.0];
    var s, r := System([[0.0, 8.0, 0.0, 0.0], [0.0, 0.0, 4.0, 0.0], [0.0, 0.0, 0.0, 2.0], [1.0, 0.0, 0.0, 0.0]], b, [0, 1, 2, 3]), System([[8.0, 0.0, 0.0, 0.0], [0.0, 0.0, 4.0, 0.0], [0.0, 0.0, 0.0, 2.0], [0.0, 1.0, 0.0, 0.0]], b, [1, 0, 2, 3]);
    assert WellFormed(s) && |s.matrix[0]| == 4 && |s.tv| == 4;
    assert IsPermutation(s.tv) && r.matrix[0][0] != 0.0;
    assert forall i :: 0 < i < |s.matrix| ==> r.matrix[i][0] == 0.0;
    CyclePivotZero();
    CompleteStepOnClearColumn(s, 0, r);
  }

  /** The pivoting of step 0. */
  lemma CyclePivotZero()
    ensures var b := [16.0, 12.0, 8.0, 1.0];
            CompletePivot(System([[0.0, 8.0, 0.0, 0.0], [0.0, 0.0, 4.0, 0.0], [0.0, 0.0, 0.0, 2.0], [1.0, 0.0, 0.0, 0.0]], b, [0, 1, 2, 3]), 0)
            == System([[8.0, 0.0, 0.0, 0.0], [0.0, 0.0, 4.0, 0.0], [0.0, 0.0, 0.0, 2.0], [0.0, 1.0, 0.0, 0.0]], b, [1, 0, 2, 3])
  {
    var b := [16.0, 12.0, 8.0, 1.0];
    var s, r := System([[0.0, 8.0, 0.0, 0.0], [0.0, 0.0, 4.0, 0.0], [0.0, 0.0, 0.0, 2.0], [1.0, 0.0, 0.0, 0.0]], b, [0, 1, 2, 3]), System([[8.0, 0.0, 0.0, 0.0], [0.0, 0.0, 4.0, 0.0], [0.0, 0.0, 0.0, 2.0], [0.0, 1.0, 0.0, 0.0]], b, [1, 0, 2, 3]);
    CycleMaxZero();
    assert r.matrix[0] == SwapPlaces(s.matrix[0], 0, 1);
    assert r.matrix[1] == SwapPlaces(s.matrix[1], 0, 1);
    assert r.matrix[2] == SwapPlaces(s.matrix[2], 0, 1);
    assert r.matrix[3] == SwapPlaces(s.matrix[3], 0, 1);
    assert r.tv == SwapPlaces(s.tv, 0, 1);
    PivotSwapsNextColumn(s, 0, r);
  }

  /** Step 1: the greatest magnitude from (1, 1) on, 4, sits at (1, 2); the
      column below the new pivot is already clear. */
  lemma CycleStepOne()
    ensures var b := [16.0, 12.0, 8.0, 1.0];
            Step(Config(Complete, false), System([[8.0, 0.0, 0.0, 0.0], [0.0, 0.0, 4.0, 0.0], [0.0, 0.0, 0.0, 2.0], [0.0, 1.0, 0.0, 0.0]], b, [1, 0, 2, 3]), 1)
            == Success(System([[8.0, 0.0, 0.0, 0.0], [0.0, 4.0, 0.0, 0.0], [0.0, 0.0, 0.0, 2.0], [0.0, 0.0, 1.0, 0.0]], b, [1, 2, 0, 3]))
  {
    var b := [16.0, 12.0, 8.0, 1.0];
    var s, r := System([[8.0, 0.0, 0.0, 0.0], [0.0, 0.0, 4.0, 0.0], [0.0, 0.0, 0.0, 2.0], [0.0, 1.0, 0.0, 0.0]], b, [1, 0, 2, 3]), System([[8.0, 0.0, 0.0, 0.0], [0.0, 4.0, 0.0, 0.0], [0.0, 0.0, 0.0, 2.0], [0.0, 0.0, 1.0, 0.0]], b, [1, 2, 0, 3]);
    assert WellFormed(s) && |s.matrix[0]| == 4 && |s.tv| == 4;
    assert IsPermutation(s.tv) && r.matrix[1][1] != 0.0;
    assert forall i :: 1 < i < |s.matrix| ==> r.matrix[i][1] == 0.0;
    CyclePivotOne();
    CompleteStepOnClearColumn(s, 1, r);
  }

  /** The pivoting of step 1. */
  lemma CyclePivotOne()
    ensures var b := [16.0, 12.0, 8.0, 1.0];
            CompletePivot(System([[8.0, 0.0, 0.0, 0.0], [0.0, 0.0, 4.0, 0.0], [0.0, 0.0, 0.0, 2.0], [0.0, 1.0, 0.0, 0.0]], b, [1, 0, 2, 3]), 1)
            == System([[8.0, 0.0, 0.0, 0.0], [0.0, 4.0, 0.0, 0.0], [0.0, 0.0, 0.0, 2.0], [0.0, 0.0, 1.0, 0.0]], b, [1, 2, 0, 3])
  {
    var b := [16.0, 12.0, 8.0, 1.0];
    var s, r := System([[8.0, 0.0, 0.0, 0.0], [0.0, 0.0, 4.0, 0.0], [0.0, 0.0, 0.0, 2.0], [0.0, 1.0, 0.0, 0.0]], b, [1, 0, 2, 3]), System([[8.0, 0.0, 0.0, 0.0], [0.0, 4.0, 0.0, 0.0], [0.0, 0.0, 0.0, 2.0], [0.0, 0.0, 1.0, 0.0]], b, [1, 2, 0, 3]);
    CycleMaxOne();
    assert r.matrix[0] == SwapPlaces(s.matrix[0], 1, 2);
    assert r.matrix[1] == SwapPlaces(s.matrix[1], 1, 2);
    assert r.matrix[2] == SwapPlaces(s.matrix[2], 1, 2);
    assert r.matrix[3] == SwapPlaces(s.matrix[3], 1, 2);
    assert r.tv == SwapPlaces(s.tv, 1, 2);
    PivotSwapsNextColumn(s, 1, r);
  }

  /** Step 2: the greatest magnitude from (2, 2) on, 2, sits at (2, 3); the
      column below the new pivot is already clear. */
  lemma CycleStepTwo()
    ensures var b := [16.0, 12.0, 8.0, 1.0];
            Step(Config(Complete, false), System([[8.0, 0.0, 0.0, 0.0], [0.0, 4.0, 0.0, 0.0], [0.0, 0.0, 0.0, 2.0], [0.0, 0.0, 1.0, 0.0]], b, [1, 2, 0, 3]), 2)
            == Success(System([[8.0, 0.0, 0.0, 0.0], [0.0, 4.0, 0.0, 0.0], [0.0, 0.0, 2.0, 0.0], [0.0, 0.0, 0.0, 1.0]], b, [1, 2, 3, 0]))
  {
    var b := [16.0, 12.0, 8.0, 1.0];
    var s, r := System([[8.0, 0.0, 0.0, 0.0], [0.0, 4.0, 0.0, 0.0], [0.0, 0.0, 0.0, 2.0], [0.0, 0.0, 1.0, 0.0]], b, [1, 2, 0, 3]), System([[8.0, 0.0, 0.0, 0.0], [0.0, 4.0, 0.0, 0.0], [0.0, 0.0, 2.0, 0.0], [0.0, 0.0, 0.0, 1.0]], b, [1, 2, 3, 0]);
    assert WellFormed(s) && |s.matrix[0]| == 4 && |s.tv| == 4;
    assert IsPermutation(s.tv) && r.matrix[2][2] != 0.0;
    assert forall i :: 2 < i < |s.matrix| ==> r.matrix[i][2] == 0.0;
    CyclePivotTwo();
    CompleteStepOnClearColumn(s, 2, r);
  }

  /** The pivoting of step 2. */
  lemma CyclePivotTwo()
    ensures var b := [16.0, 12.0, 8.0, 1.0];
            CompletePivot(System([[8.0, 0.0, 0.0, 0.0], [0.0, 4.0, 0.0, 0.0], [0.0, 0.0, 0.0, 2.0], [0.0, 0.0, 1.0, 0.0]], b, [1, 2, 0, 3]), 2)
            == System([[8.0, 0.0, 0.0, 0.0], [0.0, 4.0, 0.0, 0.0], [0.0, 0.0, 2.0, 0.0], [0.0, 0.0, 0.0, 1.0]], b, [1, 2, 3, 0])
  {
    var b := [16.0, 12.0, 8.0, 1.0];
    var s, r := System([[8.0, 0.0, 0.0, 0.0], [0.0, 4.0, 0.0, 0.0], [0.0, 0.0, 0.0, 2.0], [0.0, 0.0, 1.0, 0.0]], b, [1, 2, 0, 3]), System([[8.0, 0.0, 0.0, 0.0], [0.0, 4.0, 0.0, 0.0], [0.0, 0.0, 2.0, 0.0], [0.0, 0.0, 0.0, 1.0]], b, [1, 2, 3, 0]);
    CycleMaxTwo();
    assert r.matrix[0] == SwapPlaces(s.matrix[0], 2, 3);
    assert r.matrix[1] == SwapPlaces(s.matrix[1], 2, 3);
    assert r.matrix[2] == SwapPlaces(s.matrix[2], 2, 3);
    assert r.matrix[3] == SwapPlaces(s.matrix[3], 2, 3);
    assert r.tv == SwapPlaces(s.tv, 2, 3);
    PivotSwapsNextColumn(s, 2, r);
  }

  /** Back substitution on the diagonal system, with or without the shortcut. */
  lemma CycleBack()
    ensures var d := [[8.0, 0.0, 0.0, 0.0], [0.0, 4.0, 0.0, 0.0], [0.0, 0.0, 2.0, 0.0], [0.0, 0.0, 0.0, 1.0]];
            && BackSubstitution(d, [16.0, 12.0, 8.0, 1.0], true) == Success(SolutionSystem(d, [2.0, 3.0, 4.0, 1.0], false))
            && BackSubstitution(d, [16.0, 12.0, 8.0, 1.0], false) == Success(SolutionSystem(d, [2.0, 3.0, 4.0, 1.0], false))
  {
    var d := [[8.0, 0.0, 0.0, 0.0], [0.0, 4.0, 0.0, 0.0], [0.0, 0.0, 2.0, 0.0], [0.0, 0.0, 0.0, 1.0]];
    var y := [2.0, 3.0, 4.0, 1.0];
    SolvesEveryRow(d, [16.0, 12.0, 8.0, 1.0], y);
    assert Dot(d[0], y) == 16.0 && Dot(d[1], y) == 12.0 && Dot(d[2], y) == 8.0 && Dot(d[3], y) == 1.0;
    BackSubstitutionFindsSolution(d, [16.0, 12.0, 8.0, 1.0], true, y);
    BackSubstitutionFindsSolution(d, [16.0, 12.0, 8.0, 1.0], false, y);
  }

  /** The replay as written on the solution of the diagonal system. */
  lemma CycleReplay()
    ensures IsPermutation([1, 2, 3, 0]) && Replay([2.0, 3.0, 4.0, 1.0], [1, 2, 3, 0]) == [3.0, 2.0, 1.0, 4.0]
  {
    var x, tv := [2.0, 3.0, 4.0, 1.0], [1, 2, 3, 0];
    var x1, tv1 := [3.0, 2.0, 4.0, 1.0], [2, 1, 3, 0];
    var x3, tv3 := [3.0, 2.0, 1.0, 4.0], [2, 1, 0, 3];
    assert IsPermutation(tv);
    SwapKeepsPermutation(tv, 0, 1);
    assert SwapPlaces(x, 0, 1) == x1 && SwapPlaces(tv, 0, 1) == tv1;
    ReplaySkipsFixedPoints(x1, tv1, 1, 2);
    SwapKeepsPermutation(tv1, 2, 3);
    assert SwapPlaces(x1, 2, 3) == x3 && SwapPlaces(tv1, 2, 3) == tv3;
    ReplaySkipsFixedPoints(x3, tv3, 3, 4);
  }
}
