/**
 Back substitution on an upper-triangular system with at least as many rows as
 columns: unknowns n-1 down to 0 are found one row at a time, written over the
 right-hand side; the extra rows of an over-determined system are then checked
 against the last unknown, and the right-hand side is cut down to the n
 unknowns.

 `shortcut` selects the row rule. When it is set (the code as written), a row
 whose right-hand side entry and diagonal entry are both zero is taken to leave
 its unknown free without looking at the rest of the row. When it is clear
 (the corrected rule), every row is checked: a zero diagonal is accepted only
 when the rest of the row already accounts for the right-hand side, and then
 the unknown is free.
 */
module Substitution {
  import opened Systems

  /** What back substitution needs: an admissible system with no more columns
      than rows. */
  predicate Substitutable(a: Matrix, b: seq<real>) {
    Admissible(a, b) && |a[0]| <= |a|
  }

  /** n = min(m, rowLength): the number of unknowns, one per row from the top. */
  function Unknowns(a: Matrix): (n: nat)
    requires |a| > 0
    ensures n <= |a| && n <= |a[0]| && (n == |a| || n == |a[0]|)
  {
    Min(|a|, |a[0]|)
  }

  /** Row t leaves its unknown free: a zero diagonal entry and, under the
      shortcut, also a zero right-hand side entry `x[t]`. */
  predicate FreeRow(a: Matrix, x: seq<real>, t: nat, shortcut: bool)
    requires t < |a| && t < |a[t]| && t < |x|
  {
    a[t][t] == 0.0 && (shortcut ==> x[t] == 0.0)
  }

  /** Row t is one the shortcut passes over without checking it. */
  predicate Skipped(a: Matrix, x: seq<real>, t: nat, shortcut: bool)
    requires t < |a| && t < |a[t]| && t < |x|
  {
    shortcut && FreeRow(a, x, t, true)
  }

  /** One pass of the row loop of _backSubstitution on row i. `x` holds the right-hand
      side entry of row i and the unknowns after i. The result is the value
      stored for unknown i and whether the row marks it free. */
  function SubstituteRow(a: Matrix, x: seq<real>, i: nat, shortcut: bool): (r: Result<(real, bool)>)
    requires Rectangular(a) && i < |a| && i < |a[0]| <= |x|
    ensures r.Failure? <==> !Skipped(a, x, i, shortcut) && a[i][i] == 0.0 && DotFrom(a[i], x, i + 1) != x[i]
    ensures r.Failure? ==> r.error == ZeroTimesNonZero(i)
    ensures r.Success? ==> (r.value.1 <==> FreeRow(a, x, i, shortcut))
    ensures r.Success? && r.value.1 ==> r.value.0 == 0.0
    ensures r.Success? && !Skipped(a, x, i, shortcut) ==> DotFrom(a[i], x[i := r.value.0], i) == x[i]
  {
    var row := a[i];
    if shortcut && x[i] == 0.0 && row[i] == 0.0 then
      Success((x[i], true))
    else
      var adjusted := x[i] - DotFrom(row, x, i + 1);
      if row[i] == 0.0 then
        if adjusted == 0.0 then
          DiagonalTerm(row, x, i, adjusted);
          Success((adjusted, !shortcut))
        else Failure(ZeroTimesNonZero(i))
      else
        DiagonalTerm(row, x, i, adjusted / row[i]);
        Success((adjusted / row[i], false))
  }

  /** Setting unknown i to v makes the left-hand side from column i on the
      diagonal term plus the part after it, which v does not affect. */
  lemma DiagonalTerm(row: seq<real>, x: seq<real>, i: nat, v: real)
    requires i < |row| <= |x|
    ensures DotFrom(row, x[i := v], i) == row[i] * v + DotFrom(row, x, i + 1)
  {
    DotFromPrefix(row, x[i := v], x, i + 1);
  }

  /** With a non-zero coefficient on unknown i, the left-hand side from
      column i on fixes that unknown once the later ones are fixed. */
  lemma DiagonalDetermines(row: seq<real>, x: seq<real>, y: seq<real>, i: nat)
    requires i < |row| <= |x| && |row| <= |y| && row[i] != 0.0
    requires forall t :: i < t < |row| ==> x[t] == y[t]
    requires DotFrom(row, x, i) == DotFrom(row, y, i)
    ensures x[i] == y[i]
  {
    DotFromPrefix(row, x, y, i + 1);
    assert row[i] * (x[i] - y[i]) == 0.0;
  }

  /** Rows i-1 down to 0 of the row loop of _backSubstitution, starting from the
      working vector `x`; `infinite` is the flag so far. Entries from i on are
      never written, and the flag ends up set exactly when some row below i
      was free. */
  function SubstituteFrom(a: Matrix, x: seq<real>, i: nat, infinite: bool, shortcut: bool): (r: Result<(seq<real>, bool)>)
    requires Rectangular(a) && i <= |a| && i <= |a[0]| <= |x|
    ensures r.Success? ==> |r.value.0| == |x| && forall t :: i <= t < |x| ==> r.value.0[t] == x[t]
    ensures r.Failure? ==> r.error.ZeroTimesNonZero? && r.error.row < i && a[r.error.row][r.error.row] == 0.0
    decreases i
  {
    if i == 0 then Success((x, infinite))
    else
      match SubstituteRow(a, x, i - 1, shortcut)
      case Failure(e) => Failure(e)
      case Success((v, free)) =>
        SubstituteFrom(a, x[i - 1 := v], i - 1, infinite || free, shortcut)
  }

  /** The flag SubstituteFrom hands back is set exactly when it came in set
      or one of rows 0..i-1 is free. */
  lemma {:induction false} SubstituteFromFlag(a: Matrix, x: seq<real>, i: nat, infinite: bool, shortcut: bool)
    requires Rectangular(a) && i <= |a| && i <= |a[0]| <= |x|
    requires SubstituteFrom(a, x, i, infinite, shortcut).Success?
    ensures SubstituteFrom(a, x, i, infinite, shortcut).value.1 <==> infinite || exists t :: 0 <= t < i && FreeRow(a, x, t, shortcut)
    decreases i
  {
    if i > 0 {
      var free := SubstituteRow(a, x, i - 1, shortcut).value.1;
      var x' := x[i - 1 := SubstituteRow(a, x, i - 1, shortcut).value.0];
      SubstituteFromFlag(a, x', i - 1, infinite || free, shortcut);
      assert forall t :: 0 <= t < i - 1 ==> (FreeRow(a, x', t, shortcut) <==> FreeRow(a, x, t, shortcut));
    }
  }

  /** Row t, whose only non-zero coefficient is its last one, is satisfied by
      `last` as the last unknown. */
  predicate GivesLast(a: Matrix, x: seq<real>, last: real, t: nat)
    requires Rectangular(a) && 0 < |a[0]| && |x| == |a| && t < |a|
  {
    a[t][|a[0]| - 1] * last == x[t]
  }

  /** The extra-row check of _backSubstitution: every row from i on must give the last unknown `last`
      through its last coefficient. A zero coefficient needs a zero right-hand
      side; otherwise the quotient must equal `last`. The first row that
      breaks this is reported. */
  function CheckRemainingRows(a: Matrix, x: seq<real>, last: real, i: nat): (r: Result<()>)
    requires Rectangular(a) && 0 < |a[0]| && |x| == |a| && i <= |a|
    ensures r.Success? <==> forall t :: i <= t < |a| ==> GivesLast(a, x, last, t)
    ensures r.Failure? ==> (r.error.ZeroTimesNonZero? || r.error.InconsistentRow?) && i <= r.error.row < |a|
    decreases |a| - i
  {
    if i == |a| then Success(())
    else
      var rowValue := a[i][|a[0]| - 1];
      assert GivesLast(a, x, last, i) <==> if rowValue == 0.0 then x[i] == 0.0 else SameQuotient(x[i], rowValue, last);
      if rowValue == 0.0 then
        if x[i] == 0.0 then CheckRemainingRows(a, x, last, i + 1) else Failure(ZeroTimesNonZero(i))
      else if !SameQuotient(x[i], rowValue, last) then
        Failure(InconsistentRow(i))
      else
        CheckRemainingRows(a, x, last, i + 1)
  }

  /** A failure names the first row from i on that does not give `last`,
      and the error kind says whether its last coefficient was zero. */
  lemma {:induction false} CheckRemainingRowsReports(a: Matrix, x: seq<real>, last: real, i: nat)
    requires Rectangular(a) && 0 < |a[0]| && |x| == |a| && i <= |a|
    requires CheckRemainingRows(a, x, last, i).Failure?
    ensures var e := CheckRemainingRows(a, x, last, i).error;
            && !GivesLast(a, x, last, e.row)
            && (forall t :: i <= t < e.row ==> GivesLast(a, x, last, t))
            && (e.ZeroTimesNonZero? <==> a[e.row][|a[0]| - 1] == 0.0)
    decreases |a| - i
  {
    CheckRemainingRowsStep(a, x, last, i);
    if GivesLast(a, x, last, i) {
      CheckRemainingRowsReports(a, x, last, i + 1);
    }
  }

  /** One row of CheckRemainingRows: a row that gives `last` hands the check
      on to the next row; any other row is the one reported. */
  lemma CheckRemainingRowsStep(a: Matrix, x: seq<real>, last: real, i: nat)
    requires Rectangular(a) && 0 < |a[0]| && |x| == |a| && i < |a|
    ensures var r := CheckRemainingRows(a, x, last, i);
            if GivesLast(a, x, last, i) then r == CheckRemainingRows(a, x, last, i + 1)
            else r.Failure? && r.error.row == i && (r.error.ZeroTimesNonZero? <==> a[i][|a[0]| - 1] == 0.0)
  {
  }

  /** For a non-zero divisor, the quotient test of _backSubstitution is the equation
      it stands for. */
  predicate SameQuotient(value: real, divisor: real, last: real)
    requires divisor != 0.0
    ensures SameQuotient(value, divisor, last) <==> divisor * last == value
  {
    value / divisor == last
  }

  /** _backSubstitution on the reduced system (a, b). With
      zero-length rows nothing is solved and `b` is handed back as it is. */
  function BackSubstitution(a: Matrix, b: seq<real>, shortcut: bool): (r: Result<SolutionSystem>)
    requires Substitutable(a, b)
    ensures r.Success? ==> r.value.matrix == a
    ensures r.Success? && |a[0]| > 0 ==> |r.value.solution| == Unknowns(a)
    ensures |a[0]| == 0 ==> r == Success(SolutionSystem(a, b, false))
    ensures r.Success? ==> (r.value.infiniteSolutions <==> exists t :: 0 <= t < Unknowns(a) && FreeRow(a, b, t, shortcut))
    ensures r.Failure? ==> || (r.error.ZeroTimesNonZero? && r.error.row < Unknowns(a) && a[r.error.row][r.error.row] == 0.0)
                           || ((r.error.ZeroTimesNonZero? || r.error.InconsistentRow?) && Unknowns(a) <= r.error.row < |a|)
  {
    var n := Unknowns(a);
    match SubstituteFrom(a, b, n, false, shortcut)
    case Failure(e) => Failure(e)
    case Success((x, infinite)) =>
      if |a[0]| > 0 then
        match CheckRemainingRows(a, x, x[n - 1], n)
        case Failure(e) => Failure(e)
        case Success(_) =>
          SubstituteFromFlag(a, b, n, false, shortcut);
          Success(SolutionSystem(a, x[..n], infinite))
      else
        Success(SolutionSystem(a, x, infinite))
  }

  // ---------------------------------------------------------------------------
  // What the computed values satisfy

  /** Every row below i that the loop checked holds for the final vector, with
      the right-hand side entry it had when the loop reached it. */
  lemma {:induction false} SubstituteFromSolvesRows(a: Matrix, x: seq<real>, i: nat, infinite: bool, shortcut: bool)
    requires Rectangular(a) && i <= |a| && i <= |a[0]| <= |x|
    requires SubstituteFrom(a, x, i, infinite, shortcut).Success?
    ensures var y := SubstituteFrom(a, x, i, infinite, shortcut).value.0;
            forall t :: 0 <= t < i && !Skipped(a, x, t, shortcut) ==> DotFrom(a[t], y, t) == x[t]
    decreases i
  {
    if i > 0 {
      var r := i - 1;
      var v := SubstituteRow(a, x, r, shortcut).value.0;
      var free := SubstituteRow(a, x, r, shortcut).value.1;
      var x' := x[r := v];
      SubstituteFromSolvesRows(a, x', r, infinite || free, shortcut);
      var y := SubstituteFrom(a, x', r, infinite || free, shortcut).value.0;
      assert SubstituteFrom(a, x, i, infinite, shortcut).value.0 == y;
      if !Skipped(a, x, r, shortcut) {
        DotFromPrefix(a[r], y, x', r);
      }
      assert forall t :: 0 <= t < r ==> x'[t] == x[t];
    }
  }

  /** Row t of a matrix that is zero below the diagonal in columns 0..n-2 and
      has n columns: its left-hand side starts at column min(t, n-1). */
  lemma TriangularRow(a: Matrix, t: nat, y: seq<real>)
    requires Rectangular(a) && 0 < |a[0]| <= |a| && t < |a| && |y| == |a[0]|
    requires ZeroBelow(a, |a[0]| - 1)
    ensures t < |a[0]| ==> Dot(a[t], y) == DotFrom(a[t], y, t)
    ensures |a[0]| <= t ==> Dot(a[t], y) == DotFrom(a[t], y, |a[0]| - 1)
  {
    var n := |a[0]|;
    if t < n {
      DotFromSkipsZeros(a[t], y, 0, t);
    } else {
      DotFromSkipsZeros(a[t], y, 0, n - 1);
    }
  }

  /** For a row of n coefficients, the part from column n-1 on is the last
      term alone: the extra-row test of _backSubstitution. */
  lemma LastColumnTerm(a: Matrix, x: seq<real>, y: seq<real>, t: nat)
    requires Rectangular(a) && 0 < |a[0]| && |x| == |a| && t < |a| && |y| == |a[0]|
    ensures GivesLast(a, x, y[|a[0]| - 1], t) <==> DotFrom(a[t], y, |a[0]| - 1) == x[t]
  {
  }

  /** LastColumnTerm for every extra row at once. */
  lemma LastColumnRows(a: Matrix, x: seq<real>, y: seq<real>)
    requires Rectangular(a) && 0 < |a[0]| <= |a| && |x| == |a| && |y| == |a[0]|
    ensures forall t :: |a[0]| <= t < |a| ==> (GivesLast(a, x, y[|a[0]| - 1], t) <==> DotFrom(a[t], y, |a[0]| - 1) == x[t])
  {
    forall t | |a[0]| <= t < |a| {
      LastColumnTerm(a, x, y, t);
    }
  }

  /** Soundness: on a system that is zero below the diagonal (what forward
      elimination leaves), a returned solution solves it, unless the
      shortcut passed over a row and reported infinitely many solutions. */
  lemma BackSubstitutionSolves(a: Matrix, b: seq<real>, shortcut: bool)
    requires Substitutable(a, b) && 0 < |a[0]| && ZeroBelow(a, |a[0]| - 1)
    requires BackSubstitution(a, b, shortcut).Success?
    ensures var sol := BackSubstitution(a, b, shortcut).value;
            !(shortcut && sol.infiniteSolutions) ==> Solves(a, b, sol.solution)
  {
    var n := |a[0]|;
    var sol := BackSubstitution(a, b, shortcut).value;
    var x := SubstituteFrom(a, b, n, false, shortcut).value.0;
    assert sol.solution == x[..n];
    if !(shortcut && sol.infiniteSolutions) {
      var y := x[..n];
      SubstituteFromSolvesRows(a, b, n, false, shortcut);
      assert CheckRemainingRows(a, x, x[n - 1], n).Success?;
      SolvesEveryRow(a, b, y);
      forall t | 0 <= t < |a|
        ensures |a[t]| == |y| && Dot(a[t], y) == b[t]
      {
        TriangularRow(a, t, y);
        if t < n {
          assert !Skipped(a, b, t, shortcut);
          DotFromPrefix(a[t], y, x, t);
        } else {
          DotFromPrefix(a[t], y, x, n - 1);
          LastColumnTerm(a, x, y, t);
        }
      }
    }
  }

  /** Completeness: when every diagonal entry is non-zero, a vector solving a
      system that is zero below the diagonal is exactly what back
      substitution returns, under either rule. */
  lemma BackSubstitutionFindsSolution(a: Matrix, b: seq<real>, shortcut: bool, y: seq<real>)
    requires Substitutable(a, b) && 0 < |a[0]| && ZeroBelow(a, |a[0]| - 1)
    requires forall t :: 0 <= t < |a[0]| ==> a[t][t] != 0.0
    requires Solves(a, b, y)
    ensures BackSubstitution(a, b, shortcut) == Success(SolutionSystem(a, y, false))
  {
    var n := |a[0]|;
    SolvesEveryRow(a, b, y);
    assert |y| == n;
    forall t | 0 <= t < |a|
      ensures t < n ==> DotFrom(a[t], y, t) == b[t]
      ensures n <= t ==> DotFrom(a[t], y, n - 1) == b[t]
    {
      TriangularRow(a, t, y);
    }
    SubstituteFromFinds(a, b, b, n, shortcut, y);
    var x := SubstituteFrom(a, b, n, false, shortcut).value.0;
    assert x[..n] == y;
    LastColumnRows(a, x, y);
  }

  /** The loop of BackSubstitutionFindsSolution: started from a vector
      holding the right-hand side below i and y from i on, it fills in the
      rest of y and marks nothing free. */
  lemma {:induction false} SubstituteFromFinds(a: Matrix, b: seq<real>, x: seq<real>, i: nat, shortcut: bool, y: seq<real>)
    requires Rectangular(a) && i <= |a[0]| <= |a| && |b| == |a| == |x| && |y| == |a[0]|
    requires forall t :: 0 <= t < |a[0]| ==> a[t][t] != 0.0 && DotFrom(a[t], y, t) == b[t]
    requires forall t :: 0 <= t < i ==> x[t] == b[t]
    requires forall t :: i <= t < |a[0]| ==> x[t] == y[t]
    ensures SubstituteFrom(a, x, i, false, shortcut).Success?
    ensures var (x', infinite) := SubstituteFrom(a, x, i, false, shortcut).value;
            !infinite && forall t :: 0 <= t < i ==> x'[t] == y[t]
    decreases i
  {
    if i > 0 {
      var r := i - 1;
      var v := SubstituteRow(a, x, r, shortcut).value.0;
      var x' := x[r := v];
      DotFromPrefix(a[r], x', y, r + 1);
      DiagonalDetermines(a[r], x', y, r);
      SubstituteFromFinds(a, b, x', r, shortcut, y);
      assert SubstituteFrom(a, x, i, false, shortcut) == SubstituteFrom(a, x', r, false, shortcut);
    }
  }

  /** The shortcut at work: in [[0, 1], [0, 1]]·x = [0, 1] the two rows
      demand x[1] = 0 and x[1] = 1, yet back substitution passes over row 0
      and returns [0, 1] with infinitely many solutions. */
  lemma ShortcutAcceptsInconsistentRow()
    ensures var a, b := [[0.0, 1.0], [0.0, 1.0]], [0.0, 1.0];
            && BackSubstitution(a, b, true) == Success(SolutionSystem(a, [0.0, 1.0], true))
            && !Solves(a, b, [0.0, 1.0])
            && BackSubstitution(a, b, false) == Failure(ZeroTimesNonZero(0))
  {
    var a, b := [[0.0, 1.0], [0.0, 1.0]], [0.0, 1.0];
    SolvesEveryRow(a, b, [0.0, 1.0]);
    assert Dot(a[0], [0.0, 1.0]) == 1.0;
    assert DotFrom(a[1], b, 2) == 0.0;
    assert DotFrom(a[0], b, 1) == 1.0;
    assert b[1 := 1.0] == b && b[0 := 0.0] == b;
    assert SubstituteRow(a, b, 1, true) == Success((1.0, false));
    assert SubstituteRow(a, b, 0, true) == Success((0.0, true));
    assert SubstituteFrom(a, b, 2, false, true) == SubstituteFrom(a, b, 1, false, true);
    assert SubstituteFrom(a, b, 1, false, true) == SubstituteFrom(a, b, 0, true, true);
    assert CheckRemainingRows(a, b, b[1], 2) == Success(()) && b[..2] == b;
    assert SubstituteRow(a, b, 1, false) == Success((1.0, false));
    assert SubstituteRow(a, b, 0, false) == Failure(ZeroTimesNonZero(0));
    assert SubstituteFrom(a, b, 2, false, false) == SubstituteFrom(a, b, 1, false, false);
    assert SubstituteFrom(a, b, 1, false, false) == Failure(ZeroTimesNonZero(0));
  }
}
