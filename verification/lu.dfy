/**
 LU capture (the `lu` option) changes one thing in forward elimination: the
 slot below the pivot that elimination clears receives the multiplier instead
 of zero. Nothing after that reads those slots. Pivoting at a later step looks
 only at the trailing sub-matrix, reorderRows only at column min(m, n) - 1, and
 back substitution only at entries on or above the diagonal and at the last
 column of the extra rows. So the two passes stay equal everywhere else, and a
 solve returns the same solution, flag and error with or without capture.
 */
module LuCapture {
  import opened Systems
  import opened Swaps
  import opened Pivoting
  import opened Elimination
  import opened Substitution

  /** `a` and `a2` have the same shape and the same entries, except perhaps in
      the slots strictly below the diagonal of columns 0..k-1, where LU
      capture keeps its multipliers. */
  predicate SameOutside(a: Matrix, a2: Matrix, k: nat) {
    && |a| == |a2|
    && (forall i :: 0 <= i < |a| ==> |a[i]| == |a2[i]|)
    && forall i, c :: 0 <= i < |a| && 0 <= c < |a[i]| && !(c < k && c < i) ==> a[i][c] == a2[i][c]
  }

  /** Two systems that differ at most in the multiplier slots of columns 0..k-1. */
  predicate Agree(s: System, s2: System, k: nat) {
    SameOutside(s.matrix, s2.matrix, k) && s.result == s2.result && s.tv == s2.tv
  }

  /** A system agreeing with a well-formed one is well formed too. */
  lemma AgreeWellFormed(s: System, s2: System, k: nat)
    requires WellFormed(s) && Agree(s, s2, k)
    ensures WellFormed(s2) && |s2.matrix| == |s.matrix| && |s2.matrix[0]| == |s.matrix[0]|
  {
  }

  // ---------------------------------------------------------------------------
  // Pivoting reads only the trailing sub-matrix

  lemma ColumnMaxIndexAgrees(a: Matrix, a2: Matrix, k: nat)
    requires SameOutside(a, a2, k) && k < |a| && forall q :: 0 <= q < |a| ==> k < |a[q]|
    ensures ColumnMaxIndex(a, k) == ColumnMaxIndex(a2, k)
  {
    assert ColumnAbs(a, k) == ColumnAbs(a2, k);
  }

  /** The largest magnitude of row[i..] depends only on row[i..]. */
  lemma RowMaxAbsAgrees(u: seq<real>, w: seq<real>, i: nat)
    requires |u| == |w| && i < |u| && forall j :: i <= j < |u| ==> u[j] == w[j]
    ensures RowMaxAbs(u, i) == RowMaxAbs(w, i)
  {
    RowMaxAbsAttained(u, i);
    RowMaxAbsAttained(w, i);
  }

  lemma BestScaledRowIndexAgrees(a: Matrix, a2: Matrix, k: nat)
    requires SameOutside(a, a2, k) && k < |a| && forall q :: 0 <= q < |a| ==> k < |a[q]|
    ensures BestScaledRowIndex(a, k) == BestScaledRowIndex(a2, k)
  {
    forall q | 0 <= q < |a|
      ensures ScaledValue(a[q], k) == ScaledValue(a2[q], k)
    {
      RowMaxAbsAgrees(a[q], a2[q], k);
    }
    assert ColumnScaled(a, k) == ColumnScaled(a2, k);
  }

  /** The scan order of the complete-pivoting search is total: of two
      different cells of the trailing sub-matrix, one comes first. */
  lemma ScanOrderTotal(k: nat, x: nat, y: nat, p: nat, q: nat)
    ensures (x, y) != (p, q) ==> ScanBefore(k, x, y, p, q) || ScanBefore(k, p, q, x, y)
  {
  }

  /** Both searches find a largest magnitude in the same sub-matrix, and the
      first one in scan order is unique. */
  lemma MatrixMaxIndexAgrees(a: Matrix, a2: Matrix, k: nat)
    requires |a| > 0 && Shape(a, |a|, |a[0]|) && k < |a| && k < |a[0]| && SameOutside(a, a2, k)
    ensures |a2| > 0 && Shape(a2, |a2|, |a2[0]|)
    ensures MatrixMaxIndex(a, k) == MatrixMaxIndex(a2, k)
  {
    var r, r2 := MatrixMaxIndex(a, k), MatrixMaxIndex(a2, k);
    assert Abs(a[r.0][r.1]) == Abs(a2[r2.0][r2.1]) by {
      assert Abs(a[r2.0][r2.1]) <= Abs(a[r.0][r.1]);
      assert Abs(a2[r.0][r.1]) <= Abs(a2[r2.0][r2.1]);
    }
    ScanOrderTotal(k, r.0, r.1, r2.0, r2.1);
    assert !ScanBefore(k, r.0, r.1, r2.0, r2.1) by {
      assert a[r.0][r.1] == a2[r.0][r.1];
    }
    assert !ScanBefore(k, r2.0, r2.1, r.0, r.1) by {
      assert a[r2.0][r2.1] == a2[r2.0][r2.1];
    }
  }

  /** Exchanging two rows at or below row k keeps the agreement. */
  lemma SwapRowsAgrees(s: System, s2: System, k: nat, i: nat, p: nat)
    requires Agree(s, s2, k) && |s.result| == |s.matrix| && k <= i < |s.matrix| && k <= p < |s.matrix|
    ensures Agree(SwapRows(s, i, p), SwapRows(s2, i, p), k)
  {
    var r, r2 := SwapRows(s, i, p), SwapRows(s2, i, p);
    forall t | 0 <= t < |r.matrix|
      ensures r.matrix[t] == s.matrix[Swapped(t, i, p)] && r2.matrix[t] == s2.matrix[Swapped(t, i, p)]
    {
    }
  }

  /** Exchanging two columns at or right of column k keeps the agreement. */
  lemma SwapColumnsAgrees(s: System, s2: System, k: nat, q: nat)
    requires Agree(s, s2, k) && k <= q < |s.tv|
    requires forall t :: 0 <= t < |s.matrix| ==> q < |s.matrix[t]| && k < |s.matrix[t]|
    ensures Agree(SwapColumns(s, k, q), SwapColumns(s2, k, q), k)
  {
    var r, r2 := SwapColumns(s, k, q), SwapColumns(s2, k, q);
    forall t, c | 0 <= t < |r.matrix| && 0 <= c < |r.matrix[t]|
      ensures r.matrix[t][c] == s.matrix[t][Swapped(c, k, q)] && r2.matrix[t][c] == s2.matrix[t][Swapped(c, k, q)]
    {
    }
  }

  /** Every strategy makes the same choice on both systems, so it fails on
      both or moves the same rows and columns of both. */
  lemma PivotAgrees(strategy: Strategy, s: System, s2: System, k: nat)
    requires WellFormed(s) && k < |s.matrix| && k < |s.matrix[0]|
    requires TvFits(strategy, s.tv, |s.matrix[0]|) && Agree(s, s2, k)
    ensures WellFormed(s2) && |s2.matrix| == |s.matrix| && |s2.matrix[0]| == |s.matrix[0]|
    ensures Pivot(strategy, s, k).Failure? <==> Pivot(strategy, s2, k).Failure?
    ensures Pivot(strategy, s, k).Failure? ==> Pivot(strategy, s, k).error == Pivot(strategy, s2, k).error
    ensures Pivot(strategy, s, k).Success? ==> Agree(Pivot(strategy, s, k).value, Pivot(strategy, s2, k).value, k)
  {
    AgreeWellFormed(s, s2, k);
    assert s.matrix[k][k] == s2.matrix[k][k];
    match strategy
    case None =>
    case AvoidZero =>
      if s.matrix[k][k] == 0.0 {
        PartialPivotAgrees(s, s2, k);
      }
    case Partial =>
      PartialPivotAgrees(s, s2, k);
    case Scaled =>
      BestScaledRowIndexAgrees(s.matrix, s2.matrix, k);
      SwapRowsAgrees(s, s2, k, k, BestScaledRowIndex(s.matrix, k));
    case Complete =>
      CompletePivotAgrees(s, s2, k);
  }

  lemma PartialPivotAgrees(s: System, s2: System, k: nat)
    requires WellFormed(s) && WellFormed(s2) && k < |s.matrix| && k < |s.matrix[0]| && Agree(s, s2, k)
    requires |s2.matrix| == |s.matrix| && |s2.matrix[0]| == |s.matrix[0]|
    ensures Agree(PartialPivot(s, k), PartialPivot(s2, k), k)
  {
    ColumnMaxIndexAgrees(s.matrix, s2.matrix, k);
    SwapRowsAgrees(s, s2, k, k, ColumnMaxIndex(s.matrix, k));
  }

  lemma CompletePivotAgrees(s: System, s2: System, k: nat)
    requires WellFormed(s) && WellFormed(s2) && k < |s.matrix| && k < |s.matrix[0]| && Agree(s, s2, k)
    requires |s2.matrix| == |s.matrix| && |s2.matrix[0]| == |s.matrix[0]| && |s.tv| == |s.matrix[0]|
    ensures Agree(CompletePivot(s, k), CompletePivot(s2, k), k)
  {
    MatrixMaxIndexAgrees(s.matrix, s2.matrix, k);
    var pq := MatrixMaxIndex(s.matrix, k);
    SwapRowsAgrees(s, s2, k, k, pq.0);
    SwapRowThenColumnEntries(s, k, pq.0, pq.1);
    SwapColumnsAgrees(SwapRows(s, k, pq.0), SwapRows(s2, k, pq.0), k, pq.1);
  }

  // ---------------------------------------------------------------------------
  // Elimination writes the multiplier slot and reads nothing of the others

  /** Two outcomes of the same computation with and without capture: the
      same error, or systems agreeing outside the multiplier slots of
      columns 0..k-1. */
  predicate ResultsAgree(r: Result<System>, r2: Result<System>, k: nat) {
    if r.Success? then r2.Success? && Agree(r.value, r2.value, k) else r2 == r
  }

  /** Agreement outside the multiplier slots of columns 0..k-1 implies it
      outside those of any wider range of columns. */
  lemma AgreeWiden(s: System, s2: System, k: nat, k2: nat)
    requires Agree(s, s2, k) && k <= k2
    ensures Agree(s, s2, k2)
  {
  }

  /** Row i below the pivot, eliminated in two systems that agree in rows i
      and k from column k on, with or without capture: the same entries right
      of column k. */
  lemma EliminatedRowAgrees(s: System, s2: System, k: nat, i: nat, lu: bool, lu2: bool)
    requires WellFormed(s) && k < i < |s.matrix| && k < |s.matrix[0]| && s.matrix[k][k] != 0.0
    requires WellFormed(s2) && |s2.matrix| == |s.matrix| && |s2.matrix[0]| == |s.matrix[0]|
    requires forall c :: k <= c < |s.matrix[0]| ==> s.matrix[i][c] == s2.matrix[i][c] && s.matrix[k][c] == s2.matrix[k][c]
    ensures s2.matrix[k][k] != 0.0
    ensures forall c :: k < c < |s.matrix[0]| ==> EliminateColumn(s, k, lu).matrix[i][c] == EliminateColumn(s2, k, lu2).matrix[i][c]
  {
    assert s.matrix[i][k] == s2.matrix[i][k] && s.matrix[k][k] == s2.matrix[k][k];
    var m, m2 := s.matrix[i][k] / s.matrix[k][k], s2.matrix[i][k] / s2.matrix[k][k];
    assert m == m2;
    EliminatedRow(s, k, i, lu);
    EliminatedRow(s2, k, i, lu2);
    ReduceRowSameTail(s.matrix[i], s.matrix[k], s2.matrix[i], s2.matrix[k], k, m, lu, lu2);
  }

  /** Right of column k a reduced row reads only the two rows right of
      column k. */
  lemma ReduceRowSameTail(row: seq<real>, pivotRow: seq<real>, row2: seq<real>, pivotRow2: seq<real>, k: nat, mult: real, lu: bool, lu2: bool)
    requires |row| == |pivotRow| == |row2| == |pivotRow2| && k < |row|
    requires forall c :: k < c < |row| ==> row[c] == row2[c] && pivotRow[c] == pivotRow2[c]
    ensures forall c :: k < c < |row| ==> ReduceRow(row, pivotRow, k, mult, lu)[c] == ReduceRow(row2, pivotRow2, k, mult, lu2)[c]
  {
    var r, r2 := ReduceRow(row, pivotRow, k, mult, lu), ReduceRow(row2, pivotRow2, k, mult, lu2);
    forall c | k < c < |row|
      ensures r[c] == r2[c]
    {
      var u, v := row[c], pivotRow[c];
      assert r[c] == u - mult * v;
      assert r2[c] == u - mult * v;
    }
  }

  /** The right-hand side entry of row i after eliminating column k reads
      only entries of column k and the right-hand side. */
  lemma EliminatedResultAgrees(s: System, s2: System, k: nat, i: nat, lu: bool, lu2: bool)
    requires WellFormed(s) && k < i < |s.matrix| && k < |s.matrix[0]| && s.matrix[k][k] != 0.0
    requires WellFormed(s2) && |s2.matrix| == |s.matrix| && |s2.matrix[0]| == |s.matrix[0]| && s2.result == s.result
    requires s.matrix[i][k] == s2.matrix[i][k] && s.matrix[k][k] == s2.matrix[k][k]
    ensures EliminateColumn(s, k, lu).result[i] == EliminateColumn(s2, k, lu2).result[i]
  {
    EliminatedResult(s, k, i, lu);
    EliminatedResult(s2, k, i, lu2);
    SameUpdate(s.result[i], s.result[k], s.matrix[i][k], s.matrix[k][k],
               s2.result[i], s2.result[k], s2.matrix[i][k], s2.matrix[k][k]);
  }

  /** The update b_i - (u / v) * b_k only reads its four inputs. */
  lemma SameUpdate(bi: real, bk: real, u: real, v: real, bi2: real, bk2: real, u2: real, v2: real)
    requires v != 0.0 && bi == bi2 && bk == bk2 && u == u2 && v == v2
    ensures bi - u / v * bk == bi2 - u2 / v2 * bk2
  {
  }

  /** Eliminating column k of two agreeing systems, with or without capture,
      gives systems that agree outside the multiplier slots of columns 0..k. */
  lemma EliminateColumnAgrees(s: System, s2: System, k: nat, lu: bool, lu2: bool)
    requires WellFormed(s) && k < |s.matrix| && k < |s.matrix[0]| && s.matrix[k][k] != 0.0 && Agree(s, s2, k)
    ensures WellFormed(s2) && s2.matrix[k][k] != 0.0
    ensures Agree(EliminateColumn(s, k, lu), EliminateColumn(s2, k, lu2), k + 1)
  {
    AgreeWellFormed(s, s2, k);
    var r, r2 := EliminateColumn(s, k, lu), EliminateColumn(s2, k, lu2);
    forall i | k < i < |s.matrix|
      ensures r.result[i] == r2.result[i]
      ensures forall c :: k < c < |s.matrix[0]| ==> r.matrix[i][c] == r2.matrix[i][c]
    {
      assert forall c :: k <= c < |s.matrix[0]| ==> s.matrix[i][c] == s2.matrix[i][c] && s.matrix[k][c] == s2.matrix[k][c];
      EliminatedRowAgrees(s, s2, k, i, lu, lu2);
      EliminatedResultAgrees(s, s2, k, i, lu, lu2);
    }
    assert r.result == r2.result;
  }

  /** One iteration of the k loop on two agreeing systems, under two
      configurations that differ at most in LU capture. */
  lemma StepAgrees(cfg: Config, cfg2: Config, s: System, s2: System, k: nat)
    requires cfg.pivoting == cfg2.pivoting
    requires WellFormed(s) && k < |s.matrix| && k < |s.matrix[0]| && TvFits(cfg.pivoting, s.tv, |s.matrix[0]|)
    requires Agree(s, s2, k)
    ensures WellFormed(s2) && |s2.matrix| == |s.matrix| && |s2.matrix[0]| == |s.matrix[0]|
    ensures ResultsAgree(Step(cfg, s, k), Step(cfg2, s2, k), k + 1)
  {
    PivotAgrees(cfg.pivoting, s, s2, k);
    var q, q2 := Pivot(cfg.pivoting, s, k), Pivot(cfg.pivoting, s2, k);
    if q.Success? {
      var p, p2 := q.value, q2.value;
      assert p.matrix[k][k] == p2.matrix[k][k];
      if p.matrix[k][k] != 0.0 {
        EliminateColumnAgrees(p, p2, k, cfg.lu, cfg2.lu);
        assert Step(cfg, s, k) == Success(EliminateColumn(p, k, cfg.lu));
        assert Step(cfg2, s2, k) == Success(EliminateColumn(p2, k, cfg2.lu));
      } else {
        AgreeWiden(p, p2, k, k + 1);
      }
    }
  }

  /** r and r2 are what the rest of the k loop from step k returns for two
      agreeing systems under two configurations with the same strategy. The
      lemmas below require and ensure it as `RestOfLoop(...) == true`, so that
      it is handed from one step to the next as a single fact instead of being
      split into its conjuncts at every call. */
  predicate RestOfLoop(cfg: Config, cfg2: Config, s: System, s2: System, k: nat, end: nat, r: Result<System>, r2: Result<System>) {
    && cfg.pivoting == cfg2.pivoting
    && WellFormed(s) && k < end <= |s.matrix| && end <= |s.matrix[0]|
    && TvFits(cfg.pivoting, s.tv, |s.matrix[0]|) && Agree(s, s2, k)
    && WellFormed(s2) && |s2.matrix| == |s.matrix| && |s2.matrix[0]| == |s.matrix[0]|
    && r == EliminateFrom(cfg, s, k, end) && r2 == EliminateFrom(cfg2, s2, k, end)
  }

  /** The rest of the k loop, with and without capture: the same failure, or
      systems that differ at most in the multiplier slots. */
  lemma {:induction false} EliminateFromAgrees(cfg: Config, cfg2: Config, s: System, s2: System, k: nat, end: nat, r: Result<System>, r2: Result<System>)
    requires RestOfLoop(cfg, cfg2, s, s2, k, end, r, r2) == true
    ensures ResultsAgree(r, r2, end - 1)
    decreases end - k
  {
    if k + 1 < end {
      var failed, t, t2 := StepThenRest(cfg, cfg2, s, s2, k, end, r, r2);
      if !failed {
        EliminateFromAgrees(cfg, cfg2, t, t2, k + 1, end, r, r2);
      }
    } else {
      LoopEndAgrees(cfg, cfg2, s, s2, k, end, r, r2);
    }
  }

  lemma LoopEndAgrees(cfg: Config, cfg2: Config, s: System, s2: System, k: nat, end: nat, r: Result<System>, r2: Result<System>)
    requires RestOfLoop(cfg, cfg2, s, s2, k, end, r, r2) == true && k + 1 >= end
    ensures ResultsAgree(r, r2, end - 1)
  {
    assert EliminateFrom(cfg, s, k, end) == Success(s);
    assert EliminateFrom(cfg2, s2, k, end) == Success(s2);
    AgreeWiden(s, s2, k, end - 1);
  }

  /** Step k of two agreeing systems either fails on both, or leaves two
      systems agreeing one column further that the rest of the loop takes up. */
  lemma StepThenRest(cfg: Config, cfg2: Config, s: System, s2: System, k: nat, end: nat, r: Result<System>, r2: Result<System>) returns (failed: bool, t: System, t2: System)
    requires RestOfLoop(cfg, cfg2, s, s2, k, end, r, r2) == true && k + 1 < end
    ensures failed ==> ResultsAgree(r, r2, end - 1)
    ensures !failed ==> RestOfLoop(cfg, cfg2, t, t2, k + 1, end, r, r2) == true
  {
    StepAgrees(cfg, cfg2, s, s2, k);
    var q, q2 := Step(cfg, s, k), Step(cfg2, s2, k);
    failed := q.Failure?;
    t, t2 := s, s2;
    if !failed {
      t, t2 := q.value, q2.value;
      AgreeWellFormed(t, t2, k + 1);
      assert EliminateFrom(cfg, s, k, end) == EliminateFrom(cfg, t, k + 1, end);
      assert EliminateFrom(cfg2, s2, k, end) == EliminateFrom(cfg2, t2, k + 1, end);
    } else {
      assert EliminateFrom(cfg, s, k, end) == q;
      assert EliminateFrom(cfg2, s2, k, end) == q2;
    }
  }

  /** reorderRows tests column j, which holds no multipliers, so it exchanges
      the same rows of both systems. */
  lemma {:induction false} ReorderFromAgrees(s: System, s2: System, j: nat, i: nat, last: nat, retest: bool)
    requires WellFormed(s) && j < |s.matrix[0]| && j <= i <= last + 1 && last < |s.matrix| && Agree(s, s2, j)
    ensures WellFormed(s2) && |s2.matrix| == |s.matrix| && |s2.matrix[0]| == |s.matrix[0]|
    ensures Agree(ReorderFrom(s, j, i, last, retest).0, ReorderFrom(s2, j, i, last, retest).0, j)
    decreases last + 1 - i
  {
    AgreeWellFormed(s, s2, j);
    if i < last {
      assert s.matrix[i][j] == s2.matrix[i][j];
      if s.matrix[i][j] == 0.0 {
        SwapRowsAgrees(s, s2, j, i, last);
        ReorderFromAgrees(SwapRows(s, i, last), SwapRows(s2, i, last), j, if retest then i else i + 1, last - 1, retest);
      } else {
        ReorderFromAgrees(s, s2, j, i + 1, last, retest);
      }
    }
  }

  /** The elimination steps, with and without capture. */
  lemma EliminationStepsAgrees(cfg: Config, cfg2: Config, a: Matrix, b: seq<real>)
    requires cfg.pivoting == cfg2.pivoting && Admissible(a, b) && |a[0]| > 0
    ensures ResultsAgree(EliminationSteps(cfg, a, b), EliminationSteps(cfg2, a, b), Min(|a|, |a[0]|) - 1)
  {
    var end := Min(|a|, |a[0]|);
    if 2 <= end {
      var s0 := System(a, b, InitialTv(cfg.pivoting, |a[0]|));
      AgreeWellFormed(s0, s0, 0);
      EliminateFromAgrees(cfg, cfg2, s0, s0, 0, end, EliminateFrom(cfg, s0, 0, end), EliminateFrom(cfg2, s0, 0, end));
    }
  }

  lemma ReorderRowsAgrees(s: System, s2: System, end: nat, retest: bool)
    requires WellFormed(s) && 0 < end <= |s.matrix| && end <= |s.matrix[0]| && Agree(s, s2, end - 1)
    ensures Agree(ReorderRows(s, end, retest), ReorderRows(s2, end, retest), end - 1)
  {
    AgreeWellFormed(s, s2, end - 1);
    ReorderFromAgrees(s, s2, end - 1, end - 1, |s.matrix| - 1, retest);
  }

  /** The whole forward pass, with and without capture: the same failure, or
      systems that differ at most in the multiplier slots. */
  lemma ForwardEliminationAgrees(cfg: Config, cfg2: Config, a: Matrix, b: seq<real>, retest: bool)
    requires cfg.pivoting == cfg2.pivoting && Admissible(a, b)
    ensures ResultsAgree(ForwardElimination(cfg, a, b, retest), ForwardElimination(cfg2, a, b, retest), if |a[0]| == 0 then 0 else Min(|a|, |a[0]|) - 1)
  {
    if |a[0]| > 0 {
      var end := Min(|a|, |a[0]|);
      EliminationStepsAgrees(cfg, cfg2, a, b);
      var e1, e2 := EliminationSteps(cfg, a, b), EliminationSteps(cfg2, a, b);
      if e1.Success? {
        ReorderRowsAgrees(e1.value, e2.value, end, retest);
      }
    }
  }

  // ---------------------------------------------------------------------------
  // Back substitution reads nothing below the diagonal

  /** The part of a left-hand side from column j on reads only entries j.. */
  lemma {:induction false} DotFromSameTail(u: seq<real>, w: seq<real>, x: seq<real>, j: nat)
    requires |u| == |w| <= |x| && forall t :: j <= t < |u| ==> u[t] == w[t]
    ensures DotFrom(u, x, j) == DotFrom(w, x, j)
    decreases |u| - j
  {
    if j < |u| {
      DotFromSameTail(u, w, x, j + 1);
    }
  }

  lemma {:induction false} SubstituteFromAgrees(a: Matrix, a2: Matrix, x: seq<real>, i: nat, infinite: bool, shortcut: bool, k: nat)
    requires Rectangular(a) && i <= |a| && i <= |a[0]| <= |x| && SameOutside(a, a2, k)
    ensures Rectangular(a2) && |a2[0]| == |a[0]|
    ensures SubstituteFrom(a, x, i, infinite, shortcut) == SubstituteFrom(a2, x, i, infinite, shortcut)
    decreases i
  {
    if i > 0 {
      var t := i - 1;
      DotFromSameTail(a[t], a2[t], x, t + 1);
      assert a[t][t] == a2[t][t];
      assert SubstituteRow(a, x, t, shortcut) == SubstituteRow(a2, x, t, shortcut);
      if SubstituteRow(a, x, t, shortcut).Success? {
        var v := SubstituteRow(a, x, t, shortcut).value;
        SubstituteFromAgrees(a, a2, x[t := v.0], t, infinite || v.1, shortcut, k);
      }
    }
  }

  lemma {:induction false} CheckRemainingRowsAgrees(a: Matrix, a2: Matrix, x: seq<real>, last: real, i: nat, k: nat)
    requires Rectangular(a) && k < |a[0]| && |x| == |a| && i <= |a| && SameOutside(a, a2, k)
    ensures Rectangular(a2) && |a2[0]| == |a[0]|
    ensures CheckRemainingRows(a, x, last, i) == CheckRemainingRows(a2, x, last, i)
    decreases |a| - i
  {
    if i < |a| {
      assert a[i][|a[0]| - 1] == a2[i][|a[0]| - 1];
      CheckRemainingRowsAgrees(a, a2, x, last, i + 1, k);
    }
  }

  /** Back substitution on matrices that differ only in multiplier slots:
      the same error, or the same solution and flag. */
  lemma BackSubstitutionAgrees(a: Matrix, a2: Matrix, b: seq<real>, shortcut: bool, k: nat)
    requires Substitutable(a, b) && k < |a[0]| && SameOutside(a, a2, k)
    ensures Substitutable(a2, b)
    ensures BackSubstitution(a, b, shortcut).Failure? ==> BackSubstitution(a2, b, shortcut) == BackSubstitution(a, b, shortcut)
    ensures BackSubstitution(a, b, shortcut).Success? ==>
              BackSubstitution(a2, b, shortcut) == Success(BackSubstitution(a, b, shortcut).value.(matrix := a2))
  {
    var n := Unknowns(a);
    SubstituteFromAgrees(a, a2, b, n, false, shortcut, k);
    var sub := SubstituteFrom(a, b, n, false, shortcut);
    if sub.Success? {
      var x := sub.value.0;
      CheckRemainingRowsAgrees(a, a2, x, x[n - 1], n, k);
    }
  }
}
