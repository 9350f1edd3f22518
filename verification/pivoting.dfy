/**
 The five pivoting strategies. At elimination step k each one either checks or
 relocates the pivot so that the entry used as divisor sits at (k, k).
 */
module Pivoting {
  import opened Systems
  import opened Swaps

  /** The `pivoting` option; any other string is rejected at construction. */
  datatype Strategy = None | AvoidZero | Partial | Scaled | Complete

  /** A transformation vector is kept (starting as the identity) only under
      complete pivoting; the other strategies carry an empty one. */
  predicate TvFits(strategy: Strategy, tv: seq<nat>, n: nat) {
    if strategy == Complete then |tv| == n && IsPermutation(tv) else tv == []
  }

  // ---------------------------------------------------------------------------
  // Index finders

  /** The scan loop shared by the index finders: walking up from `lo`, a
      candidate replaces the best so far only when strictly greater, so the
      first of several equal maxima wins. The requires clauses are the loop
      invariants after positions lo..k-1 have been seen. */
  function ScanMax(v: seq<real>, lo: nat, best: nat, k: nat): (p: nat)
    requires lo <= best < k <= |v|
    requires forall q :: lo <= q < k ==> v[q] <= v[best]
    requires forall q :: lo <= q < best ==> v[q] < v[best]
    ensures lo <= p < |v|
    ensures forall q :: lo <= q < |v| ==> v[q] <= v[p]
    ensures forall q :: lo <= q < p ==> v[q] < v[p]
    decreases |v| - k
  {
    if k == |v| then best
    else if v[k] > v[best] then ScanMax(v, lo, k, k + 1)
    else ScanMax(v, lo, best, k + 1)
  }

  /** The first position at or after `lo` holding the greatest value. */
  function ArgMaxFrom(v: seq<real>, lo: nat): (p: nat)
    requires lo < |v|
    ensures lo <= p < |v|
    ensures forall q :: lo <= q < |v| ==> v[q] <= v[p]
    ensures forall q :: lo <= q < p ==> v[q] < v[p]
  {
    ScanMax(v, lo, lo, lo + 1)
  }

  /** |a[q][i]| for every row q. */
  function ColumnAbs(a: Matrix, i: nat): (v: seq<real>)
    requires forall q :: 0 <= q < |a| ==> i < |a[q]|
    ensures |v| == |a| && forall q :: 0 <= q < |a| ==> v[q] == Abs(a[q][i])
  {
    seq(|a|, q requires 0 <= q < |a| => Abs(a[q][i]))
  }

  /** getMaxAbsValueIndexOfColumn: the first row p in [i, m) whose entry in
      column i has the greatest absolute value. */
  function ColumnMaxIndex(a: Matrix, i: nat): (p: nat)
    requires i < |a| && forall q :: 0 <= q < |a| ==> i < |a[q]|
    ensures i <= p < |a|
    ensures forall q :: i <= q < |a| ==> Abs(a[q][i]) <= Abs(a[p][i])
    ensures forall q :: i <= q < p ==> Abs(a[q][i]) < Abs(a[p][i])
  {
    ArgMaxFrom(ColumnAbs(a, i), i)
  }

  /** getMaxAbsValueOfRow: the greatest |row[j]| over j in [i, |row|). */
  function RowMaxAbs(row: seq<real>, i: nat): (r: real)
    requires i < |row|
    ensures forall j :: i <= j < |row| ==> Abs(row[j]) <= r
  {
    var v := AbsValues(row);
    v[ArgMaxFrom(v, i)]
  }

  /** The maximum RowMaxAbs reports is the magnitude of an entry in range. */
  lemma RowMaxAbsAttained(row: seq<real>, i: nat)
    requires i < |row|
    ensures exists j :: i <= j < |row| && RowMaxAbs(row, i) == Abs(row[j])
  {
    var v := AbsValues(row);
    var p := ArgMaxFrom(v, i);
    assert RowMaxAbs(row, i) == Abs(row[p]);
  }

  /** |row[j]| for every column j. */
  function AbsValues(row: seq<real>): (v: seq<real>)
    ensures |v| == |row| && forall j :: 0 <= j < |row| ==> v[j] == Abs(row[j])
  {
    seq(|row|, j requires 0 <= j < |row| => Abs(row[j]))
  }

  /** A magnitude divided by a non-zero magnitude at least as large. */
  lemma RatioBounds(x: real, y: real)
    requires 0.0 <= x <= y && y != 0.0
    ensures 0.0 <= x / y <= 1.0
    ensures x / y == 0.0 <==> x == 0.0
  {
  }

  /** getScaledValue: |row[i]| relative to the largest magnitude in
      row[i..]; zero when that whole range is zero. */
  function ScaledValue(row: seq<real>, i: nat): (s: real)
    requires i < |row|
    ensures 0.0 <= s <= 1.0
    ensures s == 0.0 <==> row[i] == 0.0
    ensures RowMaxAbs(row, i) == 0.0 ==> s == 0.0
    ensures RowMaxAbs(row, i) != 0.0 ==> s == Abs(row[i]) / RowMaxAbs(row, i)
  {
    var maxAbs, x := RowMaxAbs(row, i), Abs(row[i]);
    assert x == 0.0 <==> row[i] == 0.0;
    if maxAbs == 0.0 then maxAbs
    else
      RatioBounds(x, maxAbs);
      x / maxAbs
  }

  /** ScaledValue(a[q], i) for every row q. */
  function ColumnScaled(a: Matrix, i: nat): (v: seq<real>)
    requires forall q :: 0 <= q < |a| ==> i < |a[q]|
    ensures |v| == |a| && forall q :: 0 <= q < |a| ==> v[q] == ScaledValue(a[q], i)
  {
    seq(|a|, q requires 0 <= q < |a| => ScaledValue(a[q], i))
  }

  /** getBestScaledRowIndex: the first row p in [i, m) with the greatest
      scaled value in column i. */
  function BestScaledRowIndex(a: Matrix, i: nat): (p: nat)
    requires i < |a| && forall q :: 0 <= q < |a| ==> i < |a[q]|
    ensures i <= p < |a|
    ensures forall q :: i <= q < |a| ==> ScaledValue(a[q], i) <= ScaledValue(a[p], i)
    ensures forall q :: i <= q < p ==> ScaledValue(a[q], i) < ScaledValue(a[p], i)
  {
    ArgMaxFrom(ColumnScaled(a, i), i)
  }

  /** Order in which the complete-pivoting search from step k visits the
      trailing sub-matrix: column k top-down first, then the columns to its
      right row by row. (x, y) comes strictly before (p, q). */
  predicate ScanBefore(k: nat, x: nat, y: nat, p: nat, q: nat) {
    if y == k then q != k || x < p
    else q != k && (x < p || (x == p && y < q))
  }

  /** The second loop of getMaxAbsValueIndexOfMatrix, over rows k..m-1 and
      columns k+1..n-1; (bp, bq) is the best position so far. The requires
      clauses are the loop invariants. */
  function SubmatrixScan(a: Matrix, k: nat, i: nat, j: nat, bp: nat, bq: nat): (r: (nat, nat))
    requires |a| > 0 && Shape(a, |a|, |a[0]|) && k < |a| && k < |a[0]|
    requires k <= i <= |a| && k + 1 <= j <= |a[0]|
    // positions seen so far: all of column k, rows above i, row i left of j
    requires k <= bp < |a| && k <= bq < |a[0]| && (bq == k || bp < i || (bp == i && bq < j))
    requires forall x, y :: k <= x < |a| && k <= y < |a[0]| && (y == k || x < i || (x == i && y < j)) ==>
               Abs(a[x][y]) <= Abs(a[bp][bq])
    requires forall x, y :: k <= x < |a| && k <= y < |a[0]| && ScanBefore(k, x, y, bp, bq) ==>
               Abs(a[x][y]) < Abs(a[bp][bq])
    ensures k <= r.0 < |a| && k <= r.1 < |a[0]|
    ensures forall x, y :: k <= x < |a| && k <= y < |a[0]| ==> Abs(a[x][y]) <= Abs(a[r.0][r.1])
    ensures forall x, y :: k <= x < |a| && k <= y < |a[0]| && ScanBefore(k, x, y, r.0, r.1) ==>
              Abs(a[x][y]) < Abs(a[r.0][r.1])
    decreases |a| - i, |a[0]| - j
  {
    if i == |a| then (bp, bq)
    else if j == |a[0]| then SubmatrixScan(a, k, i + 1, k + 1, bp, bq)
    else if Abs(a[i][j]) > Abs(a[bp][bq]) then SubmatrixScan(a, k, i, j + 1, i, j)
    else SubmatrixScan(a, k, i, j + 1, bp, bq)
  }

  /** getMaxAbsValueIndexOfMatrix: the position (p, q) of a largest
      magnitude in rows k..m-1 × columns k..n-1, the first one in scan order.
      A maximum in column k always wins, so a row swap is preferred to a
      column swap. */
  function MatrixMaxIndex(a: Matrix, k: nat): (r: (nat, nat))
    requires |a| > 0 && Shape(a, |a|, |a[0]|) && k < |a| && k < |a[0]|
    ensures k <= r.0 < |a| && k <= r.1 < |a[0]|
    ensures forall x, y :: k <= x < |a| && k <= y < |a[0]| ==> Abs(a[x][y]) <= Abs(a[r.0][r.1])
    ensures forall x, y :: k <= x < |a| && k <= y < |a[0]| && ScanBefore(k, x, y, r.0, r.1) ==>
              Abs(a[x][y]) < Abs(a[r.0][r.1])
    ensures (exists x :: k <= x < |a| && Abs(a[x][k]) == Abs(a[r.0][r.1])) ==> r.1 == k
  {
    var p := ColumnMaxIndex(a, k);
    var r := SubmatrixScan(a, k, k, k + 1, p, k);
    assert r.1 != k ==> forall x :: k <= x < |a| ==> ScanBefore(k, x, k, r.0, r.1);
    r
  }

  // ---------------------------------------------------------------------------
  // Strategies

  /** partialPivoting: bring the largest magnitude of column k (rows k..m-1)
      up to row k. */
  function PartialPivot(s: System, k: nat): (r: System)
    requires WellFormed(s) && k < |s.matrix| && k < |s.matrix[0]|
    ensures Dims(r, |s.matrix|, |s.matrix[0]|) && r.tv == s.tv
    ensures exists p :: k <= p < |s.matrix| && r == SwapRows(s, k, p)
    ensures forall q :: k <= q < |s.matrix| ==> Abs(r.matrix[q][k]) <= Abs(r.matrix[k][k])
    ensures ZeroBelow(s.matrix, k) ==> ZeroBelow(r.matrix, k)
  {
    var p := ColumnMaxIndex(s.matrix, k);
    var r := SwapRows(s, k, p);
    assert forall q :: k <= q < |s.matrix| && q != k && q != p ==> r.matrix[q] == s.matrix[q];
    SwapRowsKeepsZeroBelow(s, k, k, p);
    r
  }

  /** scaledPivoting: bring the row whose column-k entry is largest relative
      to the rest of that row up to row k; afterwards no row at or below k
      has a greater scaled value in column k than the pivot row. */
  function ScaledPivot(s: System, k: nat): (r: System)
    requires WellFormed(s) && k < |s.matrix| && k < |s.matrix[0]|
    ensures Dims(r, |s.matrix|, |s.matrix[0]|) && r.tv == s.tv
    ensures exists p :: k <= p < |s.matrix| && r == SwapRows(s, k, p)
    ensures forall q :: k <= q < |s.matrix| ==> ScaledValue(r.matrix[q], k) <= ScaledValue(r.matrix[k], k)
    ensures ZeroBelow(s.matrix, k) ==> ZeroBelow(r.matrix, k)
  {
    var p := BestScaledRowIndex(s.matrix, k);
    SwapBringsBestScaled(s, k, p);
    SwapRowsKeepsZeroBelow(s, k, k, p);
    SwapRows(s, k, p)
  }

  /** Swapping the best-scaled row p up to row k leaves no row at or below k
      with a greater scaled value than row k. */
  lemma SwapBringsBestScaled(s: System, k: nat, p: nat)
    requires WellFormed(s) && k <= p < |s.matrix| && k < |s.matrix[0]|
    requires forall q :: k <= q < |s.matrix| ==> ScaledValue(s.matrix[q], k) <= ScaledValue(s.matrix[p], k)
    ensures var r := SwapRows(s, k, p);
            forall q :: k <= q < |s.matrix| ==> ScaledValue(r.matrix[q], k) <= ScaledValue(r.matrix[k], k)
  {
    var r := SwapRows(s, k, p);
    forall q | k <= q < |s.matrix|
      ensures ScaledValue(r.matrix[q], k) <= ScaledValue(r.matrix[k], k)
    {
      assert r.matrix[q] == s.matrix[Swapped(q, k, p)];
    }
  }

  /** Exchanging two rows at or below row k keeps columns 0..k-1 clear below
      the diagonal: both rows are zero there. */
  lemma SwapRowsKeepsZeroBelow(s: System, k: nat, i: nat, p: nat)
    requires WellFormed(s) && k <= i < |s.matrix| && k <= p < |s.matrix|
    ensures ZeroBelow(s.matrix, k) ==> ZeroBelow(SwapRows(s, i, p).matrix, k)
  {
    var r := SwapRows(s, i, p);
    if ZeroBelow(s.matrix, k) {
      forall t, c | 0 <= c < k && c < t < |r.matrix| && c < |r.matrix[t]|
        ensures r.matrix[t][c] == 0.0
      {
        assert r.matrix[t] == s.matrix[Swapped(t, i, p)];
      }
    }
  }

  /** completePivoting: bring the largest magnitude of the trailing
      sub-matrix to (k, k) by a row swap followed by a column swap. */
  function CompletePivot(s: System, k: nat): (r: System)
    requires WellFormed(s) && k < |s.matrix| && k < |s.matrix[0]| && |s.tv| == |s.matrix[0]|
    ensures Dims(r, |s.matrix|, |s.matrix[0]|) && |r.tv| == |s.tv|
    ensures exists p, q :: k <= p < |s.matrix| && k <= q < |s.matrix[0]| && r == SwapColumns(SwapRows(s, k, p), k, q)
    ensures forall x, y :: k <= x < |s.matrix| && k <= y < |s.matrix[0]| ==> Abs(r.matrix[x][y]) <= Abs(r.matrix[k][k])
    ensures IsPermutation(s.tv) ==> IsPermutation(r.tv)
    ensures ZeroBelow(s.matrix, k) ==> ZeroBelow(r.matrix, k)
  {
    var pq := MatrixMaxIndex(s.matrix, k);
    SwapRowThenColumn(s, k, pq.0, pq.1);
    SwapColumns(SwapRows(s, k, pq.0), k, pq.1)
  }

  /** After a row swap (k, p) and a column swap (k, q), entry (x, y) is the
      old entry at the swapped row and column indices. */
  lemma SwapRowThenColumnEntries(s: System, k: nat, p: nat, q: nat)
    requires WellFormed(s) && k <= p < |s.matrix| && k <= q < |s.matrix[0]| && |s.tv| == |s.matrix[0]|
    ensures Dims(SwapRows(s, k, p), |s.matrix|, |s.matrix[0]|)
    ensures var r := SwapColumns(SwapRows(s, k, p), k, q);
            && Dims(r, |s.matrix|, |s.matrix[0]|)
            && forall x, y :: 0 <= x < |s.matrix| && 0 <= y < |s.matrix[0]| ==>
                 r.matrix[x][y] == s.matrix[Swapped(x, k, p)][Swapped(y, k, q)]
  {
    var m, n := |s.matrix|, |s.matrix[0]|;
    var s1 := SwapRows(s, k, p);
    forall t | 0 <= t < m
      ensures s1.matrix[t] == s.matrix[Swapped(t, k, p)]
    {
    }
    assert Dims(s1, m, n);
    var r := SwapColumns(s1, k, q);
    forall x, y | 0 <= x < m && 0 <= y < n
      ensures r.matrix[x][y] == s.matrix[Swapped(x, k, p)][Swapped(y, k, q)]
    {
      assert r.matrix[x][y] == s1.matrix[x][Swapped(y, k, q)];
    }
  }

  /** Moving the sub-matrix maximum (p, q) to (k, k) by a row swap and a
      column swap: the result is still an m × n system, its (k, k) entry
      dominates the trailing sub-matrix, and columns left of k keep their
      zeros below the diagonal. */
  lemma SwapRowThenColumn(s: System, k: nat, p: nat, q: nat)
    requires WellFormed(s) && k <= p < |s.matrix| && k <= q < |s.matrix[0]| && |s.tv| == |s.matrix[0]|
    requires forall x, y :: k <= x < |s.matrix| && k <= y < |s.matrix[0]| ==> Abs(s.matrix[x][y]) <= Abs(s.matrix[p][q])
    ensures Dims(SwapRows(s, k, p), |s.matrix|, |s.matrix[0]|)
    ensures var r := SwapColumns(SwapRows(s, k, p), k, q);
            && Dims(r, |s.matrix|, |s.matrix[0]|)
            && (forall x, y :: k <= x < |s.matrix| && k <= y < |s.matrix[0]| ==> Abs(r.matrix[x][y]) <= Abs(r.matrix[k][k]))
            && (ZeroBelow(s.matrix, k) ==> ZeroBelow(r.matrix, k))
  {
    var m, n := |s.matrix|, |s.matrix[0]|;
    SwapRowThenColumnEntries(s, k, p, q);
    var r := SwapColumns(SwapRows(s, k, p), k, q);
    assert r.matrix[k][k] == s.matrix[p][q];
    forall x, y | k <= x < m && k <= y < n
      ensures Abs(r.matrix[x][y]) <= Abs(r.matrix[k][k])
    {
      assert r.matrix[x][y] == s.matrix[Swapped(x, k, p)][Swapped(y, k, q)];
    }
    if ZeroBelow(s.matrix, k) {
      forall i, c | 0 <= c < k && c < i < m && c < |r.matrix[i]|
        ensures r.matrix[i][c] == 0.0
      {
        assert r.matrix[i][c] == s.matrix[Swapped(i, k, p)][Swapped(c, k, q)];
      }
    }
  }

  /** One pivoting step, dispatched on the configured strategy. Only `None`
      can fail, and it never moves anything. */
  function Pivot(strategy: Strategy, s: System, k: nat): (r: Result<System>)
    requires WellFormed(s) && k < |s.matrix| && k < |s.matrix[0]|
    requires TvFits(strategy, s.tv, |s.matrix[0]|)
    ensures strategy == None ==> (r.Failure? <==> s.matrix[k][k] == 0.0)
    ensures strategy == None && r.Success? ==> r.value == s
    ensures r.Failure? ==> strategy == None && r.error == ZeroPivot(k)
    ensures strategy == AvoidZero && s.matrix[k][k] != 0.0 ==> r == Success(s)
    ensures strategy == AvoidZero && s.matrix[k][k] == 0.0 ==> r == Success(PartialPivot(s, k))
    ensures r.Success? ==> Dims(r.value, |s.matrix|, |s.matrix[0]|) && TvFits(strategy, r.value.tv, |s.matrix[0]|)
    ensures r.Success? && ZeroBelow(s.matrix, k) ==> ZeroBelow(r.value.matrix, k)
  {
    match strategy
    case None =>
      if s.matrix[k][k] == 0.0 then Failure(ZeroPivot(k)) else Success(s)
    case AvoidZero =>
      if s.matrix[k][k] == 0.0 then Success(PartialPivot(s, k)) else Success(s)
    case Partial =>
      Success(PartialPivot(s, k))
    case Scaled =>
      Success(ScaledPivot(s, k))
    case Complete =>
      Success(CompletePivot(s, k))
  }

  /** A pivot that is still zero after pivoting means column k is zero from
      row k down, and nothing was moved: every strategy that moves anything
      picks the first largest entry (or scaled value), and when that is zero
      the first one is the entry at (k, k) itself. */
  lemma ZeroPivotMeansZeroColumn(strategy: Strategy, s: System, k: nat)
    requires WellFormed(s) && k < |s.matrix| && k < |s.matrix[0]|
    requires TvFits(strategy, s.tv, |s.matrix[0]|)
    requires Pivot(strategy, s, k).Success? && Pivot(strategy, s, k).value.matrix[k][k] == 0.0
    ensures Pivot(strategy, s, k).value == s
    ensures forall q :: k <= q < |s.matrix| ==> s.matrix[q][k] == 0.0
  {
    var r := Pivot(strategy, s, k).value;
    match strategy
    case None =>
    case AvoidZero =>
      assert r == PartialPivot(s, k);
      FirstMaxIsPivotRow(s, k);
    case Partial =>
      FirstMaxIsPivotRow(s, k);
    case Scaled =>
      assert r == ScaledPivot(s, k);
      FirstScaledIsPivotRow(s, k);
    case Complete =>
      assert r == CompletePivot(s, k);
      FirstCellIsPivot(s, k);
  }

  /** Partial pivoting on a zero column: the first largest magnitude is the
      one in row k, so no row moves. */
  lemma FirstMaxIsPivotRow(s: System, k: nat)
    requires WellFormed(s) && k < |s.matrix| && k < |s.matrix[0]|
    requires PartialPivot(s, k).matrix[k][k] == 0.0
    ensures PartialPivot(s, k) == s
    ensures forall q :: k <= q < |s.matrix| ==> s.matrix[q][k] == 0.0
  {
    var p := ColumnMaxIndex(s.matrix, k);
    assert PartialPivot(s, k) == SwapRows(s, k, p);
    assert Abs(s.matrix[p][k]) == 0.0 <= Abs(s.matrix[k][k]);
    assert p == k;
    forall q | k <= q < |s.matrix|
      ensures s.matrix[q][k] == 0.0
    {
      assert Abs(s.matrix[q][k]) <= Abs(s.matrix[p][k]);
    }
  }

  /** Scaled pivoting on a zero column: every scaled value is zero, so the
      first best one is row k's and no row moves. */
  lemma FirstScaledIsPivotRow(s: System, k: nat)
    requires WellFormed(s) && k < |s.matrix| && k < |s.matrix[0]|
    requires ScaledPivot(s, k).matrix[k][k] == 0.0
    ensures ScaledPivot(s, k) == s
    ensures forall q :: k <= q < |s.matrix| ==> s.matrix[q][k] == 0.0
  {
    var p := BestScaledRowIndex(s.matrix, k);
    assert ScaledPivot(s, k) == SwapRows(s, k, p);
    assert ScaledValue(s.matrix[p], k) == 0.0 <= ScaledValue(s.matrix[k], k);
    assert p == k;
    forall q | k <= q < |s.matrix|
      ensures s.matrix[q][k] == 0.0
    {
      assert ScaledValue(s.matrix[q], k) <= ScaledValue(s.matrix[p], k);
    }
  }

  /** Complete pivoting on a zero trailing sub-matrix: the first cell in scan
      order is (k, k), so neither a row nor a column moves. */
  lemma FirstCellIsPivot(s: System, k: nat)
    requires WellFormed(s) && k < |s.matrix| && k < |s.matrix[0]| && |s.tv| == |s.matrix[0]|
    requires CompletePivot(s, k).matrix[k][k] == 0.0
    ensures CompletePivot(s, k) == s
    ensures forall q :: k <= q < |s.matrix| ==> s.matrix[q][k] == 0.0
  {
    var pq := MatrixMaxIndex(s.matrix, k);
    SwapRowThenColumnEntries(s, k, pq.0, pq.1);
    assert CompletePivot(s, k) == SwapColumns(SwapRows(s, k, pq.0), k, pq.1);
    assert Abs(s.matrix[pq.0][pq.1]) == 0.0;
    assert !ScanBefore(k, k, k, pq.0, pq.1) by {
      assert 0.0 <= Abs(s.matrix[k][k]);
    }
    assert pq == (k, k);
    forall q | k <= q < |s.matrix|
      ensures s.matrix[q][k] == 0.0
    {
      assert Abs(s.matrix[q][k]) <= Abs(s.matrix[pq.0][pq.1]);
    }
  }

  /** Pivoting only reorders equations and renames unknowns: x solves the
      system before the step, read in that system's column order, exactly
      when it solves the pivoted system read in the pivoted column order. */
  lemma PivotKeepsSolutions(strategy: Strategy, s: System, k: nat, x: seq<real>)
    requires WellFormed(s) && k < |s.matrix| && k < |s.matrix[0]|
    requires TvFits(strategy, s.tv, |s.matrix[0]|) && |x| == |s.matrix[0]|
    requires Pivot(strategy, s, k).Success?
    ensures var r := Pivot(strategy, s, k).value;
            (SolvedBy(s, x) <==> SolvedBy(r, x))
  {
    var y := Permute(x, Coordinates(s.tv, |x|));
    match strategy
    case None =>
    case AvoidZero =>
      if s.matrix[k][k] == 0.0 {
        SwapRowsKeepsSolutions(s, k, ColumnMaxIndex(s.matrix, k), y);
      }
    case Partial =>
      SwapRowsKeepsSolutions(s, k, ColumnMaxIndex(s.matrix, k), y);
    case Scaled =>
      SwapRowsKeepsSolutions(s, k, BestScaledRowIndex(s.matrix, k), y);
    case Complete =>
      var pq := MatrixMaxIndex(s.matrix, k);
      RowThenColumnSwapKeepsSolutions(s, k, pq.0, pq.1, x);
  }

  /** The complete-pivoting case of PivotKeepsSolutions. */
  lemma RowThenColumnSwapKeepsSolutions(s: System, k: nat, p: nat, q: nat, x: seq<real>)
    requires WellFormed(s) && k <= p < |s.matrix| && k <= q < |s.matrix[0]|
    requires |x| == |s.tv| == |s.matrix[0]| && IsPermutation(s.tv)
    ensures var r := SwapColumns(SwapRows(s, k, p), k, q);
            (Solves(s.matrix, s.result, Permute(x, s.tv)) <==> Solves(r.matrix, r.result, Permute(x, r.tv)))
  {
    var n := |x|;
    var y := Permute(x, s.tv);
    var s1 := SwapRows(s, k, p);
    var r := SwapColumns(s1, k, q);
    SwapRowsKeepsSolutions(s, k, p, y);
    assert forall t :: 0 <= t < |s1.matrix| ==> |s1.matrix[t]| == n;
    SwapColumnsKeepsSolutions(s1, k, q, y);
    assert r.tv == SwapPlaces(s.tv, k, q);
    PermuteSwap(x, s.tv, k, q);
  }
}
