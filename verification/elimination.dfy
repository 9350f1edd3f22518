/**
 Forward elimination: for k = 0 .. min(m, n) - 2, pivot, then subtract
 multiples of row k from every row below it; finally move rows whose entry in
 the last pivot column is zero towards the bottom.
 */
module Elimination {
  import opened Systems
  import opened Swaps
  import opened Pivoting

  /** The instance options the engine reads: the pivoting strategy and
      whether multipliers are kept in the lower triangle (LU capture). */
  datatype Config = Config(pivoting: Strategy, lu: bool)

  /** The transformation vector a forward pass starts with: the identity
      under complete pivoting, empty otherwise. */
  function InitialTv(strategy: Strategy, n: nat): (tv: seq<nat>)
    ensures TvFits(strategy, tv, n)
  {
    if strategy == Complete then Identity(n) else []
  }

  // ---------------------------------------------------------------------------
  // One elimination step

  /** Row i after subtracting `mult` times the pivot row from column k on;
      slot k receives the multiplier when `lu` is set and zero otherwise. */
  function ReduceRow(row: seq<real>, pivotRow: seq<real>, k: nat, mult: real, lu: bool): (r: seq<real>)
    requires |row| == |pivotRow| && k < |row|
    ensures |r| == |row|
    ensures forall j :: 0 <= j < k ==> r[j] == row[j]
    ensures r[k] == (if lu then mult else 0.0)
    ensures forall j :: k < j < |row| ==> r[j] == row[j] - mult * pivotRow[j]
  {
    seq(|row|, j requires 0 <= j < |row| =>
      if j < k then row[j]
      else if j == k then (if lu then mult else 0.0)
      else row[j] - mult * pivotRow[j])
  }

  /** Eliminates column k below a non-zero pivot: rows 0..k and their
      right-hand sides stay as they are; each lower row i loses
      a[i][k]/a[k][k] times row k, and so does its right-hand side. */
  function EliminateColumn(s: System, k: nat, lu: bool): (r: System)
    requires WellFormed(s) && k < |s.matrix| && k < |s.matrix[0]| && s.matrix[k][k] != 0.0
    ensures Dims(r, |s.matrix|, |s.matrix[0]|) && r.tv == s.tv
    ensures forall i :: 0 <= i <= k ==> r.matrix[i] == s.matrix[i] && r.result[i] == s.result[i]
    ensures !lu ==> forall i :: k < i < |s.matrix| ==> r.matrix[i][k] == 0.0
    ensures !lu && ZeroBelow(s.matrix, k) ==> ZeroBelow(r.matrix, k + 1)
  {
    var a, b, pivot := s.matrix, s.result, s.matrix[k][k];
    System(
      seq(|a|, i requires 0 <= i < |a| =>
        if i <= k then a[i] else ReduceRow(a[i], a[k], k, a[i][k] / pivot, lu)),
      seq(|a|, i requires 0 <= i < |a| =>
        if i <= k then b[i] else b[i] - a[i][k] / pivot * b[k]),
      s.tv)
  }

  /** Once the pivot equation v·x = bv holds, the reduced equation holds
      exactly when the original one u·x = bu does — given that the pivot row
      is zero left of k and c is the multiplier u[k] / v[k]. */
  lemma ReducedEquation(u: seq<real>, v: seq<real>, x: seq<real>, bu: real, bv: real, k: nat, c: real)
    requires |u| == |v| == |x| && k < |u| && c * v[k] == u[k]
    requires forall j :: 0 <= j < k ==> v[j] == 0.0
    ensures Dot(v, x) == bv ==>
              (Dot(u, x) == bu <==> Dot(ReduceRow(u, v, k, c, false), x) == bu - c * bv)
  {
    var w := ReduceRow(u, v, k, c, false);
    forall t | 0 <= t < |w|
      ensures w[t] == u[t] - c * v[t]
    {
      if t < k {
        assert v[t] == 0.0 && w[t] == u[t];
      } else if t == k {
        assert w[t] == 0.0 == u[t] - c * v[t];
      }
    }
    DotFromCombination(u, v, w, x, c, 0);
    if Dot(v, x) == bv {
      assert Dot(w, x) == Dot(u, x) - c * bv;
    }
  }

  /** Row i below the pivot after elimination, and its right-hand side. */
  lemma EliminatedRow(s: System, k: nat, i: nat, lu: bool)
    requires WellFormed(s) && k < i < |s.matrix| && k < |s.matrix[0]| && s.matrix[k][k] != 0.0
    ensures var r, c := EliminateColumn(s, k, lu), s.matrix[i][k] / s.matrix[k][k];
            && r.matrix[i] == ReduceRow(s.matrix[i], s.matrix[k], k, c, lu)
            && r.result[i] == s.result[i] - c * s.result[k]
  {
    EliminatedResult(s, k, i, lu);
  }

  /** The right-hand side of row i below the pivot after elimination. */
  lemma EliminatedResult(s: System, k: nat, i: nat, lu: bool)
    requires WellFormed(s) && k < i < |s.matrix| && k < |s.matrix[0]| && s.matrix[k][k] != 0.0
    ensures EliminateColumn(s, k, lu).result[i] == s.result[i] - s.matrix[i][k] / s.matrix[k][k] * s.result[k]
  {
  }

  /** Row i of the eliminated system, against the pivot equation. */
  lemma EliminatedRowEquation(s: System, k: nat, i: nat, x: seq<real>)
    requires WellFormed(s) && k < i < |s.matrix| && k < |s.matrix[0]| && s.matrix[k][k] != 0.0
    requires forall j :: 0 <= j < k ==> s.matrix[k][j] == 0.0
    requires |x| == |s.matrix[0]|
    ensures var r := EliminateColumn(s, k, false);
            Dot(s.matrix[k], x) == s.result[k] ==>
              (Dot(s.matrix[i], x) == s.result[i] <==> Dot(r.matrix[i], x) == r.result[i])
  {
    var u, v := s.matrix[i], s.matrix[k];
    var c := u[k] / v[k];
    assert c * v[k] == u[k];
    EliminatedRow(s, k, i, false);
    ReducedEquation(u, v, x, s.result[i], s.result[k], k, c);
  }

  /** Without LU capture, eliminating a column replaces each lower row by
      itself minus a multiple of the pivot row, so the solutions do not
      change — given that the pivot row is already zero left of the pivot. */
  lemma EliminateColumnKeepsSolutions(s: System, k: nat, x: seq<real>)
    requires WellFormed(s) && k < |s.matrix| && k < |s.matrix[0]| && s.matrix[k][k] != 0.0
    requires forall j :: 0 <= j < k ==> s.matrix[k][j] == 0.0
    requires |x| == |s.matrix[0]|
    ensures var r := EliminateColumn(s, k, false);
            Solves(s.matrix, s.result, x) <==> Solves(r.matrix, r.result, x)
  {
    var r := EliminateColumn(s, k, false);
    var a, b := s.matrix, s.result;
    SolvesEveryRow(a, b, x);
    SolvesEveryRow(r.matrix, r.result, x);
    assert r.matrix[k] == a[k] && r.result[k] == b[k];
    if Dot(a[k], x) == b[k] {
      forall i | 0 <= i < |a|
        ensures |a[i]| == |r.matrix[i]| == |x|
        ensures Dot(a[i], x) == b[i] <==> Dot(r.matrix[i], x) == r.result[i]
      {
        if k < i {
          EliminatedRowEquation(s, k, i, x);
        }
      }
    }
  }

  /** One iteration of the k loop: pivot, then eliminate unless the pivot is
      still zero, in which case column k is skipped. */
  function Step(cfg: Config, s: System, k: nat): (r: Result<System>)
    requires WellFormed(s) && k < |s.matrix| && k < |s.matrix[0]| && TvFits(cfg.pivoting, s.tv, |s.matrix[0]|)
    ensures r.Failure? <==> cfg.pivoting == None && s.matrix[k][k] == 0.0
    ensures r.Failure? ==> r.error == ZeroPivot(k)
    ensures r.Success? ==> Dims(r.value, |s.matrix|, |s.matrix[0]|) && TvFits(cfg.pivoting, r.value.tv, |s.matrix[0]|)
    ensures r.Success? && !cfg.lu ==> forall i :: k < i < |s.matrix| ==> r.value.matrix[i][k] == 0.0
    ensures r.Success? && !cfg.lu && ZeroBelow(s.matrix, k) ==> ZeroBelow(r.value.matrix, k + 1)
  {
    match Pivot(cfg.pivoting, s, k)
    case Failure(e) => Failure(e)
    case Success(p) =>
      if p.matrix[k][k] == 0.0 then
        ZeroPivotMeansZeroColumn(cfg.pivoting, s, k);
        assert ZeroBelow(s.matrix, k) ==> ZeroBelow(p.matrix, k + 1);
        Success(p)
      else
        Success(EliminateColumn(p, k, cfg.lu))
  }

  /** A step whose pivot is still zero after pivoting skips column k: the
      whole column from row k down is zero and the system comes back as it
      went in, rows, right-hand side and transposition vector alike. */
  lemma StepSkipsZeroColumn(cfg: Config, s: System, k: nat)
    requires WellFormed(s) && k < |s.matrix| && k < |s.matrix[0]| && TvFits(cfg.pivoting, s.tv, |s.matrix[0]|)
    ensures var r := Step(cfg, s, k);
            r.Success? && r.value.matrix[k][k] == 0.0 ==>
              r == Success(s) && forall i :: k <= i < |s.matrix| ==> s.matrix[i][k] == 0.0
  {
    var q := Pivot(cfg.pivoting, s, k);
    if q.Success? && q.value.matrix[k][k] == 0.0 {
      ZeroPivotMeansZeroColumn(cfg.pivoting, s, k);
    }
  }

  /** Without LU capture a step keeps the solutions, read in the current
      column order. */
  lemma StepKeepsSolutions(cfg: Config, s: System, k: nat, x: seq<real>)
    requires WellFormed(s) && k < |s.matrix| && k < |s.matrix[0]| && TvFits(cfg.pivoting, s.tv, |s.matrix[0]|)
    requires !cfg.lu && ZeroBelow(s.matrix, k) && |x| == |s.matrix[0]|
    requires cfg.pivoting != None || s.matrix[k][k] != 0.0
    ensures var r := Step(cfg, s, k).value;
            (SolvedBy(s, x) <==> SolvedBy(r, x))
  {
    var p := Pivot(cfg.pivoting, s, k).value;
    PivotKeepsSolutions(cfg.pivoting, s, k, x);
    if p.matrix[k][k] != 0.0 {
      EliminateColumnKeepsSolutions(p, k, Permute(x, Coordinates(p.tv, |x|)));
    }
  }

  // ---------------------------------------------------------------------------
  // The k loop

  /** Steps k, k+1, ... while k < end - 1 (the k loop of _forwardElimination); stops at the first
      failure. */
  function EliminateFrom(cfg: Config, s: System, k: nat, end: nat): (r: Result<System>)
    requires WellFormed(s) && end <= |s.matrix| && end <= |s.matrix[0]|
    requires TvFits(cfg.pivoting, s.tv, |s.matrix[0]|)
    ensures r.Success? ==> Dims(r.value, |s.matrix|, |s.matrix[0]|) && TvFits(cfg.pivoting, r.value.tv, |s.matrix[0]|)
    ensures r.Failure? ==> cfg.pivoting == None && r.error.ZeroPivot? && k <= r.error.step && r.error.step + 1 < end
    ensures cfg.pivoting != None ==> r.Success?
    ensures r.Success? && !cfg.lu && ZeroBelow(s.matrix, k) && k < end ==> ZeroBelow(r.value.matrix, end - 1)
    decreases end - k, 1
  {
    if k + 1 >= end then Success(s) else Iteration(cfg, s, k, end)
  }

  /** One pass of the k loop: step k, then the rest of the loop. */
  function Iteration(cfg: Config, s: System, k: nat, end: nat): (r: Result<System>)
    requires WellFormed(s) && k + 1 < end <= |s.matrix| && end <= |s.matrix[0]|
    requires TvFits(cfg.pivoting, s.tv, |s.matrix[0]|)
    ensures r.Success? ==> Dims(r.value, |s.matrix|, |s.matrix[0]|) && TvFits(cfg.pivoting, r.value.tv, |s.matrix[0]|)
    ensures r.Failure? ==> cfg.pivoting == None && r.error.ZeroPivot? && k <= r.error.step && r.error.step + 1 < end
    ensures cfg.pivoting != None ==> r.Success?
    ensures r.Success? && !cfg.lu && ZeroBelow(s.matrix, k) ==> ZeroBelow(r.value.matrix, end - 1)
    decreases end - k, 0
  {
    match Step(cfg, s, k)
    case Failure(e) => Failure(e)
    case Success(s') => EliminateFrom(cfg, s', k + 1, end)
  }

  lemma {:induction false} EliminateFromKeepsSolutions(cfg: Config, s: System, k: nat, end: nat, x: seq<real>)
    requires WellFormed(s) && end <= |s.matrix| && end <= |s.matrix[0]|
    requires TvFits(cfg.pivoting, s.tv, |s.matrix[0]|)
    requires !cfg.lu && ZeroBelow(s.matrix, k) && |x| == |s.matrix[0]|
    requires EliminateFrom(cfg, s, k, end).Success?
    ensures var r := EliminateFrom(cfg, s, k, end).value;
            (SolvedBy(s, x) <==> SolvedBy(r, x))
    decreases end - k
  {
    if k + 1 < end {
      var s' := EliminateFromUnfold(cfg, s, k, end, x);
      EliminateFromKeepsSolutions(cfg, s', k + 1, end, x);
      assert EliminateFrom(cfg, s, k, end).value == EliminateFrom(cfg, s', k + 1, end).value;
    } else {
      assert EliminateFrom(cfg, s, k, end) == Success(s);
    }
  }

  lemma EliminateFromUnfold(cfg: Config, s: System, k: nat, end: nat, x: seq<real>) returns (s': System)
    requires WellFormed(s) && end <= |s.matrix| && end <= |s.matrix[0]|
    requires TvFits(cfg.pivoting, s.tv, |s.matrix[0]|)
    requires !cfg.lu && ZeroBelow(s.matrix, k) && |x| == |s.matrix[0]|
    requires k + 1 < end && EliminateFrom(cfg, s, k, end).Success?
    ensures WellFormed(s') && |s'.matrix| == |s.matrix| && |s'.matrix[0]| == |s.matrix[0]|
    ensures TvFits(cfg.pivoting, s'.tv, |s.matrix[0]|) && ZeroBelow(s'.matrix, k + 1)
    ensures EliminateFrom(cfg, s, k, end) == EliminateFrom(cfg, s', k + 1, end)
    ensures SolvedBy(s, x) <==> SolvedBy(s', x)
  {
    s' := Step(cfg, s, k).value;
    StepKeepsSolutions(cfg, s, k, x);
  }

  // ---------------------------------------------------------------------------
  // Moving zero rows down

  /** The loop of reorderRows from position i, with `last` the current end of
      the active rows: a row whose entry in column j is zero is exchanged with
      row `last`, which then leaves the active rows. As written (`retest`
      false) the row brought into position i is not looked at again; with
      `retest` it is checked before i moves on. Returns the system and the
      final value of `last`. */
  function ReorderFrom(s: System, j: nat, i: nat, last: nat, retest: bool): (r: (System, nat))
    requires WellFormed(s) && j < |s.matrix[0]| && j <= i <= last + 1 && last < |s.matrix|
    ensures Dims(r.0, |s.matrix|, |s.matrix[0]|) && r.0.tv == s.tv && r.1 <= last
    ensures forall t :: 0 <= t < i ==> r.0.matrix[t] == s.matrix[t] && r.0.result[t] == s.result[t]
    decreases last + 1 - i
  {
    if i >= last then (s, last)
    else if s.matrix[i][j] == 0.0 then
      var s' := SwapRows(s, i, last);
      assert Dims(s', |s.matrix|, |s.matrix[0]|);
      ReorderFrom(s', j, if retest then i else i + 1, last - 1, retest)
    else
      ReorderFrom(s, j, i + 1, last, retest)
  }

  /** reorderRows(matrix, result, end): scan rows
      end-1 .. m-2 on column end-1. `retest` false is the code as written;
      true re-tests the row a swap brings in. */
  function ReorderRows(s: System, end: nat, retest: bool): (r: System)
    requires end == 0 || (WellFormed(s) && end <= |s.matrix| && end <= |s.matrix[0]|)
    ensures end == 0 ==> r == s
    ensures end > 0 ==> Dims(r, |s.matrix|, |s.matrix[0]|)
    ensures r.tv == s.tv
    ensures end > 0 ==> forall t :: 0 <= t < end - 1 ==> r.matrix[t] == s.matrix[t] && r.result[t] == s.result[t]
    ensures end > 0 && ZeroBelow(s.matrix, end - 1) ==> ZeroBelow(r.matrix, end - 1)
  {
    if end > 0 then
      ReorderFromKeepsZeroBelow(s, end - 1, end - 1, |s.matrix| - 1, retest);
      ReorderFrom(s, end - 1, end - 1, |s.matrix| - 1, retest).0
    else s
  }

  /** reorderRows only exchanges rows at or below row j, so columns left of j
      stay clear below the diagonal. */
  lemma {:induction false} ReorderFromKeepsZeroBelow(s: System, j: nat, i: nat, last: nat, retest: bool)
    requires WellFormed(s) && j < |s.matrix[0]| && j <= i <= last + 1 && last < |s.matrix|
    ensures ZeroBelow(s.matrix, j) ==> ZeroBelow(ReorderFrom(s, j, i, last, retest).0.matrix, j)
    decreases last + 1 - i
  {
    if i < last {
      if s.matrix[i][j] == 0.0 {
        SwapRowsKeepsZeroBelow(s, j, i, last);
        ReorderFromKeepsZeroBelow(SwapRows(s, i, last), j, if retest then i else i + 1, last - 1, retest);
      } else {
        ReorderFromKeepsZeroBelow(s, j, i + 1, last, retest);
      }
    }
  }

  /** The invariant of the re-testing loop: the rows from j up to i are
      non-zero in column j and the rows after `last` are zero there. When the
      loop ends, the rows that are zero in column j form a suffix. */
  lemma {:induction false} RetestingSortsColumn(s: System, j: nat, i: nat, last: nat)
    requires WellFormed(s) && j < |s.matrix[0]| && j <= i <= last + 1 && last < |s.matrix|
    requires forall t :: j <= t < i ==> s.matrix[t][j] != 0.0
    requires forall t :: last < t < |s.matrix| ==> s.matrix[t][j] == 0.0
    ensures var r := ReorderFrom(s, j, i, last, true).0;
            forall t, u :: j <= t < u < |s.matrix| && r.matrix[t][j] == 0.0 ==> r.matrix[u][j] == 0.0
    decreases last + 1 - i, 1
  {
    var r := ReorderFrom(s, j, i, last, true).0;
    if i < last {
      if s.matrix[i][j] == 0.0 {
        RetestingSwapCase(s, j, i, last);
      } else {
        assert r == ReorderFrom(s, j, i + 1, last, true).0;
        RetestingSortsColumn(s, j, i + 1, last);
      }
    } else {
      assert r == s;
    }
  }

  /** The swap case of RetestingSortsColumn: the zero row moves into the
      tail and position i is checked again. */
  lemma {:induction false} RetestingSwapCase(s: System, j: nat, i: nat, last: nat)
    requires WellFormed(s) && j < |s.matrix[0]| && j <= i < last < |s.matrix|
    requires s.matrix[i][j] == 0.0
    requires forall t :: j <= t < i ==> s.matrix[t][j] != 0.0
    requires forall t :: last < t < |s.matrix| ==> s.matrix[t][j] == 0.0
    ensures var r := ReorderFrom(s, j, i, last, true).0;
            forall t, u :: j <= t < u < |s.matrix| && r.matrix[t][j] == 0.0 ==> r.matrix[u][j] == 0.0
    decreases last + 1 - i, 0
  {
    var s' := SwapRows(s, i, last);
    assert ReorderFrom(s, j, i, last, true) == ReorderFrom(s', j, i, last - 1, true);
    SwapExtendsZeroTail(s, j, i, last);
    RetestingSortsColumn(s', j, i, last - 1);
  }

  /** Swapping a row that is zero in column j to position `last` extends the
      zero tail by one row. */
  lemma SwapExtendsZeroTail(s: System, j: nat, i: nat, last: nat)
    requires WellFormed(s) && j < |s.matrix[0]| && i < last < |s.matrix|
    requires s.matrix[i][j] == 0.0
    requires forall t :: last < t < |s.matrix| ==> s.matrix[t][j] == 0.0
    ensures forall t :: last - 1 < t < |s.matrix| ==> SwapRows(s, i, last).matrix[t][j] == 0.0
  {
    var s' := SwapRows(s, i, last);
    assert s'.matrix[last] == s.matrix[i];
  }

  /** With re-testing, reorderRows leaves the rows that are zero in column
      end-1 below all the others (rows end-1 .. m-1). */
  lemma RetestedZerosLast(s: System, end: nat)
    requires WellFormed(s) && 0 < end <= |s.matrix| && end <= |s.matrix[0]|
    ensures var r := ReorderRows(s, end, true);
            forall t, u :: end - 1 <= t < u < |s.matrix| && r.matrix[t][end - 1] == 0.0 ==> r.matrix[u][end - 1] == 0.0
  {
    RetestingSortsColumn(s, end - 1, end - 1, |s.matrix| - 1);
    assert ReorderRows(s, end, true) == ReorderFrom(s, end - 1, end - 1, |s.matrix| - 1, true).0;
  }

  /** The code as written does not: a zero row swapped into position i is
      passed over, and a non-zero row can end up below it. */
  lemma ReorderRowsMissesZeroRow()
    ensures var s := System([[1.0, 0.0], [0.0, 0.0], [0.0, 1.0], [0.0, 0.0]], [1.0, 0.0, 2.0, 0.0], []);
            var r := ReorderRows(s, 2, false);
            r.matrix[1][1] == 0.0 && r.matrix[2][1] != 0.0
  {
    var s := System([[1.0, 0.0], [0.0, 0.0], [0.0, 1.0], [0.0, 0.0]], [1.0, 0.0, 2.0, 0.0], []);
    var s1 := SwapRows(s, 1, 3);
    assert s1.matrix == s.matrix;
    assert ReorderFrom(s, 1, 1, 3, false) == ReorderFrom(s1, 1, 2, 2, false);
  }

  /** The row permutation ReorderFrom performs, built swap by swap: row t of
      the outcome is row p[t] of the input. */
  ghost function ReorderPermutation(s: System, j: nat, i: nat, last: nat, retest: bool): (p: seq<nat>)
    requires WellFormed(s) && j < |s.matrix[0]| && j <= i <= last + 1 && last < |s.matrix|
    ensures |p| == |s.matrix| && IsPermutation(p)
    ensures forall t :: 0 <= t < i ==> p[t] == t
    decreases last + 1 - i
  {
    var m := |s.matrix|;
    if i >= last then Identity(m)
    else if s.matrix[i][j] == 0.0 then
      var s' := SwapRows(s, i, last);
      assert WellFormed(s');
      var p' := ReorderPermutation(s', j, if retest then i else i + 1, last - 1, retest);
      RenameKeepsPermutation(p', i, last);
      seq(m, t requires 0 <= t < m => Swapped(p'[t], i, last))
    else ReorderPermutation(s, j, i + 1, last, retest)
  }

  /** Renaming i and j inside a permutation leaves a permutation. */
  lemma RenameKeepsPermutation(p: seq<nat>, i: nat, j: nat)
    requires IsPermutation(p) && i < |p| && j < |p|
    ensures IsPermutation(seq(|p|, t requires 0 <= t < |p| => Swapped(p[t], i, j)))
  {
    var r := seq(|p|, t requires 0 <= t < |p| => Swapped(p[t], i, j));
    forall x, y | 0 <= x < y < |r|
      ensures r[x] != r[y]
    {
      assert p[x] != p[y];
    }
  }

  /** reorderRows applies one and the same row permutation to the matrix and
      the right-hand side: row t afterwards is row p[t] before. */
  lemma {:induction false} ReorderFromPermutes(s: System, j: nat, i: nat, last: nat, retest: bool)
    requires WellFormed(s) && j < |s.matrix[0]| && j <= i <= last + 1 && last < |s.matrix|
    ensures forall t :: 0 <= t < |s.matrix| ==>
              && ReorderFrom(s, j, i, last, retest).0.matrix[t] == s.matrix[ReorderPermutation(s, j, i, last, retest)[t]]
              && ReorderFrom(s, j, i, last, retest).0.result[t] == s.result[ReorderPermutation(s, j, i, last, retest)[t]]
    decreases last + 1 - i, 1
  {
    if i < last {
      if s.matrix[i][j] == 0.0 {
        PermutesSwapCase(s, j, i, last, retest);
      } else {
        assert ReorderPermutation(s, j, i, last, retest) == ReorderPermutation(s, j, i + 1, last, retest);
        assert ReorderFrom(s, j, i, last, retest) == ReorderFrom(s, j, i + 1, last, retest);
        ReorderFromPermutes(s, j, i + 1, last, retest);
      }
    }
  }

  /** The swap case of ReorderFromPermutes: the permutation of the rest of
      the loop, with i and `last` renamed. */
  lemma {:induction false} PermutesSwapCase(s: System, j: nat, i: nat, last: nat, retest: bool)
    requires WellFormed(s) && j < |s.matrix[0]| && j <= i < last < |s.matrix|
    requires s.matrix[i][j] == 0.0
    ensures forall t :: 0 <= t < |s.matrix| ==>
              && ReorderFrom(s, j, i, last, retest).0.matrix[t] == s.matrix[ReorderPermutation(s, j, i, last, retest)[t]]
              && ReorderFrom(s, j, i, last, retest).0.result[t] == s.result[ReorderPermutation(s, j, i, last, retest)[t]]
    decreases last + 1 - i, 0
  {
    var m := |s.matrix|;
    var s' := SwapRows(s, i, last);
    var i' := if retest then i else i + 1;
    var p', r' := ReorderPermutation(s', j, i', last - 1, retest), ReorderFrom(s', j, i', last - 1, retest).0;
    var p, r := ReorderPermutation(s, j, i, last, retest), ReorderFrom(s, j, i, last, retest).0;
    assert p == seq(m, t requires 0 <= t < m => Swapped(p'[t], i, last));
    assert r == r';
    ReorderFromPermutes(s', j, i', last - 1, retest);
    SwapThenPermute(s, i, last, p', r);
  }

  /** Reading rows through p' after exchanging rows i and `last` is reading
      them through p' with i and `last` renamed. */
  lemma SwapThenPermute(s: System, i: nat, last: nat, p': seq<nat>, r: System)
    requires WellFormed(s) && i < |s.matrix| && last < |s.matrix|
    requires |p'| == |s.matrix| == |r.matrix| == |r.result| && forall t :: 0 <= t < |p'| ==> p'[t] < |s.matrix|
    requires forall t :: 0 <= t < |p'| ==>
               r.matrix[t] == SwapRows(s, i, last).matrix[p'[t]] && r.result[t] == SwapRows(s, i, last).result[p'[t]]
    ensures forall t :: 0 <= t < |p'| ==>
              r.matrix[t] == s.matrix[Swapped(p'[t], i, last)] && r.result[t] == s.result[Swapped(p'[t], i, last)]
  {
    var s' := SwapRows(s, i, last);
    forall t | 0 <= t < |p'|
      ensures r.matrix[t] == s.matrix[Swapped(p'[t], i, last)] && r.result[t] == s.result[Swapped(p'[t], i, last)]
    {
      var q := p'[t];
      assert s'.matrix[q] == s.matrix[Swapped(q, i, last)] && s'.result[q] == s.result[Swapped(q, i, last)];
    }
  }

  /** Row t of `r` is row p[t] of `s`, right-hand side included, and p is a
      permutation: `r` holds the equations of `s` in another order. */
  predicate RowsPermuted(s: System, r: System, p: seq<nat>) {
    && |p| == |s.matrix| == |s.result| == |r.matrix| == |r.result|
    && IsPermutation(p)
    && forall t :: 0 <= t < |p| ==> r.matrix[t] == s.matrix[p[t]] && r.result[t] == s.result[p[t]]
  }

  /** reorderRows permutes whole equations and leaves rows 0..end-2 in place. */
  lemma ReorderRowsPermutes(s: System, end: nat, retest: bool)
    requires WellFormed(s) && 0 < end <= |s.matrix| && end <= |s.matrix[0]|
    ensures exists p :: RowsPermuted(s, ReorderRows(s, end, retest), p) && forall t :: 0 <= t < end - 1 ==> p[t] == t
  {
    var p := ReorderPermutation(s, end - 1, end - 1, |s.matrix| - 1, retest);
    var r := ReorderFrom(s, end - 1, end - 1, |s.matrix| - 1, retest).0;
    ReorderFromPermutes(s, end - 1, end - 1, |s.matrix| - 1, retest);
    assert RowsPermuted(s, r, p);
    assert ReorderRows(s, end, retest) == r;
  }

  /** Moving equations around does not change which vectors solve the system. */
  lemma {:induction false} ReorderFromKeepsSolutions(s: System, j: nat, i: nat, last: nat, retest: bool, x: seq<real>)
    requires WellFormed(s) && j < |s.matrix[0]| && j <= i <= last + 1 && last < |s.matrix|
    ensures var r := ReorderFrom(s, j, i, last, retest).0;
            Solves(s.matrix, s.result, x) <==> Solves(r.matrix, r.result, x)
    decreases last + 1 - i
  {
    if i < last {
      if s.matrix[i][j] == 0.0 {
        var s' := SwapRows(s, i, last);
        SwapRowsKeepsSolutions(s, i, last, x);
        ReorderFromKeepsSolutions(s', j, if retest then i else i + 1, last - 1, retest, x);
      } else {
        ReorderFromKeepsSolutions(s, j, i + 1, last, retest, x);
      }
    }
  }

  // ---------------------------------------------------------------------------
  // The whole forward pass

  /** The k loop of _forwardElimination over a fresh system; with fewer than two rows
      or columns no step runs. */
  function EliminationSteps(cfg: Config, a: Matrix, b: seq<real>): (r: Result<System>)
    requires Admissible(a, b)
    ensures r.Success? ==> Shape(r.value.matrix, |a|, |a[0]|) && |r.value.result| == |b|
    ensures r.Success? ==> TvFits(cfg.pivoting, r.value.tv, |a[0]|)
    ensures r.Success? && |a[0]| > 0 ==> WellFormed(r.value)
    ensures r.Failure? ==> cfg.pivoting == None && r.error.ZeroPivot? && r.error.step + 1 < Min(|a|, |a[0]|)
    ensures cfg.pivoting != None ==> r.Success?
    ensures r.Success? && !cfg.lu && Min(|a|, |a[0]|) > 0 ==> ZeroBelow(r.value.matrix, Min(|a|, |a[0]|) - 1)
    ensures Min(|a|, |a[0]|) < 2 ==> r == Success(System(a, b, InitialTv(cfg.pivoting, |a[0]|)))
  {
    var s := System(a, b, InitialTv(cfg.pivoting, |a[0]|));
    if Min(|a|, |a[0]|) < 2 then Success(s)
    else EliminateFrom(cfg, s, 0, Min(|a|, |a[0]|))
  }

  /** _forwardElimination: the elimination steps, then
      reorderRows (as written, or re-testing when `retest` is set). Only the
      `none` strategy can fail, on a zero pivot. */
  function ForwardElimination(cfg: Config, a: Matrix, b: seq<real>, retest: bool): (r: Result<System>)
    requires Admissible(a, b)
    ensures r.Success? ==> Shape(r.value.matrix, |a|, |a[0]|) && |r.value.result| == |b|
    ensures r.Success? ==> TvFits(cfg.pivoting, r.value.tv, |a[0]|)
    ensures r.Success? && |a[0]| > 0 ==> WellFormed(r.value)
    ensures r.Failure? ==> cfg.pivoting == None && r.error.ZeroPivot? && r.error.step + 1 < Min(|a|, |a[0]|)
    ensures cfg.pivoting != None ==> r.Success?
    ensures r.Success? && !cfg.lu && Min(|a|, |a[0]|) > 0 ==> ZeroBelow(r.value.matrix, Min(|a|, |a[0]|) - 1)
    ensures |a[0]| == 0 ==> r == Success(System(a, b, []))
  {
    match EliminationSteps(cfg, a, b)
    case Failure(e) => Failure(e)
    case Success(s) => Success(ReorderRows(s, Min(|a|, |a[0]|), retest))
  }

  /** Without LU capture, the elimination steps keep the solution set. */
  lemma EliminationStepsKeepsSolutions(cfg: Config, a: Matrix, b: seq<real>, x: seq<real>)
    requires Admissible(a, b) && |a[0]| > 0 && !cfg.lu && |x| == |a[0]|
    requires EliminationSteps(cfg, a, b).Success?
    ensures var s := EliminationSteps(cfg, a, b).value;
            (Solves(a, b, x) <==> SolvedBy(s, x))
  {
    var n := |x|;
    var end := Min(|a|, n);
    var s0 := System(a, b, InitialTv(cfg.pivoting, n));
    assert Permute(x, Coordinates(s0.tv, n)) == x;
    if end >= 2 {
      EliminateFromKeepsSolutions(cfg, s0, 0, end, x);
    }
  }

  /** reorderRows only moves equations, so it keeps the solution set. */
  lemma ReorderRowsKeepsSolutions(s: System, end: nat, retest: bool, y: seq<real>)
    requires WellFormed(s) && 0 < end <= |s.matrix| && end <= |s.matrix[0]|
    ensures var r := ReorderRows(s, end, retest);
            (Solves(s.matrix, s.result, y) <==> Solves(r.matrix, r.result, y))
  {
    ReorderFromKeepsSolutions(s, end - 1, end - 1, |s.matrix| - 1, retest, y);
  }

  /** Without LU capture, forward elimination keeps the solution set: x
      solves the input system exactly when x, read in the final column order,
      solves the reduced one. */
  lemma ForwardEliminationKeepsSolutions(cfg: Config, a: Matrix, b: seq<real>, retest: bool, x: seq<real>)
    requires Admissible(a, b) && |a[0]| > 0 && !cfg.lu && |x| == |a[0]|
    requires ForwardElimination(cfg, a, b, retest).Success?
    ensures var r := ForwardElimination(cfg, a, b, retest).value;
            (Solves(a, b, x) <==> SolvedBy(r, x))
  {
    var s := EliminationSteps(cfg, a, b).value;
    EliminationStepsKeepsSolutions(cfg, a, b, x);
    ReorderRowsKeepsSolutions(s, Min(|a|, |x|), retest, Permute(x, Coordinates(s.tv, |x|)));
  }
}
