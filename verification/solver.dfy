/**
 The whole solve: forward elimination, back substitution, then putting the
 unknowns back into the original column order when complete pivoting has
 exchanged columns.

 `Solve` is the code as written; `SolveCorrected` uses the re-testing row
 reorder, back substitution without the shortcut, and a replay that undoes any
 column permutation.
 */
module Solver {
  import opened Systems
  import opened Swaps
  import opened Pivoting
  import opened Elimination
  import opened Substitution
  import opened LuCapture

  // ---------------------------------------------------------------------------
  // Restoring the column order

  /** The replay of the tracking vector in _solve from position i on: position i is visited
      once, its entry tv[i] is read at that moment, and positions i and tv[i]
      are exchanged in both the solution and the transformation vector. */
  function ReplayFrom(x: seq<real>, tv: seq<nat>, i: nat): (r: (seq<real>, seq<nat>))
    requires IsPermutation(tv) && |tv| <= |x| && i <= |tv|
    ensures |r.0| == |x| && |r.1| == |tv| && IsPermutation(r.1)
    decreases |tv| - i
  {
    if i == |tv| then (x, tv)
    else
      SwapKeepsPermutation(tv, i, tv[i]);
      ReplayFrom(SwapPlaces(x, i, tv[i]), SwapPlaces(tv, i, tv[i]), i + 1)
  }

  /** The solution after the replay as written. */
  function Replay(x: seq<real>, tv: seq<nat>): (r: seq<real>)
    requires IsPermutation(tv) && |tv| <= |x|
    ensures |r| == |x|
  {
    ReplayFrom(x, tv, 0).0
  }

  /** Every exchange moves an entry of the solution together with the entry
      of the transformation vector that names its unknown, so a vector z that
      the pair (x, tv) reads as x is read as the replayed solution through the
      replayed vector. */
  lemma {:induction false} ReplayKeepsPairing(x: seq<real>, tv: seq<nat>, i: nat, z: seq<real>)
    requires IsPermutation(tv) && |tv| <= |x| && i <= |tv| && |z| == |tv| && |x| == |tv|
    requires Permute(z, tv) == x
    ensures Permute(z, ReplayFrom(x, tv, i).1) == ReplayFrom(x, tv, i).0
    decreases |tv| - i
  {
    if i < |tv| {
      SwapKeepsPermutation(tv, i, tv[i]);
      PermuteSwap(z, tv, i, tv[i]);
      ReplayKeepsPairing(SwapPlaces(x, i, tv[i]), SwapPlaces(tv, i, tv[i]), i + 1, z);
    }
  }

  /** So the replay puts every unknown back in its original column exactly
      when it leaves the transformation vector as the identity. */
  lemma ReplayRestoresWhenIdentity(x: seq<real>, tv: seq<nat>, z: seq<real>)
    requires IsPermutation(tv) && |x| == |tv| == |z| && Permute(z, tv) == x
    requires ReplayFrom(x, tv, 0).1 == Identity(|tv|)
    ensures Replay(x, tv) == z
  {
    ReplayKeepsPairing(x, tv, 0, z);
  }

  /** Positions that already hold their own index are passed over. */
  lemma {:induction false} ReplaySkipsFixedPoints(x: seq<real>, tv: seq<nat>, i: nat, j: nat)
    requires IsPermutation(tv) && |tv| <= |x| && i <= j <= |tv|
    requires forall t :: i <= t < j ==> tv[t] == t
    ensures ReplayFrom(x, tv, i) == ReplayFrom(x, tv, j)
    decreases j - i
  {
    if i < j {
      assert SwapPlaces(x, i, tv[i]) == x && SwapPlaces(tv, i, tv[i]) == tv;
      ReplaySkipsFixedPoints(x, tv, i + 1, j);
    }
  }

  /** A single column exchange, the case the replay handles: the replay
      undoes it and leaves the identity behind. */
  lemma ReplayUndoesOneSwap(x: seq<real>, n: nat, i: nat, j: nat)
    requires i < j < n == |x|
    ensures var tv := SwapPlaces(Identity(n), i, j);
            && ReplayFrom(x, tv, 0).1 == Identity(n)
            && Replay(x, tv) == SwapPlaces(x, i, j)
  {
    var id := Identity(n);
    var tv := SwapPlaces(id, i, j);
    SwapKeepsPermutation(id, i, j);
    ReplaySkipsFixedPoints(x, tv, 0, i);
    assert tv[i] == j;
    var x', tv' := SwapPlaces(x, i, j), SwapPlaces(tv, i, j);
    SwapPlacesInvolutive(id, i, j);
    assert ReplayFrom(x, tv, i) == ReplayFrom(x', id, i + 1);
    ReplaySkipsFixedPoints(x', id, i + 1, n);
    assert ReplayFrom(x', id, n) == (x', id);
  }

  /** The replay as written on tv = [1, 2, 3, 0], which three column swaps
      (0, 1), (1, 2), (2, 3) produce: the solution [10, 20, 30, 40] in the
      reduced order stands for x1 = 10, x2 = 20, x3 = 30, x0 = 40, but the
      replay hands back [20, 10, 40, 30] and leaves tv at [2, 1, 0, 3]. */
  lemma ReplayMissesCycle()
    ensures var x, tv := [10.0, 20.0, 30.0, 40.0], [1, 2, 3, 0];
            && IsPermutation(tv)
            && ReplayFrom(x, tv, 0) == ([20.0, 10.0, 40.0, 30.0], [2, 1, 0, 3])
            && Permute(Replay(x, tv), tv) != x
            && Permute([40.0, 10.0, 20.0, 30.0], tv) == x
  {
    var tv, x3 := [1, 2, 3, 0], [20.0, 10.0, 40.0, 30.0];
    ReplayCycleFirstVisits();
    ReplayCycleLastVisits();
    assert Permute(x3, tv)[1] == 40.0;
  }

  /** Visits 0 and 1 of ReplayMissesCycle: one exchange, then a fixed point. */
  lemma ReplayCycleFirstVisits()
    ensures IsPermutation([2, 1, 3, 0])
    ensures ReplayFrom([10.0, 20.0, 30.0, 40.0], [1, 2, 3, 0], 0) == ReplayFrom([20.0, 10.0, 30.0, 40.0], [2, 1, 3, 0], 2)
  {
    var x, tv := [10.0, 20.0, 30.0, 40.0], [1, 2, 3, 0];
    var x1, tv1 := [20.0, 10.0, 30.0, 40.0], [2, 1, 3, 0];
    SwapKeepsPermutation(tv, 0, 1);
    assert SwapPlaces(x, 0, 1) == x1 && SwapPlaces(tv, 0, 1) == tv1;
    ReplaySkipsFixedPoints(x1, tv1, 1, 2);
  }

  /** Visits 2 and 3 of ReplayMissesCycle: one exchange, then a fixed point. */
  lemma ReplayCycleLastVisits()
    requires IsPermutation([2, 1, 3, 0])
    ensures ReplayFrom([20.0, 10.0, 30.0, 40.0], [2, 1, 3, 0], 2) == ([20.0, 10.0, 40.0, 30.0], [2, 1, 0, 3])
  {
    var x1, tv1 := [20.0, 10.0, 30.0, 40.0], [2, 1, 3, 0];
    var x3, tv3 := [20.0, 10.0, 40.0, 30.0], [2, 1, 0, 3];
    SwapKeepsPermutation(tv1, 2, 3);
    assert SwapPlaces(x1, 2, 3) == x3 && SwapPlaces(tv1, 2, 3) == tv3;
    ReplaySkipsFixedPoints(x3, tv3, 3, 4);
  }

  /** Writes y[u] into position tv[u] for u = t .. |tv|-1, on top of z. */
  function PlaceFrom(y: seq<real>, tv: seq<nat>, t: nat, z: seq<real>): (r: seq<real>)
    requires IsPermutation(tv) && |y| == |tv| == |z| && t <= |tv|
    ensures |r| == |z|
    ensures forall u :: t <= u < |tv| ==> r[tv[u]] == y[u]
    ensures forall c :: 0 <= c < |z| && (forall u :: t <= u < |tv| ==> tv[u] != c) ==> r[c] == z[c]
    decreases |tv| - t
  {
    if t == |tv| then z else PlaceFrom(y, tv, t + 1, z[tv[t] := y[t]])
  }

  /** The corrected replay: unknown tv[t] receives entry t of the solution in
      the reduced order, for every t, so reading the result through the
      transformation vector gives the reduced-order solution back. */
  function RestoreOrder(y: seq<real>, tv: seq<nat>): (x: seq<real>)
    requires IsPermutation(tv) && |y| == |tv|
    ensures |x| == |y| && Permute(x, tv) == y
  {
    PlaceFrom(y, tv, 0, y)
  }

  /** On the transposition case both replays agree. */
  lemma RestoreOrderAgreesOnOneSwap(x: seq<real>, n: nat, i: nat, j: nat)
    requires i < j < n == |x|
    ensures var tv := SwapPlaces(Identity(n), i, j);
            IsPermutation(tv) && RestoreOrder(x, tv) == Replay(x, tv)
  {
    var tv := SwapPlaces(Identity(n), i, j);
    SwapKeepsPermutation(Identity(n), i, j);
    ReplayUndoesOneSwap(x, n, i, j);
    var r := RestoreOrder(x, tv);
    assert r == SwapPlaces(x, i, j) by {
      forall c | 0 <= c < n
        ensures r[c] == SwapPlaces(x, i, j)[c]
      {
        assert r[tv[Swapped(c, i, j)]] == x[Swapped(c, i, j)];
      }
    }
  }

  // ---------------------------------------------------------------------------
  // The solve

  /** _solve as written: forward elimination with reorderRows
      as written, back substitution with the shortcut, and the single-pass
      replay. The result's matrix is the reduced one. */
  function Solve(cfg: Config, a: Matrix, b: seq<real>): (r: Result<SolutionSystem>)
    requires Substitutable(a, b)
    ensures r.Success? && |a[0]| > 0 ==> |r.value.solution| == |a[0]|
    ensures r.Failure? && r.error.ZeroPivot? ==> cfg.pivoting == None
    ensures |a[0]| == 0 ==> r == Success(SolutionSystem(a, b, false))
  {
    SolveWith(cfg, a, b, false)
  }

  /** The solve with the three corrections: re-testing reorder, no shortcut,
      and a replay that inverts the column permutation. */
  function SolveCorrected(cfg: Config, a: Matrix, b: seq<real>): (r: Result<SolutionSystem>)
    requires Substitutable(a, b)
    ensures r.Success? && |a[0]| > 0 ==> |r.value.solution| == |a[0]|
    ensures r.Failure? && r.error.ZeroPivot? ==> cfg.pivoting == None
    ensures |a[0]| == 0 ==> r == Success(SolutionSystem(a, b, false))
  {
    SolveWith(cfg, a, b, true)
  }

  /** The solve, as written (`corrected` clear) or corrected. */
  function SolveWith(cfg: Config, a: Matrix, b: seq<real>, corrected: bool): (r: Result<SolutionSystem>)
    requires Substitutable(a, b)
    ensures r.Success? && |a[0]| > 0 ==> |r.value.solution| == |a[0]|
    ensures r.Failure? && r.error.ZeroPivot? ==> cfg.pivoting == None
    ensures |a[0]| == 0 ==> r == Success(SolutionSystem(a, b, false))
  {
    match ForwardElimination(cfg, a, b, corrected)
    case Failure(e) => Failure(e)
    case Success(s) =>
      match BackSubstitution(s.matrix, s.result, !corrected)
      case Failure(e) => Failure(e)
      case Success(sol) =>
        if corrected && s.tv != [] then Success(sol.(solution := RestoreOrder(sol.solution, s.tv)))
        else Success(sol.(solution := Replay(sol.solution, s.tv)))
  }

  /** LU capture does not change what a solve reports: with the same
      strategy, a run with capture and a run without it fail with the same
      error, or both succeed with the same solution and the same flag. Only
      the returned matrix differs, in the multiplier slots. */
  lemma SolveWithIgnoresLu(cfg: Config, cfg2: Config, a: Matrix, b: seq<real>, corrected: bool)
    requires Substitutable(a, b) && cfg.pivoting == cfg2.pivoting
    ensures var r, r2 := SolveWith(cfg, a, b, corrected), SolveWith(cfg2, a, b, corrected);
            && (r.Failure? ==> r2 == r)
            && (r.Success? ==> r2.Success? && r2.value.solution == r.value.solution
                                           && r2.value.infiniteSolutions == r.value.infiniteSolutions)
  {
    if |a[0]| > 0 {
      var end := Min(|a|, |a[0]|);
      ForwardEliminationAgrees(cfg, cfg2, a, b, corrected);
      var f, f2 := ForwardElimination(cfg, a, b, corrected), ForwardElimination(cfg2, a, b, corrected);
      if f.Success? {
        var s, s2 := f.value, f2.value;
        assert Agree(s, s2, end - 1);
        BackSubstitutionAgrees(s.matrix, s2.matrix, s.result, !corrected, end - 1);
      }
    }
  }

  /** Soundness of the corrected solve: whatever it returns solves the input
      system, with or without LU capture. */
  lemma SolveCorrectedSolves(cfg: Config, a: Matrix, b: seq<real>)
    requires Substitutable(a, b) && |a[0]| > 0
    requires SolveCorrected(cfg, a, b).Success?
    ensures Solves(a, b, SolveCorrected(cfg, a, b).value.solution)
  {
    var plain := cfg.(lu := false);
    SolveWithIgnoresLu(cfg, plain, a, b, true);
    CorrectedSolvesWithoutCapture(plain, a, b);
  }

  /** SolveCorrectedSolves for a run without capture, where elimination keeps
      the solution set step by step. */
  lemma CorrectedSolvesWithoutCapture(cfg: Config, a: Matrix, b: seq<real>)
    requires Substitutable(a, b) && |a[0]| > 0 && !cfg.lu
    requires SolveCorrected(cfg, a, b).Success?
    ensures Solves(a, b, SolveCorrected(cfg, a, b).value.solution)
  {
    var n := |a[0]|;
    var s := ForwardElimination(cfg, a, b, true).value;
    var sol := BackSubstitution(s.matrix, s.result, false).value;
    BackSubstitutionSolves(s.matrix, s.result, false);
    var x := SolveCorrected(cfg, a, b).value.solution;
    if s.tv != [] {
      assert x == RestoreOrder(sol.solution, s.tv);
    } else {
      assert x == sol.solution;
      assert Permute(x, Identity(n)) == x;
    }
    assert SolvedBy(s, x);
    ForwardEliminationKeepsSolutions(cfg, a, b, true, x);
  }

  /** Soundness of the solve as written, where it holds: without column
      exchanges, a solution reported as unique solves the input system, with
      or without LU capture. */
  lemma SolveSolvesWhenUnique(cfg: Config, a: Matrix, b: seq<real>)
    requires Substitutable(a, b) && |a[0]| > 0 && cfg.pivoting != Complete
    requires Solve(cfg, a, b).Success? && !Solve(cfg, a, b).value.infiniteSolutions
    ensures Solves(a, b, Solve(cfg, a, b).value.solution)
  {
    var plain := cfg.(lu := false);
    SolveWithIgnoresLu(cfg, plain, a, b, false);
    UniqueSolvesWithoutCapture(plain, a, b);
  }

  /** SolveSolvesWhenUnique for a run without capture. */
  lemma UniqueSolvesWithoutCapture(cfg: Config, a: Matrix, b: seq<real>)
    requires Substitutable(a, b) && |a[0]| > 0 && !cfg.lu && cfg.pivoting != Complete
    requires Solve(cfg, a, b).Success? && !Solve(cfg, a, b).value.infiniteSolutions
    ensures Solves(a, b, Solve(cfg, a, b).value.solution)
  {
    var n := |a[0]|;
    var s := ForwardElimination(cfg, a, b, false).value;
    var sol := BackSubstitution(s.matrix, s.result, true).value;
    BackSubstitutionSolves(s.matrix, s.result, true);
    var x := Solve(cfg, a, b).value.solution;
    assert s.tv == [];
    assert x == sol.solution;
    assert Permute(x, Identity(n)) == x;
    assert SolvedBy(s, x);
    ForwardEliminationKeepsSolutions(cfg, a, b, false, x);
  }
}
