/**
 Data model shared by every phase of the solver: a linear system A·x = b held as
 a row-major matrix, a right-hand side ("result") and, under complete pivoting,
 a transformation vector recording which original column sits where.

 The caller-supplied numeric type is modelled by exact `real` arithmetic:
 `isZero` is `== 0.0`, `abs` is `Abs`, `cmp(a, b) > 0` is `a > b`.
 */
module Systems {

  /** Row-major coefficients; row i is the left-hand side of equation i. */
  type Matrix = seq<seq<real>>

  /** The one error class the engine raises. The constructor records which
      guard fired; the original distinguishes them only by message. */
  datatype SolutionError =
    | ZeroPivot(step: nat)          // zero pivot under the `none` strategy
    | ZeroTimesNonZero(row: nat)    // a zero coefficient would have to yield a non-zero value
    | InconsistentRow(row: nat)     // an extra row of an over-determined system disagrees

  datatype Result<T> = Success(value: T) | Failure(error: SolutionError)

  /** The buffers one solve works on: matrix, right-hand side and
      transformation vector (empty unless complete pivoting is in use). */
  datatype System = System(matrix: Matrix, result: seq<real>, tv: seq<nat>)

  /** What back substitution hands back. */
  datatype SolutionSystem = SolutionSystem(matrix: Matrix, solution: seq<real>, infiniteSolutions: bool)

  /** `a` has m rows of n entries each. */
  predicate Shape(a: Matrix, m: nat, n: nat) {
    |a| == m && forall i :: 0 <= i < m ==> |a[i]| == n
  }

  /** `s` is an m × n system with one right-hand side entry per row. */
  predicate Dims(s: System, m: nat, n: nat) {
    Shape(s.matrix, m, n) && |s.result| == m
  }

  /** Non-empty, with rows of equal length. */
  predicate Rectangular(a: Matrix) {
    |a| > 0 && Shape(a, |a|, |a[0]|)
  }

  /** Non-empty, rectangular, with one right-hand side entry per row. */
  predicate WellFormed(s: System) {
    |s.matrix| > 0 && Dims(s, |s.matrix|, |s.matrix[0]|)
  }

  /** What a caller must pass in: a non-empty rectangular matrix and one
      right-hand side entry per row. With zero-length rows the right-hand side
      is never read, so any vector will do (`[[]]` with `[]`, for one). */
  predicate Admissible(a: Matrix, b: seq<real>) {
    Rectangular(a) && (|a[0]| == 0 || |b| == |a|)
  }

  /** Columns 0..k-1 hold only zeros strictly below the diagonal: the shape
      forward elimination builds up one column at a time. */
  predicate ZeroBelow(a: Matrix, k: nat) {
    forall i, c :: 0 <= c < k && c < i < |a| && c < |a[i]| ==> a[i][c] == 0.0
  }

  function Min(x: nat, y: nat): (r: nat)
    ensures r <= x && r <= y && (r == x || r == y)
  {
    if x < y then x else y
  }

  function Abs(x: real): (r: real)
    ensures 0.0 <= r && (r == x || r == -x)
  {
    if x < 0.0 then -x else x
  }

  /** Exchanges positions i and j of a sequence and leaves every other position alone. */
  function SwapPlaces<T>(s: seq<T>, i: nat, j: nat): (r: seq<T>)
    requires i < |s| && j < |s|
    ensures |r| == |s| && r[i] == s[j] && r[j] == s[i]
    ensures forall t :: 0 <= t < |s| && t != i && t != j ==> r[t] == s[t]
  {
    s[i := s[j]][j := s[i]]
  }

  /** The position whose old content lands at position t when positions i
      and j are exchanged. */
  function Swapped(t: nat, i: nat, j: nat): (r: nat)
    ensures r == t || r == i || r == j
  {
    if t == i then j else if t == j then i else t
  }

  lemma SwapPlacesInvolutive<T>(s: seq<T>, i: nat, j: nat)
    requires i < |s| && j < |s|
    ensures SwapPlaces(SwapPlaces(s, i, j), i, j) == s
  {
  }

  // ---------------------------------------------------------------------------
  // Permutations of index positions

  /** `v` lists |v| distinct indices below |v|: a permutation of [0..|v|). */
  predicate IsPermutation(v: seq<nat>) {
    && (forall i :: 0 <= i < |v| ==> v[i] < |v|)
    && (forall i, j :: 0 <= i < j < |v| ==> v[i] != v[j])
  }

  function Identity(n: nat): (v: seq<nat>)
    ensures |v| == n && IsPermutation(v)
    ensures forall i :: 0 <= i < n ==> v[i] == i
  {
    seq(n, i requires 0 <= i => i as nat)
  }

  lemma SwapKeepsPermutation(v: seq<nat>, i: nat, j: nat)
    requires i < |v| && j < |v|
    ensures IsPermutation(v) ==> IsPermutation(SwapPlaces(v, i, j))
  {
    if !IsPermutation(v) {
      return;
    }
    var r := SwapPlaces(v, i, j);
    forall x, y | 0 <= x < y < |r|
      ensures r[x] != r[y]
    {
      var x' := if x == i then j else if x == j then i else x;
      var y' := if y == i then j else if y == j then i else y;
      assert r[x] == v[x'] && r[y] == v[y'] && x' != y';
      if x' < y' {
      } else {
        assert v[y'] != v[x'];
      }
    }
  }

  /** Position t of the result holds entry p[t] of `v`. */
  function Permute<T>(v: seq<T>, p: seq<nat>): (r: seq<T>)
    requires forall t :: 0 <= t < |p| ==> p[t] < |v|
    ensures |r| == |p| && forall t :: 0 <= t < |p| ==> r[t] == v[p[t]]
  {
    seq(|p|, t requires 0 <= t < |p| => v[p[t]])
  }

  /** The column order a system's unknowns are in: the transformation vector
      when one is kept, otherwise the original order. */
  function Coordinates(tv: seq<nat>, n: nat): (c: seq<nat>)
    requires tv == [] || (|tv| == n && IsPermutation(tv))
    ensures |c| == n && IsPermutation(c)
  {
    if tv == [] then Identity(n) else tv
  }

  // ---------------------------------------------------------------------------
  // Linear algebra: what it means for a vector to solve a system

  /** u[j]·x[j] + … + u[|u|-1]·x[|u|-1]: the part of a left-hand side from column j on. */
  function DotFrom(u: seq<real>, x: seq<real>, j: nat): real
    requires |u| <= |x|
    decreases |u| - j
  {
    if j >= |u| then 0.0 else u[j] * x[j] + DotFrom(u, x, j + 1)
  }

  function Dot(u: seq<real>, x: seq<real>): real
    requires |u| <= |x|
  {
    DotFrom(u, x, 0)
  }

  /** x (one value per column) satisfies every equation of the system (a, b). */
  predicate Solves(a: Matrix, b: seq<real>, x: seq<real>) {
    |b| == |a| && EquationsHold(a, b, x, |a|)
  }

  /** x satisfies equations 0..n-1. Stated row by row, so that a proof sees
      one equation at a time; SolvesEveryRow gives the quantified form. */
  predicate EquationsHold(a: Matrix, b: seq<real>, x: seq<real>, n: nat)
    requires n <= |a| && n <= |b|
  {
    n == 0 || (EquationsHold(a, b, x, n - 1) && |a[n - 1]| == |x| && Dot(a[n - 1], x) == b[n - 1])
  }

  lemma {:induction false} EquationsHoldEveryRow(a: Matrix, b: seq<real>, x: seq<real>, n: nat)
    requires n <= |a| && n <= |b|
    ensures EquationsHold(a, b, x, n) <==> forall i :: 0 <= i < n ==> |a[i]| == |x| && Dot(a[i], x) == b[i]
  {
    if n > 0 {
      EquationsHoldEveryRow(a, b, x, n - 1);
    }
  }

  /** Solves, one equation per row. */
  lemma SolvesEveryRow(a: Matrix, b: seq<real>, x: seq<real>)
    ensures Solves(a, b, x) <==> |b| == |a| && forall i :: 0 <= i < |a| ==> |a[i]| == |x| && Dot(a[i], x) == b[i]
  {
    if |b| == |a| {
      EquationsHoldEveryRow(a, b, x, |a|);
    }
  }

  /** x, listed in the original column order, solves the system `s` once it
      is read in the column order `s` has reached. */
  predicate SolvedBy(s: System, x: seq<real>)
    requires s.tv == [] || (|s.tv| == |x| && IsPermutation(s.tv))
  {
    Solves(s.matrix, s.result, Permute(x, Coordinates(s.tv, |x|)))
  }

  /** Replacing a row by itself minus c times another row subtracts c times
      the other row's value from its left-hand side. */
  lemma {:induction false} DotFromCombination(u: seq<real>, v: seq<real>, w: seq<real>, x: seq<real>, c: real, j: nat)
    requires |u| == |v| == |w| <= |x|
    requires forall t :: j <= t < |w| ==> w[t] == u[t] - c * v[t]
    ensures DotFrom(w, x, j) == DotFrom(u, x, j) - c * DotFrom(v, x, j)
    decreases |u| - j
  {
    if j < |u| {
      DotFromCombination(u, v, w, x, c, j + 1);
      assert w[j] * x[j] == u[j] * x[j] - c * (v[j] * x[j]);
    }
  }

  /** Changing one coefficient and the matching unknown changes the left-hand
      side by exactly the change in their product. */
  lemma {:induction false} DotFromUpdate(u: seq<real>, x: seq<real>, t: nat, p: real, q: real, j: nat)
    requires |u| <= |x| && t < |u|
    ensures j <= t ==> DotFrom(u[t := p], x[t := q], j) == DotFrom(u, x, j) - u[t] * x[t] + p * q
    ensures t < j ==> DotFrom(u[t := p], x[t := q], j) == DotFrom(u, x, j)
    decreases |u| - j
  {
    if j < |u| {
      DotFromUpdate(u, x, t, p, q, j + 1);
    }
  }

  /** Exchanging two columns of a row together with the two matching unknowns
      leaves the left-hand side unchanged. */
  lemma DotSwap(u: seq<real>, x: seq<real>, i: nat, j: nat)
    requires |u| <= |x| && i < |u| && j < |u|
    ensures Dot(SwapPlaces(u, i, j), SwapPlaces(x, i, j)) == Dot(u, x)
  {
    if i != j {
      var u1, x1 := u[i := u[j]], x[i := x[j]];
      DotFromUpdate(u, x, i, u[j], x[j], 0);
      DotFromUpdate(u1, x1, j, u[i], x[i], 0);
      assert u1[j] == u[j] && x1[j] == x[j];
      assert SwapPlaces(u, i, j) == u1[j := u[i]];
      assert SwapPlaces(x, i, j) == x1[j := x[i]];
      calc {
        Dot(SwapPlaces(u, i, j), SwapPlaces(x, i, j));
        DotFrom(u1[j := u[i]], x1[j := x[i]], 0);
        DotFrom(u1, x1, 0) - u[j] * x[j] + u[i] * x[i];
        DotFrom(u, x, 0) - u[i] * x[i] + u[j] * x[j] - u[j] * x[j] + u[i] * x[i];
        Dot(u, x);
      }
    } else {
      assert SwapPlaces(u, i, j) == u && SwapPlaces(x, i, j) == x;
    }
  }

  /** Leading zero coefficients contribute nothing. */
  lemma {:induction false} DotFromSkipsZeros(u: seq<real>, x: seq<real>, j: nat, k: nat)
    requires |u| <= |x| && j <= k
    requires forall t :: j <= t < k && t < |u| ==> u[t] == 0.0
    ensures DotFrom(u, x, j) == DotFrom(u, x, k)
    decreases k - j
  {
    if j < k && j < |u| {
      DotFromSkipsZeros(u, x, j + 1, k);
    }
  }

  /** Unknowns past the end of the row are never read. */
  lemma {:induction false} DotFromPrefix(u: seq<real>, x: seq<real>, y: seq<real>, j: nat)
    requires |u| <= |x| && |u| <= |y|
    requires forall t :: j <= t < |u| ==> x[t] == y[t]
    ensures DotFrom(u, x, j) == DotFrom(u, y, j)
    decreases |u| - j
  {
    if j < |u| {
      DotFromPrefix(u, x, y, j + 1);
    }
  }

  /** Exchanging two equations does not change which vectors solve the system. */
  lemma SwapEquationsKeepsSolutions(a: Matrix, b: seq<real>, i: nat, j: nat, x: seq<real>)
    requires |a| == |b| && i < |a| && j < |a|
    ensures Solves(a, b, x) <==> Solves(SwapPlaces(a, i, j), SwapPlaces(b, i, j), x)
  {
    var a', b' := SwapPlaces(a, i, j), SwapPlaces(b, i, j);
    SolvesEveryRow(a, b, x);
    SolvesEveryRow(a', b', x);
    if Solves(a, b, x) {
      forall t | 0 <= t < |a'|
        ensures |a'[t]| == |x| && Dot(a'[t], x) == b'[t]
      {
        var t' := if t == i then j else if t == j then i else t;
        assert a'[t] == a[t'] && b'[t] == b[t'];
      }
    }
    if Solves(a', b', x) {
      forall t | 0 <= t < |a|
        ensures |a[t]| == |x| && Dot(a[t], x) == b[t]
      {
        var t' := if t == i then j else if t == j then i else t;
        assert a'[t'] == a[t] && b'[t'] == b[t];
      }
    }
  }
}
