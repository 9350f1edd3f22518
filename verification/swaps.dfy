/**
 Row and column exchanges used by the pivoting strategies. A row swap moves an
 equation (its coefficients and its right-hand side entry); a column swap
 renames two unknowns, so it touches every row and the transformation vector.
 */
module Swaps {
  import opened Systems

  /** Exchanges rows i and j of the matrix and of the right-hand side; the
      transformation vector is not involved. Nothing happens when i == j. */
  function SwapRows(s: System, i: nat, j: nat): (r: System)
    requires i < |s.matrix| && j < |s.matrix| && i < |s.result| && j < |s.result|
    ensures |r.matrix| == |s.matrix| && |r.result| == |s.result| && r.tv == s.tv
    ensures r.matrix[i] == s.matrix[j] && r.matrix[j] == s.matrix[i]
    ensures r.result[i] == s.result[j] && r.result[j] == s.result[i]
    ensures forall t :: 0 <= t < |s.matrix| && t != i && t != j ==> r.matrix[t] == s.matrix[t]
    ensures forall t :: 0 <= t < |s.result| && t != i && t != j ==> r.result[t] == s.result[t]
  {
    if i != j then System(SwapPlaces(s.matrix, i, j), SwapPlaces(s.result, i, j), s.tv) else s
  }

  /** Exchanges entries i and j in every row and in the transformation
      vector; the right-hand side is not involved. Nothing happens when i == j. */
  function SwapColumns(s: System, i: nat, j: nat): (r: System)
    requires i < |s.tv| && j < |s.tv|
    requires forall t :: 0 <= t < |s.matrix| ==> i < |s.matrix[t]| && j < |s.matrix[t]|
    ensures |r.matrix| == |s.matrix| && r.result == s.result && |r.tv| == |s.tv|
    ensures forall t :: 0 <= t < |s.matrix| ==>
              |r.matrix[t]| == |s.matrix[t]| && r.matrix[t][i] == s.matrix[t][j] && r.matrix[t][j] == s.matrix[t][i]
    ensures forall t, c :: 0 <= t < |s.matrix| && 0 <= c < |s.matrix[t]| && c != i && c != j ==>
              r.matrix[t][c] == s.matrix[t][c]
    ensures r.tv[i] == s.tv[j] && r.tv[j] == s.tv[i]
    ensures forall c :: 0 <= c < |s.tv| && c != i && c != j ==> r.tv[c] == s.tv[c]
    ensures IsPermutation(s.tv) ==> IsPermutation(r.tv)
  {
    if i != j then
      SwapKeepsPermutation(s.tv, i, j);
      System(seq(|s.matrix|, t requires 0 <= t < |s.matrix| => SwapPlaces(s.matrix[t], i, j)),
             s.result, SwapPlaces(s.tv, i, j))
    else s
  }

  lemma SwapRowsInvolutive(s: System, i: nat, j: nat)
    requires i < |s.matrix| && j < |s.matrix| && i < |s.result| && j < |s.result|
    ensures SwapRows(SwapRows(s, i, j), i, j) == s
  {
    var r := SwapRows(SwapRows(s, i, j), i, j);
    assert r.matrix == s.matrix;
    assert r.result == s.result;
  }

  /** A row swap exchanges two equations, so exactly the same vectors solve
      the system before and after. */
  lemma SwapRowsKeepsSolutions(s: System, i: nat, j: nat, x: seq<real>)
    requires |s.matrix| == |s.result| && i < |s.matrix| && j < |s.matrix|
    ensures Solves(s.matrix, s.result, x) <==> Solves(SwapRows(s, i, j).matrix, SwapRows(s, i, j).result, x)
  {
    if i != j {
      SwapEquationsKeepsSolutions(s.matrix, s.result, i, j, x);
    }
  }

  /** A column swap renames unknowns i and j: x solves the old system exactly
      when x with entries i and j exchanged solves the new one. */
  lemma SwapColumnsKeepsSolutions(s: System, i: nat, j: nat, x: seq<real>)
    requires i < |s.tv| && j < |s.tv| && i < |x| && j < |x|
    requires forall t :: 0 <= t < |s.matrix| ==> |s.matrix[t]| == |x|
    ensures Solves(s.matrix, s.result, x) <==> Solves(SwapColumns(s, i, j).matrix, s.result, SwapPlaces(x, i, j))
  {
    var r := SwapColumns(s, i, j);
    var x' := SwapPlaces(x, i, j);
    SolvesEveryRow(s.matrix, s.result, x);
    SolvesEveryRow(r.matrix, s.result, x');
    forall t | 0 <= t < |s.matrix|
      ensures |r.matrix[t]| == |x'| && Dot(r.matrix[t], x') == Dot(s.matrix[t], x)
    {
      if i != j {
        assert r.matrix[t] == SwapPlaces(s.matrix[t], i, j);
        DotSwap(s.matrix[t], x, i, j);
      } else {
        assert x' == x;
      }
    }
  }

  /** Reading a vector through a transformation vector commutes with swapping
      two of its entries. */
  lemma PermuteSwap(x: seq<real>, tv: seq<nat>, i: nat, j: nat)
    requires i < |tv| && j < |tv| && forall t :: 0 <= t < |tv| ==> tv[t] < |x|
    ensures Permute(x, SwapPlaces(tv, i, j)) == SwapPlaces(Permute(x, tv), i, j)
  {
  }
}
