/** Square integer matrices and the relations between two of them that the
    flow engine's state changes are stated with. */
module Matrix {

  type Mat = seq<seq<int>>

  /** `m` has `n` rows of `n` entries each. */
  predicate IsSquare(m: Mat, n: nat) {
    |m| == n && forall i :: 0 <= i < n ==> |m[i]| == n
  }

  /** Every entry of `m` is zero. */
  predicate AllZero(m: Mat) {
    forall i, j :: 0 <= i < |m| && 0 <= j < |m[i]| ==> m[i][j] == 0
  }

  /** No entry of `m` is negative. */
  predicate NonNegative(m: Mat) {
    forall i, j :: 0 <= i < |m| && 0 <= j < |m[i]| ==> m[i][j] >= 0
  }

  /** The all-zero `n` by `n` matrix. */
  function Zero(n: nat): (m: Mat)
    ensures IsSquare(m, n) && AllZero(m)
  {
    seq(n, _ => seq(n, _ => 0))
  }

  /** `m` and `m'` have the same shape and, for every pair of nodes, the same
      residual mass `m[u][v] + m[v][u]`. */
  ghost predicate SameMass(m': Mat, m: Mat) {
    IsSquare(m, |m|) && IsSquare(m', |m|) &&
    forall u, v :: 0 <= u < |m| && 0 <= v < |m| ==> m'[u][v] + m'[v][u] == m[u][v] + m[v][u]
  }

  /** `m'` is `m` with column `x` set to zero and nothing else changed. */
  ghost predicate ColumnCleared(m': Mat, m: Mat, x: nat) {
    IsSquare(m, |m|) && IsSquare(m', |m|) &&
    forall i, j {:trigger m'[i][j]} :: 0 <= i < |m| && 0 <= j < |m| ==> m'[i][j] == (if j == x then 0 else m[i][j])
  }

  /** `m'` is `m` with some entries set to zero and nothing else changed. */
  ghost predicate Pruned(m': Mat, m: Mat) {
    IsSquare(m, |m|) && IsSquare(m', |m|) &&
    forall i, j {:trigger m'[i][j]} :: 0 <= i < |m| && 0 <= j < |m| ==> m'[i][j] == m[i][j] || m'[i][j] == 0
  }

  /** Column `x` of `m` still holds a positive entry. */
  ghost predicate ColumnLive(m: Mat, x: nat)
    requires IsSquare(m, |m|) && x < |m|
  {
    exists i {:trigger m[i][x]} :: 0 <= i < |m| && m[i][x] > 0
  }

  /** The columns of `m` that still hold a positive entry. */
  ghost function LiveColumns(m: Mat): set<nat>
    requires IsSquare(m, |m|)
  {
    set x: nat | x < |m| && ColumnLive(m, x)
  }

  /** Clearing a column that held a positive entry removes it from the live
      columns and revives none. */
  lemma ClearingShrinksLiveColumns(m': Mat, m: Mat, x: nat)
    requires ColumnCleared(m', m, x)
    requires x in LiveColumns(m)
    ensures LiveColumns(m') < LiveColumns(m)
  {
    assert x !in LiveColumns(m');
    forall y | y in LiveColumns(m') ensures y in LiveColumns(m) {
      var i :| 0 <= i < |m'| && m'[i][y] > 0;
      assert m[i][y] > 0;
    }
  }

  /** Clearing a column is a pruning. */
  lemma ClearedIsPruned(m': Mat, m: Mat, x: nat)
    requires ColumnCleared(m', m, x)
    ensures Pruned(m', m)
  {
  }

  /** Pruning twice is a pruning. */
  lemma PrunedTransitive(m'': Mat, m': Mat, m: Mat)
    requires Pruned(m'', m') && Pruned(m', m)
    ensures Pruned(m'', m)
  {
  }
}
