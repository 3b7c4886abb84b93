/** The residual updates the flow engine applies to the live graph: one unit
    pushed over one edge, and one unit pushed along a whole path. */
module Residual {
  import opened Matrix

  /** One unit of flow over `u -> v`: the reverse residual `m[v][u]` gains 1,
      then the forward residual `m[u][v]` loses 1. */
  function Push(m: Mat, u: nat, v: nat): (r: Mat)
    requires IsSquare(m, |m|) && u < |m| && v < |m|
    ensures IsSquare(r, |m|)
  {
    var m1 := m[v := m[v][u := m[v][u] + 1]];
    m1[u := m1[u][v := m1[u][v] - 1]]
  }

  /** What Push changes: the forward entry drops by one, the reverse entry
      rises by one, a self-loop is left as it was, and no other entry moves;
      so every pair keeps its residual mass. */
  lemma PushEffect(m: Mat, u: nat, v: nat)
    requires IsSquare(m, |m|) && u < |m| && v < |m|
    ensures forall x, y :: 0 <= x < |m| && 0 <= y < |m| ==>
      Push(m, u, v)[x][y] ==
        if u == v then m[x][y]
        else if x == u && y == v then m[u][v] - 1
        else if x == v && y == u then m[v][u] + 1
        else m[x][y]
    ensures SameMass(Push(m, u, v), m)
  {
  }

  /** One unit pushed over every consecutive pair of `p`, first pair first. */
  function PushPath(m: Mat, p: seq<nat>): (r: Mat)
    requires IsSquare(m, |m|)
    requires forall i :: 0 <= i < |p| ==> p[i] < |m|
    ensures IsSquare(r, |m|)
    decreases |p|
  {
    if |p| < 2 then m else PushPath(Push(m, p[0], p[1]), p[1..])
  }

  /** Pushing along a path keeps the residual mass of every pair. */
  lemma {:induction false} PushPathConservesMass(m: Mat, p: seq<nat>)
    requires IsSquare(m, |m|)
    requires forall i :: 0 <= i < |p| ==> p[i] < |m|
    ensures SameMass(PushPath(m, p), m)
    decreases |p|
  {
    if |p| >= 2 {
      var m1 := Push(m, p[0], p[1]);
      PushEffect(m, p[0], p[1]);
      PushPathConservesMass(m1, p[1..]);
    }
  }

  /** A row whose node the path never visits is left as it was. */
  lemma {:induction false} PushPathKeepsUnvisitedRow(m: Mat, p: seq<nat>, s: nat)
    requires IsSquare(m, |m|) && s < |m|
    requires forall i :: 0 <= i < |p| ==> p[i] < |m| && p[i] != s
    ensures PushPath(m, p)[s] == m[s]
    decreases |p|
  {
    if |p| >= 2 {
      var m1 := Push(m, p[0], p[1]);
      PushEffect(m, p[0], p[1]);
      assert m1[s] == m[s];
      PushPathKeepsUnvisitedRow(m1, p[1..], s);
    }
  }

  /** A path that leaves `p[0]` once and never comes back lowers exactly one
      entry of row `p[0]`, the one towards `p[1]`, by one. */
  lemma PushPathStartRow(m: Mat, p: seq<nat>)
    requires IsSquare(m, |m|)
    requires |p| >= 2 && forall i :: 0 <= i < |p| ==> p[i] < |m|
    requires forall i :: 1 <= i < |p| ==> p[i] != p[0]
    ensures PushPath(m, p)[p[0]] == m[p[0]][p[1] := m[p[0]][p[1]] - 1]
  {
    var m1 := Push(m, p[0], p[1]);
    PushEffect(m, p[0], p[1]);
    assert m1[p[0]] == m[p[0]][p[1] := m[p[0]][p[1]] - 1];
    PushPathKeepsUnvisitedRow(m1, p[1..], p[0]);
  }

  /** Pushing along a path of distinct nodes whose every edge has positive
      residual capacity leaves a non-negative matrix non-negative. */
  lemma {:induction false} PushPathKeepsNonNegative(m: Mat, p: seq<nat>)
    requires IsSquare(m, |m|) && NonNegative(m)
    requires forall i :: 0 <= i < |p| ==> p[i] < |m|
    requires forall i, j :: 0 <= i < j < |p| ==> p[i] != p[j]
    requires forall i :: 0 <= i < |p| - 1 ==> m[p[i]][p[i + 1]] > 0
    ensures NonNegative(PushPath(m, p))
    decreases |p|
  {
    if |p| >= 2 {
      var m1 := Push(m, p[0], p[1]);
      PushEffect(m, p[0], p[1]);
      var rest := p[1..];
      forall i | 0 <= i < |rest| - 1 ensures m1[rest[i]][rest[i + 1]] > 0 {
        assert rest[i] == p[i + 1] && rest[i + 1] == p[i + 2];
        assert p[i + 1] != p[0] && p[i + 2] != p[0];
      }
      PushPathKeepsNonNegative(m1, rest);
    }
  }

  /** The total positive capacity of a row. */
  function PosSum(row: seq<int>): nat
    decreases |row|
  {
    if row == [] then 0 else (if row[0] > 0 then row[0] else 0) + PosSum(row[1..])
  }

  /** Taking one unit from a positive entry lowers the row's positive total
      by exactly one. */
  lemma {:induction false} PosSumDecrement(row: seq<int>, k: nat)
    requires k < |row| && row[k] > 0
    ensures PosSum(row[k := row[k] - 1]) == PosSum(row) - 1
    decreases |row|
  {
    if k > 0 {
      PosSumDecrement(row[1..], k - 1);
      assert row[k := row[k] - 1][1..] == row[1..][k - 1 := row[k] - 1];
    } else {
      assert row[k := row[k] - 1][1..] == row[1..];
    }
  }

  /** Committing a path of distinct nodes with positive capacity on every
      edge conserves every pair's mass, keeps a non-negative matrix
      non-negative and takes exactly one unit out of the start row. */
  lemma PushPathCommit(m: Mat, p: seq<nat>)
    requires IsSquare(m, |m|) && |p| >= 2
    requires forall i :: 0 <= i < |p| ==> p[i] < |m|
    requires forall i, j :: 0 <= i < j < |p| ==> p[i] != p[j]
    requires forall i :: 0 <= i < |p| - 1 ==> m[p[i]][p[i + 1]] > 0
    ensures SameMass(PushPath(m, p), m)
    ensures NonNegative(m) ==> NonNegative(PushPath(m, p))
    ensures PosSum(PushPath(m, p)[p[0]]) == PosSum(m[p[0]]) - 1
  {
    PushPathConservesMass(m, p);
    if NonNegative(m) {
      PushPathKeepsNonNegative(m, p);
    }
    PushPathStartRow(m, p);
    var row := m[p[0]];
    assert row[p[1]] > 0;
    PosSumDecrement(row, p[1]);
    assert PushPath(m, p)[p[0]] == row[p[1] := row[p[1]] - 1];
  }

  /** Mass conservation composes. */
  lemma SameMassTransitive(m'': Mat, m': Mat, m: Mat)
    requires SameMass(m'', m') && SameMass(m', m)
    ensures SameMass(m'', m)
  {
  }

  /** `p` can carry one more unit from `s` to `t` in `m`: it runs from `s` to
      `t` over distinct nodes with positive residual capacity on every edge. */
  ghost predicate AugmentingPath(m: Mat, s: nat, t: nat, p: seq<nat>)
    requires IsSquare(m, |m|)
  {
    && |p| >= 2 && p[0] == s && p[|p| - 1] == t
    && (forall i :: 0 <= i < |p| ==> p[i] < |m|)
    && (forall i, j :: 0 <= i < j < |p| ==> p[i] != p[j])
    && (forall i :: 0 <= i < |p| - 1 ==> m[p[i]][p[i + 1]] > 0)
  }

  /** `r` is `m` with one unit pushed along each path of `ps` in turn, first
      path first, where each path is an augmenting path from `s` to `t` of
      the matrix the paths before it leave. */
  ghost predicate AugmentedAlong(m: Mat, s: nat, t: nat, ps: seq<seq<nat>>, r: Mat)
    requires IsSquare(m, |m|)
    decreases |ps|
  {
    if ps == [] then r == m
    else AugmentingPath(m, s, t, ps[0]) && AugmentedAlong(PushPath(m, ps[0]), s, t, ps[1..], r)
  }

  /** Augmenting along `a` and then along `b` is augmenting along `a + b`. */
  lemma {:induction false} AugmentedAlongAppend(m: Mat, s: nat, t: nat, a: seq<seq<nat>>, m1: Mat, b: seq<seq<nat>>, m2: Mat)
    requires IsSquare(m, |m|) && IsSquare(m1, |m1|)
    requires AugmentedAlong(m, s, t, a, m1) && AugmentedAlong(m1, s, t, b, m2)
    ensures AugmentedAlong(m, s, t, a + b, m2)
    decreases |a|
  {
    if a == [] {
      assert a + b == b;
    } else {
      AugmentedAlongAppend(PushPath(m, a[0]), s, t, a[1..], m1, b, m2);
      assert (a + b)[1..] == a[1..] + b;
    }
  }

  /** One more augmenting path of the matrix that `ps` leaves extends `ps`. */
  lemma AugmentedAlongSnoc(m: Mat, s: nat, t: nat, ps: seq<seq<nat>>, m1: Mat, p: seq<nat>)
    requires IsSquare(m, |m|) && IsSquare(m1, |m1|)
    requires AugmentedAlong(m, s, t, ps, m1) && AugmentingPath(m1, s, t, p)
    ensures AugmentedAlong(m, s, t, ps + [p], PushPath(m1, p))
  {
    assert [p][1..] == [];
    AugmentedAlongAppend(m, s, t, ps, m1, [p], PushPath(m1, p));
  }

  /** Augmenting along `ps` conserves every pair's mass, keeps a
      non-negative matrix non-negative and takes exactly one unit per path
      out of the start row. */
  lemma {:induction false} AugmentedAlongDrainsSource(m: Mat, s: nat, t: nat, ps: seq<seq<nat>>, r: Mat)
    requires IsSquare(m, |m|) && s < |m| && AugmentedAlong(m, s, t, ps, r)
    ensures IsSquare(r, |m|) && SameMass(r, m)
    ensures NonNegative(m) ==> NonNegative(r)
    ensures PosSum(r[s]) + |ps| == PosSum(m[s])
    decreases |ps|
  {
    if ps != [] {
      var m1 := PushPath(m, ps[0]);
      PushPathCommit(m, ps[0]);
      AugmentedAlongDrainsSource(m1, s, t, ps[1..], r);
      SameMassTransitive(r, m1, m);
    }
  }
}
