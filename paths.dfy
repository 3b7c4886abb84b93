/** Paths in the residual graph and in a phase's level graph. */
module Paths {
  import opened Matrix
  import opened ResidualGraph

  /** `p` is a walk along positive residual capacities of `m`. */
  ghost predicate IsPath(m: Mat, p: seq<nat>)
    requires IsSquare(m, |m|)
  {
    && |p| >= 1
    && (forall i :: 0 <= i < |p| ==> p[i] < |m|)
    && (forall i :: 0 < i < |p| ==> m[p[i - 1]][p[i]] > 0)
  }

  /** Some walk along positive residual capacities leads from `s` to `t`. */
  ghost predicate Reachable(m: Mat, s: nat, t: nat)
    requires IsSquare(m, |m|)
  {
    exists p {:trigger IsPath(m, p)} :: IsPath(m, p) && p[0] == s && p[|p| - 1] == t
  }

  /** `u -> v` is an edge of the phase's level graph: positive in the live
      graph `adj` and in the phase snapshot `snap`, one level deeper. */
  predicate Admissible(adj: Mat, snap: Mat, depth: seq<int>, u: nat, v: nat)
    requires IsSquare(adj, |depth|) && IsSquare(snap, |depth|)
    requires u < |depth| && v < |depth|
  {
    adj[u][v] > 0 && snap[u][v] > 0 && depth[u] + 1 == depth[v]
  }

  /** `u` has an outgoing level-graph edge. */
  ghost predicate HasAdmissibleStep(adj: Mat, snap: Mat, depth: seq<int>, u: nat)
    requires IsSquare(adj, |depth|) && IsSquare(snap, |depth|) && u < |depth|
  {
    exists v: nat :: v < |depth| && Admissible(adj, snap, depth, u, v)
  }

  /** Position `i` of `p` is reached from position `i - 1` over a
      level-graph edge. */
  ghost predicate StepAt(adj: Mat, snap: Mat, depth: seq<int>, p: seq<nat>, i: int)
    requires IsSquare(adj, |depth|) && IsSquare(snap, |depth|)
  {
    0 < i < |p| && p[i - 1] < |depth| && p[i] < |depth| && Admissible(adj, snap, depth, p[i - 1], p[i])
  }

  /** `p` leads from `s` to `t` along level-graph edges. */
  ghost predicate AdmissiblePath(adj: Mat, snap: Mat, depth: seq<int>, s: nat, t: nat, p: seq<nat>)
    requires IsSquare(adj, |depth|) && IsSquare(snap, |depth|)
  {
    && |p| >= 1 && p[0] == s && p[|p| - 1] == t
    && (forall i :: 0 <= i < |p| ==> p[i] < |depth|)
    && (forall i :: 0 < i < |p| ==> StepAt(adj, snap, depth, p, i))
  }

  /** No level-graph path leads from `s` to `t`. */
  ghost predicate Blocked(adj: Mat, snap: Mat, depth: seq<int>, s: nat, t: nat)
    requires IsSquare(adj, |depth|) && IsSquare(snap, |depth|)
  {
    forall p :: !AdmissiblePath(adj, snap, depth, s, t, p)
  }

  /** The path search's working walk: it starts at `s`, the node at position
      `i` lies `i` levels below `s`, it avoids `t`, and it follows level-graph
      edges. */
  ghost predicate LevelWalk(adj: Mat, snap: Mat, depth: seq<int>, s: nat, t: nat, w: seq<nat>)
    requires IsSquare(adj, |depth|) && IsSquare(snap, |depth|) && s < |depth|
  {
    && |w| >= 1 && w[0] == s
    && (forall i :: 0 <= i < |w| ==> w[i] < |depth| && depth[w[i]] == depth[s] + i && w[i] != t)
    && (forall i :: 0 < i < |w| ==> StepAt(adj, snap, depth, w, i))
  }

  /** A level-graph path from a depth-0 start visits depth `i` at position
      `i`, so it never repeats a node and never returns to its start. */
  lemma {:induction false} AdmissiblePathLevels(adj: Mat, snap: Mat, depth: seq<int>, s: nat, t: nat, p: seq<nat>)
    requires IsSquare(adj, |depth|) && IsSquare(snap, |depth|)
    requires s < |depth| && depth[s] == 0
    requires AdmissiblePath(adj, snap, depth, s, t, p)
    ensures forall i :: 0 <= i < |p| ==> depth[p[i]] == i
    ensures forall i, j :: 0 <= i < j < |p| ==> p[i] != p[j]
  {
    var k := 0;
    while k < |p|
      invariant 0 <= k <= |p|
      invariant forall i :: 0 <= i < k ==> depth[p[i]] == i
    {
      if k > 0 {
        assert StepAt(adj, snap, depth, p, k);
      }
      k := k + 1;
    }
  }

  /** A sequence of distinct nodes below `n` has at most `n` elements. */
  lemma {:induction false} DistinctBound(q: seq<nat>, n: nat)
    requires forall i :: 0 <= i < |q| ==> q[i] < n
    requires forall i, j :: 0 <= i < j < |q| ==> q[i] != q[j]
    ensures |q| <= n
    decreases |q|
  {
    if q != [] {
      var x := q[|q| - 1];
      // Rename `n - 1` to `x` in the other elements: they stay distinct and
      // drop below `n - 1`.
      var r := seq(|q| - 1, i requires 0 <= i < |q| - 1 => if q[i] == n - 1 then x else q[i]);
      forall i | 0 <= i < |r| ensures r[i] < n - 1 {
        assert q[i] != x;
      }
      DistinctBound(r, n - 1);
    }
  }

  /** Zeroing entries of the snapshot can only remove level-graph paths. */
  lemma PrunedPathWasThere(adj: Mat, snap': Mat, snap: Mat, depth: seq<int>, s: nat, t: nat)
    requires IsSquare(adj, |depth|) && IsSquare(snap, |depth|) && Pruned(snap', snap)
    ensures forall p :: AdmissiblePath(adj, snap', depth, s, t, p) ==> AdmissiblePath(adj, snap, depth, s, t, p)
  {
    forall p | AdmissiblePath(adj, snap', depth, s, t, p) ensures AdmissiblePath(adj, snap, depth, s, t, p) {
      forall i | 0 < i < |p| ensures StepAt(adj, snap, depth, p, i) {
        assert StepAt(adj, snap', depth, p, i);
      }
    }
  }

  /** Hence pruning keeps a blocked level graph blocked. */
  lemma PrunedLosesNoBlock(adj: Mat, snap': Mat, snap: Mat, depth: seq<int>, s: nat, t: nat)
    requires IsSquare(adj, |depth|) && IsSquare(snap, |depth|) && Pruned(snap', snap)
    requires Blocked(adj, snap, depth, s, t)
    ensures Blocked(adj, snap', depth, s, t)
  {
    PrunedPathWasThere(adj, snap', snap, depth, s, t);
  }

  /** Clearing the column of a dead end, a node other than `t` with no
      outgoing level-graph edge, keeps every level-graph path from `s` to `t`:
      none of them can pass through the dead end. */
  lemma DeadEndPruneKeepsPaths(adj: Mat, snap': Mat, snap: Mat, depth: seq<int>, s: nat, t: nat, x: nat)
    requires IsSquare(adj, |depth|) && IsSquare(snap, |depth|)
    requires x < |depth| && x != t && !HasAdmissibleStep(adj, snap, depth, x)
    requires ColumnCleared(snap', snap, x)
    ensures forall p :: AdmissiblePath(adj, snap, depth, s, t, p) ==> AdmissiblePath(adj, snap', depth, s, t, p)
  {
    forall p | AdmissiblePath(adj, snap, depth, s, t, p)
      ensures AdmissiblePath(adj, snap', depth, s, t, p)
    {
      forall i | 0 < i < |p| ensures p[i] != x {
        if i < |p| - 1 {
          assert StepAt(adj, snap, depth, p, i + 1);
        }
      }
      forall i | 0 < i < |p| ensures StepAt(adj, snap', depth, p, i) {
        assert StepAt(adj, snap, depth, p, i);
      }
    }
  }

  /** A level-graph path between two different nodes starts with a
      level-graph edge out of its first node. */
  lemma AdmissiblePathFirstStep(adj: Mat, snap: Mat, depth: seq<int>, s: nat, t: nat)
    requires IsSquare(adj, |depth|) && IsSquare(snap, |depth|) && s != t
    ensures forall p {:trigger AdmissiblePath(adj, snap, depth, s, t, p)} :: AdmissiblePath(adj, snap, depth, s, t, p) ==>
      |p| >= 2 && p[1] < |depth| && Admissible(adj, snap, depth, s, p[1])
  {
    forall p | AdmissiblePath(adj, snap, depth, s, t, p)
      ensures |p| >= 2 && p[1] < |depth| && Admissible(adj, snap, depth, s, p[1])
    {
      assert p[0] == s && p[|p| - 1] == t;
      assert StepAt(adj, snap, depth, p, 1);
    }
  }

  /** When `s` itself has no outgoing level-graph edge, no level-graph path
      leads from `s` to a different `t`. */
  lemma StuckSourceIsBlocked(adj: Mat, snap: Mat, depth: seq<int>, s: nat, t: nat)
    requires IsSquare(adj, |depth|) && IsSquare(snap, |depth|)
    requires s < |depth| && s != t && !HasAdmissibleStep(adj, snap, depth, s)
    ensures Blocked(adj, snap, depth, s, t)
  {
    AdmissiblePathFirstStep(adj, snap, depth, s, t);
  }

  /** The nodes of a walk lie on distinct levels, so they are distinct. */
  lemma WalkDistinct(adj: Mat, snap: Mat, depth: seq<int>, s: nat, t: nat, w: seq<nat>)
    requires IsSquare(adj, |depth|) && IsSquare(snap, |depth|) && s < |depth|
    requires LevelWalk(adj, snap, depth, s, t, w)
    ensures forall i, j :: 0 <= i < j < |w| ==> w[i] != w[j]
    ensures |w| <= |depth|
  {
    forall i, j | 0 <= i < j < |w| ensures w[i] != w[j] {
      assert depth[w[i]] == depth[s] + i && depth[w[j]] == depth[s] + j;
    }
    DistinctBound(w, |depth|);
  }

  /** Following a level-graph edge to a node other than `t` extends a walk. */
  lemma WalkAdvance(adj: Mat, snap: Mat, depth: seq<int>, s: nat, t: nat, w: seq<nat>, v: nat)
    requires IsSquare(adj, |depth|) && IsSquare(snap, |depth|) && s < |depth|
    requires LevelWalk(adj, snap, depth, s, t, w)
    requires v < |depth| && v != t && Admissible(adj, snap, depth, w[|w| - 1], v)
    ensures LevelWalk(adj, snap, depth, s, t, w + [v]) && |w| + 1 <= |depth|
  {
    forall i | 0 < i < |w| + 1 ensures StepAt(adj, snap, depth, w + [v], i) {
      if i < |w| {
        assert StepAt(adj, snap, depth, w, i);
      }
    }
    WalkDistinct(adj, snap, depth, s, t, w + [v]);
  }

  /** Following a level-graph edge into `t` completes a walk to a level-graph
      path of distinct nodes. */
  lemma WalkArrive(adj: Mat, snap: Mat, depth: seq<int>, s: nat, t: nat, w: seq<nat>)
    requires IsSquare(adj, |depth|) && IsSquare(snap, |depth|) && s < |depth|
    requires LevelWalk(adj, snap, depth, s, t, w)
    requires t < |depth| && Admissible(adj, snap, depth, w[|w| - 1], t)
    ensures AdmissiblePath(adj, snap, depth, s, t, w + [t])
    ensures forall i, j :: 0 <= i < j < |w| + 1 ==> (w + [t])[i] != (w + [t])[j]
  {
    var p := w + [t];
    forall i | 0 < i < |p| ensures StepAt(adj, snap, depth, p, i) {
      if i < |w| {
        assert StepAt(adj, snap, depth, w, i);
      }
    }
    forall i, j | 0 <= i < j < |p| ensures p[i] != p[j] {
      assert depth[p[i]] == depth[s] + i && depth[p[j]] == depth[s] + j;
    }
  }

  /** Pruning the dead end that ends a walk drops it from the walk, shrinks
      the snapshot's live columns and keeps every level-graph path. */
  lemma WalkRetreat(adj: Mat, snap': Mat, snap: Mat, depth: seq<int>, s: nat, t: nat, w: seq<nat>)
    requires IsSquare(adj, |depth|) && IsSquare(snap, |depth|) && s < |depth|
    requires LevelWalk(adj, snap, depth, s, t, w) && |w| >= 2
    requires !HasAdmissibleStep(adj, snap, depth, w[|w| - 1])
    requires ColumnCleared(snap', snap, w[|w| - 1])
    ensures LevelWalk(adj, snap', depth, s, t, w[..|w| - 1])
    ensures LiveColumns(snap') < LiveColumns(snap)
    ensures Pruned(snap', snap)
    ensures forall p :: AdmissiblePath(adj, snap, depth, s, t, p) ==> AdmissiblePath(adj, snap', depth, s, t, p)
  {
    var x := w[|w| - 1];
    assert StepAt(adj, snap, depth, w, |w| - 1);
    assert ColumnLive(snap, x);
    ClearingShrinksLiveColumns(snap', snap, x);
    ClearedIsPruned(snap', snap, x);
    DeadEndPruneKeepsPaths(adj, snap', snap, depth, s, t, x);
    var w' := w[..|w| - 1];
    forall i | 0 < i < |w'| ensures StepAt(adj, snap', depth, w', i) {
      assert depth[w'[i]] == depth[s] + i && depth[x] == depth[s] + |w| - 1;
      assert StepAt(adj, snap, depth, w, i);
    }
  }

  /** A scan of the neighbour list that stops at the first level-graph edge
      has found the lowest-numbered level-graph successor of `u`. */
  lemma ScanStopsAtFirst(adj: Mat, snap: Mat, depth: seq<int>, u: nat, adjacent: seq<nat>, at: nat)
    requires IsSquare(adj, |depth|) && IsSquare(snap, |depth|) && u < |depth|
    requires ListsPositive(adj[u], adjacent) && at < |adjacent|
    requires forall i :: 0 <= i < at ==> !Admissible(adj, snap, depth, u, adjacent[i])
    ensures forall v: nat :: v < adjacent[at] ==> !Admissible(adj, snap, depth, u, v)
  {
    forall v: nat | v < adjacent[at] ensures !Admissible(adj, snap, depth, u, v) {
      if adj[u][v] > 0 {
        assert v in adjacent;
        var i :| 0 <= i < |adjacent| && adjacent[i] == v;
        assert i < at;
      }
    }
  }

  /** A scan of the whole neighbour list that meets no level-graph edge shows
      that `u` has no level-graph successor at all. */
  lemma ScanFindsNone(adj: Mat, snap: Mat, depth: seq<int>, u: nat, adjacent: seq<nat>)
    requires IsSquare(adj, |depth|) && IsSquare(snap, |depth|) && u < |depth|
    requires ListsPositive(adj[u], adjacent)
    requires forall i :: 0 <= i < |adjacent| ==> !Admissible(adj, snap, depth, u, adjacent[i])
    ensures !HasAdmissibleStep(adj, snap, depth, u)
  {
    forall v: nat | v < |depth| ensures !Admissible(adj, snap, depth, u, v) {
      if adj[u][v] > 0 {
        assert v in adjacent;
        var i :| 0 <= i < |adjacent| && adjacent[i] == v;
        assert !Admissible(adj, snap, depth, u, adjacent[i]);
      }
    }
  }
}
