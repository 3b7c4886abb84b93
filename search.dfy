/** The invariant of a phase's depth-first path search and how each of its
    steps keeps it. `snap0` is the snapshot the search started from, `snap`
    the current, pruned snapshot and `w` the walk the search holds. */
module PathSearch {
  import opened Matrix
  import opened Paths

  /** `snap` is a pruning of `snap0` that keeps every level-graph path of
      `snap0`, and when `s` and `t` differ `w` is a level walk over `snap`. */
  ghost predicate Searching(adj: Mat, snap0: Mat, snap: Mat, depth: seq<int>, s: nat, t: nat, w: seq<nat>)
    requires IsSquare(adj, |depth|) && IsSquare(snap0, |depth|) && IsSquare(snap, |depth|) && s < |depth|
  {
    && Pruned(snap, snap0)
    && (forall p :: AdmissiblePath(adj, snap0, depth, s, t, p) ==> AdmissiblePath(adj, snap, depth, s, t, p))
    && (s != t ==> LevelWalk(adj, snap, depth, s, t, w))
  }

  /** The search starts at `s` on the untouched snapshot. */
  lemma SearchStart(adj: Mat, snap0: Mat, depth: seq<int>, s: nat, t: nat)
    requires IsSquare(adj, |depth|) && IsSquare(snap0, |depth|) && s < |depth|
    ensures Searching(adj, snap0, snap0, depth, s, t, [s])
  {
  }

  /** Following a level-graph edge to a node other than `t` keeps the
      invariant and lengthens the walk, which stays within `|depth|` nodes. */
  lemma SearchAdvance(adj: Mat, snap0: Mat, snap: Mat, depth: seq<int>, s: nat, t: nat, w: seq<nat>, v: nat)
    requires IsSquare(adj, |depth|) && IsSquare(snap0, |depth|) && IsSquare(snap, |depth|) && s < |depth|
    requires Searching(adj, snap0, snap, depth, s, t, w) && s != t
    requires v < |depth| && v != t && Admissible(adj, snap, depth, w[|w| - 1], v)
    ensures Searching(adj, snap0, snap, depth, s, t, w + [v]) && |w| + 1 <= |depth|
  {
    WalkAdvance(adj, snap, depth, s, t, w, v);
  }

  /** Pruning a dead end `x` other than `s` that ends the walk keeps the
      invariant for the walk without it and shrinks the snapshot's live
      columns. */
  lemma SearchRetreat(adj: Mat, snap0: Mat, snap': Mat, snap: Mat, depth: seq<int>, s: nat, t: nat, w: seq<nat>, x: nat)
    requires IsSquare(adj, |depth|) && IsSquare(snap0, |depth|) && IsSquare(snap, |depth|) && s < |depth|
    requires Searching(adj, snap0, snap, depth, s, t, w + [x]) && s != t
    requires x != s && x < |depth| && !HasAdmissibleStep(adj, snap, depth, x)
    requires ColumnCleared(snap', snap, x)
    ensures w != [] && IsSquare(snap', |depth|)
    ensures Searching(adj, snap0, snap', depth, s, t, w)
    ensures LiveColumns(snap') < LiveColumns(snap)
  {
    WalkRetreat(adj, snap', snap, depth, s, t, w + [x]);
    assert (w + [x])[..|w|] == w;
    PrunedTransitive(snap', snap, snap0);
  }

  /** Following a level-graph edge into `t` completes a level-graph path of
      distinct nodes, so the starting snapshot was not blocked. */
  lemma SearchArrive(adj: Mat, snap0: Mat, snap: Mat, depth: seq<int>, s: nat, t: nat, w: seq<nat>)
    requires IsSquare(adj, |depth|) && IsSquare(snap0, |depth|) && IsSquare(snap, |depth|) && s < |depth|
    requires Searching(adj, snap0, snap, depth, s, t, w) && s != t
    requires t < |depth| && Admissible(adj, snap, depth, w[|w| - 1], t)
    ensures AdmissiblePath(adj, snap, depth, s, t, w + [t])
    ensures forall i, j :: 0 <= i < j < |w| + 1 ==> (w + [t])[i] != (w + [t])[j]
    ensures !Blocked(adj, snap0, depth, s, t)
  {
    WalkArrive(adj, snap, depth, s, t, w);
    PrunedPathWasThere(adj, snap, snap0, depth, s, t);
  }

  /** A search stuck at `s` shows that the starting snapshot was blocked. */
  lemma SearchStuck(adj: Mat, snap0: Mat, snap: Mat, depth: seq<int>, s: nat, t: nat, w: seq<nat>)
    requires IsSquare(adj, |depth|) && IsSquare(snap0, |depth|) && IsSquare(snap, |depth|) && s < |depth|
    requires Searching(adj, snap0, snap, depth, s, t, w) && s != t
    requires !HasAdmissibleStep(adj, snap, depth, s)
    ensures Blocked(adj, snap0, depth, s, t)
  {
    StuckSourceIsBlocked(adj, snap, depth, s, t);
  }
}
