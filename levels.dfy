/** The depth labelling that levelGraph computes by breadth-first search:
    `depth[v]` is the number of edges on a shortest residual path from the
    source to `v`, or -1 when no labelled path reaches `v`. */
module Levels {
  import opened Matrix
  import opened Paths

  /** Some labelled node one level above `v` has a residual edge into `v`. */
  ghost predicate HasParent(adj: Mat, depth: seq<int>, v: nat)
    requires IsSquare(adj, |depth|) && v < |depth|
  {
    exists u: nat :: u < |depth| && depth[u] >= 0 && depth[u] + 1 == depth[v] && adj[u][v] > 0
  }

  /** `depth` labels `s` with 0, leaves other nodes at -1 or gives them a
      parent one level up. */
  ghost predicate Labelling(adj: Mat, depth: seq<int>, s: nat) {
    && IsSquare(adj, |depth|) && s < |depth| && depth[s] == 0
    && (forall v :: 0 <= v < |depth| ==> depth[v] >= -1)
    && (forall v: nat {:trigger HasParent(adj, depth, v)} :: v < |depth| && v != s && depth[v] >= 0 ==> HasParent(adj, depth, v))
  }

  /** No residual path from `s` to a labelled node is shorter than its label. */
  ghost predicate Shortest(adj: Mat, depth: seq<int>, s: nat)
    requires IsSquare(adj, |depth|)
  {
    forall p {:trigger IsPath(adj, p)} :: IsPath(adj, p) && p[0] == s && depth[p[|p| - 1]] >= 0 ==> depth[p[|p| - 1]] <= |p| - 1
  }

  /** Every node that a residual path from `s` with fewer than `d` edges
      reaches is labelled. */
  ghost predicate LabelsBelow(adj: Mat, depth: seq<int>, s: nat, d: int)
    requires IsSquare(adj, |depth|)
  {
    forall p {:trigger IsPath(adj, p)} :: IsPath(adj, p) && p[0] == s && |p| - 1 < d ==> depth[p[|p| - 1]] >= 0
  }

  /** Every residual edge out of `u` leads to a labelled node. */
  ghost predicate Closed(adj: Mat, depth: seq<int>, u: nat)
    requires IsSquare(adj, |depth|) && u < |depth|
  {
    forall v {:trigger adj[u][v]} :: 0 <= v < |depth| && adj[u][v] > 0 ==> depth[v] >= 0
  }

  /** Following parents from a labelled `v` back to `s` gives a residual path
      that meets depth `i` at position `i`. */
  lemma {:induction false} LevelPathTo(adj: Mat, depth: seq<int>, s: nat, v: nat) returns (p: seq<nat>)
    requires Labelling(adj, depth, s) && v < |depth| && depth[v] >= 0
    ensures |p| == depth[v] + 1 && p[0] == s && p[|p| - 1] == v
    ensures forall i :: 0 <= i < |p| ==> p[i] < |depth| && depth[p[i]] == i
    ensures forall i :: 0 < i < |p| ==> adj[p[i - 1]][p[i]] > 0
    decreases depth[v]
  {
    if v == s {
      p := [v];
    } else {
      assert HasParent(adj, depth, v);
      var u: nat :| u < |depth| && depth[u] >= 0 && depth[u] + 1 == depth[v] && adj[u][v] > 0;
      var q := LevelPathTo(adj, depth, s, u);
      p := q + [v];
    }
  }

  /** The parent path is a path of the level graph of the unpruned residual
      graph, so that graph is not blocked at a labelled sink. */
  lemma LevelPathAdmissible(adj: Mat, depth: seq<int>, s: nat, t: nat) returns (p: seq<nat>)
    requires Labelling(adj, depth, s) && t < |depth| && depth[t] >= 0
    ensures AdmissiblePath(adj, adj, depth, s, t, p)
  {
    p := LevelPathTo(adj, depth, s, t);
    forall i | 0 < i < |p| ensures Admissible(adj, adj, depth, p[i - 1], p[i]) {
      assert depth[p[i - 1]] == i - 1;
    }
  }

  /** A labelled `t` is reachable from `s`. */
  lemma LabelledIsReachable(adj: Mat, depth: seq<int>, s: nat, t: nat)
    requires Labelling(adj, depth, s) && t < |depth| && depth[t] >= 0
    ensures Reachable(adj, s, t)
  {
    var p := LevelPathTo(adj, depth, s, t);
    assert IsPath(adj, p);
  }

  /** When every labelled node below level `d` is closed, every residual path
      from `s` with at most `d` edges ends at a labelled node. */
  lemma {:induction false} BoundedReach(adj: Mat, depth: seq<int>, s: nat, d: int, p: seq<nat>)
    requires IsSquare(adj, |depth|) && s < |depth| && depth[s] >= 0
    requires Shortest(adj, depth, s)
    requires forall u :: 0 <= u < |depth| && 0 <= depth[u] < d ==> Closed(adj, depth, u)
    requires IsPath(adj, p) && p[0] == s
    ensures |p| - 1 <= d ==> depth[p[|p| - 1]] >= 0
    decreases |p|
  {
    if |p| > 1 {
      var q := p[..|p| - 1];
      assert IsPath(adj, q);
      BoundedReach(adj, depth, s, d, q);
      var u := q[|q| - 1];
      if |p| - 1 <= d {
        assert depth[u] >= 0 && depth[u] <= |q| - 1;
        assert Closed(adj, depth, u);
        assert adj[u][p[|p| - 1]] > 0;
      }
    }
  }

  /** Once every labelled node is closed, every node reachable from a
      labelled `s` is labelled. */
  lemma ExhaustedReach(adj: Mat, depth: seq<int>, s: nat)
    requires IsSquare(adj, |depth|) && s < |depth| && depth[s] >= 0
    requires Shortest(adj, depth, s)
    requires forall u :: 0 <= u < |depth| && depth[u] >= 0 ==> Closed(adj, depth, u)
    ensures forall t :: 0 <= t < |depth| && Reachable(adj, s, t) ==> depth[t] >= 0
  {
    forall t | 0 <= t < |depth| && Reachable(adj, s, t) ensures depth[t] >= 0 {
      var p :| IsPath(adj, p) && p[0] == s && p[|p| - 1] == t;
      BoundedReach(adj, depth, s, |p| - 1, p);
    }
  }

  /** Labelling an unlabelled `v` one level below a labelled `u` with a
      residual edge `u -> v` keeps the labelling well-founded. */
  lemma LabellingExtend(adj: Mat, depth: seq<int>, s: nat, u: nat, v: nat)
    requires Labelling(adj, depth, s) && u < |depth| && v < |depth|
    requires depth[u] >= 0 && depth[v] == -1 && adj[u][v] > 0
    ensures Labelling(adj, depth[v := depth[u] + 1], s)
  {
    var depth' := depth[v := depth[u] + 1];
    forall w: nat | w < |depth'| && w != s && depth'[w] >= 0 ensures HasParent(adj, depth', w) {
      if w == v {
        assert depth'[u] >= 0 && depth'[u] + 1 == depth'[w] && adj[u][w] > 0;
      } else {
        assert HasParent(adj, depth, w);
        var x: nat :| x < |depth| && depth[x] >= 0 && depth[x] + 1 == depth[w] && adj[x][w] > 0;
        assert depth'[x] == depth[x];
      }
    }
  }

  /** Labelling an unlabelled `v` with `d + 1`, at a time when every labelled
      node below level `d` is closed, keeps every label a lower bound on path
      length. */
  lemma ShortestExtend(adj: Mat, depth: seq<int>, s: nat, v: nat, d: int)
    requires IsSquare(adj, |depth|) && s < |depth| && depth[s] >= 0 && v < |depth| && depth[v] == -1
    requires Shortest(adj, depth, s)
    requires forall u :: 0 <= u < |depth| && 0 <= depth[u] < d ==> Closed(adj, depth, u)
    ensures Shortest(adj, depth[v := d + 1], s)
  {
    var depth' := depth[v := d + 1];
    forall p | IsPath(adj, p) && p[0] == s && depth'[p[|p| - 1]] >= 0
      ensures depth'[p[|p| - 1]] <= |p| - 1
    {
      BoundedReach(adj, depth, s, d, p);
    }
  }

  /** The breadth-first queue `q` of a labelling: exactly the labelled nodes,
      each once, in order of non-decreasing depth; `pos[v]` is the position of
      a labelled `v` in `q`. */
  ghost predicate BfsQueue(adj: Mat, depth: seq<int>, s: nat, q: seq<nat>, pos: seq<int>) {
    && Labelling(adj, depth, s) && Shortest(adj, depth, s) && |pos| == |depth|
    && (forall i :: 0 <= i < |q| ==> q[i] < |depth| && depth[q[i]] >= 0 && pos[q[i]] == i)
    && (forall v :: 0 <= v < |depth| && depth[v] >= 0 ==> 0 <= pos[v] < |q| && q[pos[v]] == v)
    && (forall i, j :: 0 <= i <= j < |q| ==> depth[q[i]] <= depth[q[j]])
  }

  /** A queue with positions holds no node twice, so it fits in `n` slots. */
  lemma QueueDistinct(q: seq<nat>, pos: seq<int>, n: nat)
    requires |pos| == n && forall i :: 0 <= i < |q| ==> q[i] < n && pos[q[i]] == i
    ensures forall i, j :: 0 <= i < j < |q| ==> q[i] != q[j]
    ensures |q| <= n
  {
    DistinctBound(q, n);
  }

  /** In a sorted queue whose first `front - 1` entries are closed, every
      node labelled below the level of entry `front - 1` is closed. */
  lemma LowerLevelsClosed(adj: Mat, depth: seq<int>, s: nat, q: seq<nat>, pos: seq<int>, front: nat)
    requires BfsQueue(adj, depth, s, q, pos) && 0 < front <= |q|
    requires forall j :: 0 <= j < front - 1 ==> Closed(adj, depth, q[j])
    ensures forall u :: 0 <= u < |depth| && 0 <= depth[u] < depth[q[front - 1]] ==> Closed(adj, depth, u)
  {
    forall u | 0 <= u < |depth| && 0 <= depth[u] < depth[q[front - 1]] ensures Closed(adj, depth, u) {
      var j := pos[u];
      assert q[j] == u;
      assert j < front - 1;
    }
  }

  /** Discovering an unlabelled `v` over a residual edge from the node `u`
      being expanded at level `d`: label it `d + 1` and append it to the
      queue. The queue stays a breadth-first queue, fits in `|depth|` slots,
      no label rises above `d + 1`, and labels and closedness only grow. */
  lemma Discover(adj: Mat, depth': seq<int>, depth: seq<int>, s: nat, q: seq<nat>, pos: seq<int>, u: nat, v: nat, d: int)
    requires BfsQueue(adj, depth, s, q, pos) && u < |depth| && v < |depth|
    requires depth[u] == d && d >= 0 && depth[v] == -1 && adj[u][v] > 0
    requires depth' == depth[v := d + 1]
    requires forall x :: 0 <= x < |depth| ==> depth[x] <= d + 1
    requires forall x :: 0 <= x < |depth| && 0 <= depth[x] < d ==> Closed(adj, depth, x)
    ensures BfsQueue(adj, depth', s, q + [v], pos[v := |q|]) && |q| < |depth|
    ensures forall x :: 0 <= x < |depth'| ==> depth'[x] <= d + 1
    ensures forall x :: 0 <= x < |depth| && depth[x] >= 0 ==> depth'[x] == depth[x]
    ensures forall x :: 0 <= x < |depth| && Closed(adj, depth, x) ==> Closed(adj, depth', x)
  {
    LabellingExtend(adj, depth, s, u, v);
    ShortestExtend(adj, depth, s, v, d);
    var q', pos' := q + [v], pos[v := |q|];
    forall i | 0 <= i < |q'| ensures q'[i] < |depth| && depth'[q'[i]] >= 0 && pos'[q'[i]] == i {
      if i < |q| {
        assert q[i] != v;
      }
    }
    QueueDistinct(q', pos', |depth|);
    forall i, j | 0 <= i <= j < |q'| ensures depth'[q'[i]] <= depth'[q'[j]] {
      if j < |q| {
        assert q[i] != v && q[j] != v;
      }
    }
  }

  /** Between two expansions: the first `front` queue entries are expanded
      and closed, no queued label exceeds the next entry's by more than one,
      and `t` is still unlabelled unless it is `s`. */
  ghost predicate BfsOuter(adj: Mat, depth: seq<int>, s: nat, t: nat, q: seq<nat>, pos: seq<int>, front: nat) {
    && BfsQueue(adj, depth, s, q, pos) && front <= |q| && t < |depth|
    && (front < |q| ==> forall v :: 0 <= v < |depth| ==> depth[v] <= depth[q[front]] + 1)
    && (forall j :: 0 <= j < front ==> Closed(adj, depth, q[j]))
    && (s != t ==> depth[t] == -1)
  }

  /** While expanding entry `front - 1`: the first `k` of its listed
      neighbours are labelled, every node below its level is closed, and no
      label exceeds its level by more than one. */
  ghost predicate BfsInner(adj: Mat, depth: seq<int>, s: nat, t: nat, q: seq<nat>, pos: seq<int>, front: nat, adjacent: seq<nat>, k: nat) {
    && BfsQueue(adj, depth, s, q, pos) && 0 < front <= |q| && k <= |adjacent| && t < |depth|
    && depth[q[front - 1]] >= 0
    && (forall v :: 0 <= v < |depth| ==> depth[v] <= depth[q[front - 1]] + 1)
    && (forall j :: 0 <= j < front - 1 ==> Closed(adj, depth, q[j]))
    && (forall u :: 0 <= u < |depth| && 0 <= depth[u] < depth[q[front - 1]] ==> Closed(adj, depth, u))
    && (forall i :: 0 <= i < k ==> adjacent[i] < |depth| && depth[adjacent[i]] >= 0)
    && (s != t ==> depth[t] == -1)
  }

  /** The search starts with only `s` labelled and queued. */
  lemma BfsStart(adj: Mat, depth: seq<int>, s: nat, t: nat, pos: seq<int>)
    requires IsSquare(adj, |depth|) && s < |depth| && t < |depth|
    requires depth == seq(|depth|, _ => -1)[s := 0] && pos == seq(|depth|, _ => 0)
    ensures BfsOuter(adj, depth, s, t, [s], pos, 0)
  {
    forall p | IsPath(adj, p) && p[0] == s && depth[p[|p| - 1]] >= 0
      ensures depth[p[|p| - 1]] <= |p| - 1
    {
      assert p[|p| - 1] == s;
    }
  }

  /** Taking the next entry off the queue starts its expansion. */
  lemma BfsBeginExpand(adj: Mat, depth: seq<int>, s: nat, t: nat, q: seq<nat>, pos: seq<int>, front: nat, adjacent: seq<nat>)
    requires BfsOuter(adj, depth, s, t, q, pos, front) && front < |q|
    ensures BfsInner(adj, depth, s, t, q, pos, front + 1, adjacent, 0)
  {
    LowerLevelsClosed(adj, depth, s, q, pos, front + 1);
  }

  /** A listed neighbour that is already labelled needs no work. */
  lemma BfsSkip(adj: Mat, depth: seq<int>, s: nat, t: nat, q: seq<nat>, pos: seq<int>, front: nat, adjacent: seq<nat>, k: nat)
    requires BfsInner(adj, depth, s, t, q, pos, front, adjacent, k) && k < |adjacent| && adjacent[k] < |depth|
    requires depth[adjacent[k]] != -1
    ensures BfsInner(adj, depth, s, t, q, pos, front, adjacent, k + 1)
  {
  }

  /** Labelling and queueing an unlabelled neighbour other than `t`. */
  lemma BfsDiscover(adj: Mat, depth': seq<int>, depth: seq<int>, s: nat, t: nat, q: seq<nat>, pos: seq<int>, front: nat, adjacent: seq<nat>, k: nat)
    requires BfsInner(adj, depth, s, t, q, pos, front, adjacent, k) && k < |adjacent|
    requires adjacent[k] < |depth| && adjacent[k] != t && depth[adjacent[k]] == -1 && adj[q[front - 1]][adjacent[k]] > 0
    requires depth' == depth[adjacent[k] := depth[q[front - 1]] + 1]
    ensures BfsInner(adj, depth', s, t, q + [adjacent[k]], pos[adjacent[k] := |q|], front, adjacent, k + 1)
    ensures |q| < |depth|
  {
    var u, v, d := q[front - 1], adjacent[k], depth[q[front - 1]];
    Discover(adj, depth', depth, s, q, pos, u, v, d);
    var q' := q + [v];
    assert q'[front - 1] == u;
    forall j | 0 <= j < front - 1 ensures Closed(adj, depth', q'[j]) {
      assert q'[j] == q[j] && Closed(adj, depth, q[j]);
    }
    forall i | 0 <= i < k + 1 ensures adjacent[i] < |depth'| && depth'[adjacent[i]] >= 0 {
      if i < k {
        assert depth[adjacent[i]] >= 0;
      }
    }
  }

  /** Labelling `t`: the search reports success with a proper labelling in
      which `t` is reachable and carries the largest label. */
  lemma BfsReachSink(adj: Mat, depth': seq<int>, depth: seq<int>, s: nat, t: nat, q: seq<nat>, pos: seq<int>, front: nat, adjacent: seq<nat>, k: nat)
    requires BfsInner(adj, depth, s, t, q, pos, front, adjacent, k) && k < |adjacent|
    requires adjacent[k] == t && depth[t] == -1 && adj[q[front - 1]][t] > 0
    requires depth' == depth[t := depth[q[front - 1]] + 1]
    ensures Labelling(adj, depth', s) && Shortest(adj, depth', s)
    ensures s != t && Reachable(adj, s, t)
    ensures depth'[t] >= 1 && forall v :: 0 <= v < |depth'| ==> depth'[v] <= depth'[t]
    ensures LabelsBelow(adj, depth', s, depth'[t])
  {
    var d := depth[q[front - 1]];
    Discover(adj, depth', depth, s, q, pos, q[front - 1], t, d);
    LabelledIsReachable(adj, depth', s, t);
    forall p | IsPath(adj, p) && p[0] == s && |p| - 1 < depth'[t]
      ensures depth'[p[|p| - 1]] >= 0
    {
      BoundedReach(adj, depth, s, d, p);
    }
  }

  /** After the last listed neighbour the expanded node is closed. */
  lemma BfsEndExpand(adj: Mat, depth: seq<int>, s: nat, t: nat, q: seq<nat>, pos: seq<int>, front: nat, adjacent: seq<nat>)
    requires BfsInner(adj, depth, s, t, q, pos, front, adjacent, |adjacent|)
    requires forall v :: 0 <= v < |depth| && adj[q[front - 1]][v] > 0 ==> v in adjacent
    ensures BfsOuter(adj, depth, s, t, q, pos, front)
  {
    var u := q[front - 1];
    assert Closed(adj, depth, u) by {
      forall v | 0 <= v < |depth| && adj[u][v] > 0 ensures depth[v] >= 0 {
        assert adj[q[front - 1]][v] > 0;
        assert v in adjacent;
        var i :| 0 <= i < |adjacent| && adjacent[i] == v;
      }
    }
    if front < |q| {
      assert depth[q[front - 1]] <= depth[q[front]];
    }
  }

  /** An empty queue: everything reachable from `s` is labelled, so `t`,
      still unlabelled, is unreachable. */
  lemma BfsExhausted(adj: Mat, depth: seq<int>, s: nat, t: nat, q: seq<nat>, pos: seq<int>)
    requires BfsOuter(adj, depth, s, t, q, pos, |q|)
    ensures Labelling(adj, depth, s) && Shortest(adj, depth, s)
    ensures !(s != t && Reachable(adj, s, t))
    ensures s != t ==> depth[t] == -1
    ensures forall v :: 0 <= v < |depth| && Reachable(adj, s, v) ==> depth[v] >= 0
  {
    forall u | 0 <= u < |depth| && depth[u] >= 0 ensures Closed(adj, depth, u) {
      assert q[pos[u]] == u;
    }
    ExhaustedReach(adj, depth, s);
  }

  /** `level'` keeps every label of `level`, and the only nodes it newly
      labels are among the first `k` of `adjacent`, each at level `d + 1`. */
  ghost predicate Grown(level: seq<int>, level': seq<int>, adjacent: seq<nat>, k: nat, d: int) {
    && |level'| == |level| && k <= |adjacent|
    && (forall v :: 0 <= v < |level| && level[v] >= 0 ==> level'[v] == level[v])
    && (forall v :: 0 <= v < |level| && level[v] == -1 && level'[v] != -1 ==> v in adjacent[..k] && level'[v] == d + 1)
  }

  /** Before the first neighbour nothing has grown. */
  lemma GrownStart(level: seq<int>, adjacent: seq<nat>, d: int)
    ensures Grown(level, level, adjacent, 0, d)
  {
  }

  /** Passing over a neighbour without labelling it. */
  lemma GrownSkip(level: seq<int>, level': seq<int>, adjacent: seq<nat>, k: nat, d: int)
    requires Grown(level, level', adjacent, k, d) && k < |adjacent|
    ensures Grown(level, level', adjacent, k + 1, d)
  {
    forall v | 0 <= v < |level| && level[v] == -1 && level'[v] != -1
      ensures v in adjacent[..k + 1]
    {
      assert v in adjacent[..k];
      var i :| 0 <= i < k && adjacent[..k][i] == v;
      assert adjacent[..k + 1][i] == v;
    }
  }

  /** Labelling the next neighbour, still unlabelled, at level `d + 1`. */
  lemma GrownLabel(level: seq<int>, level': seq<int>, adjacent: seq<nat>, k: nat, d: int)
    requires Grown(level, level', adjacent, k, d) && k < |adjacent| && adjacent[k] < |level'|
    requires level'[adjacent[k]] == -1
    ensures Grown(level, level'[adjacent[k] := d + 1], adjacent, k + 1, d)
  {
    GrownSkip(level, level', adjacent, k, d);
    assert adjacent[..k + 1][k] == adjacent[k];
  }
}
