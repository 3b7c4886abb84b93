/** Dinic's algorithm as FordFulkerson.cpp runs it on the unit-capacity
    residual graph: a breadth-first depth labelling per phase, then repeated
    depth-first searches over a snapshot of the residual matrix that is
    pruned at dead ends, each found path committed one unit at a time. */
module MaxFlow {
  import opened Failures
  import opened Matrix
  import opened Residual
  import opened Paths
  import opened Levels
  import opened PathSearch
  import opened ResidualGraph

  /** The walk the path search holds: `path` already ends in `node` while
      backtracking, otherwise `node` is still to be appended. */
  function Working(path: seq<nat>, node: nat, backtracking: bool): (w: seq<nat>)
    ensures |w| == if backtracking then |path| else |path| + 1
  {
    if backtracking then path else path + [node]
  }

  class FordFulkerson {
    /** The residual graph, updated in place by the algorithm. */
    const graph: Graph
    /** Level of each node in the current phase, -1 when unreached. */
    var depth: seq<int>
    /** The phase's snapshot of the residual matrix, pruned at dead ends. */
    var maxFlow: Mat

    ghost predicate Valid()
      reads this, graph
    {
      graph.Valid() && |depth| == graph.totalNodes && IsSquare(maxFlow, graph.totalNodes)
    }

    constructor (graph: Graph)
      requires graph.Valid()
      ensures Valid() && this.graph == graph
      ensures AllZero(maxFlow) && forall v :: 0 <= v < |depth| ==> depth[v] == 0
    {
      this.graph := graph;
      depth := [];
      maxFlow := [];
      new;
      InitializeMaxFlow();
      InitializeDepth();
    }

    /** initializeMaxFlow: the empty snapshot grows into an all-zero matrix
        over every node. */
    method InitializeMaxFlow()
      requires graph.Valid() && maxFlow == []
      modifies this`maxFlow
      ensures IsSquare(maxFlow, graph.totalNodes) && AllZero(maxFlow)
    {
      maxFlow := Zero(graph.GetNodes());
    }

    /** initializeDepth: the empty label vector grows to one zero-initialised
        level per node. */
    method InitializeDepth()
      requires graph.Valid() && depth == []
      modifies this`depth
      ensures |depth| == graph.totalNodes && forall v :: 0 <= v < |depth| ==> depth[v] == 0
    {
      depth := seq(graph.GetNodes(), _ => 0);
    }

    /** levelGraph: breadth-first search from `source` over positive residual
        capacities. Labels are shortest-path lengths; the search stops as soon
        as it labels `sink` and reports whether it did. */
    method LevelGraph(source: nat, sink: nat) returns (reached: bool)
      requires Valid() && source < graph.totalNodes && sink < graph.totalNodes
      modifies this`depth
      ensures Valid()
      ensures Labelling(graph.adj, depth, source) && Shortest(graph.adj, depth, source)
      ensures reached <==> source != sink && Reachable(graph.adj, source, sink)
      ensures reached ==> depth[sink] >= 1 && forall v :: 0 <= v < |depth| ==> depth[v] <= depth[sink]
      ensures reached ==> LabelsBelow(graph.adj, depth, source, depth[sink])
      ensures !reached && source != sink ==> depth[sink] == -1
      ensures !reached ==> forall v :: 0 <= v < |depth| && Reachable(graph.adj, source, v) ==> depth[v] >= 0
    {
      var n := graph.GetNodes();
      ghost var adj := graph.adj;
      var queue := new nat[n];
      var front, back := 0, 0;
      var level := seq(n, _ => -1);
      level := level[source := 0];
      queue[back] := source;
      back := back + 1;
      ghost var q := [source];
      ghost var pos := seq(n, _ => 0);
      BfsStart(adj, level, source, sink, pos);
      while front < back
        invariant back == |q| <= n && queue[..back] == q
        invariant |level| == n && BfsOuter(adj, level, source, sink, q, pos, front)
        decreases n - front
      {
        var current := queue[front];
        front := front + 1;
        var adjacent := graph.FindAdjacentNodes(current);
        BfsBeginExpand(adj, level, source, sink, q, pos, front - 1, adjacent);
        var labelled;
        level, back, labelled, q, pos := ExpandNode(queue, back, level, current, adjacent, source, sink, q, pos, front);
        if labelled {
          depth := level;
          return true;
        }
        BfsEndExpand(adj, level, source, sink, q, pos, front, adjacent);
      }
      BfsExhausted(adj, level, source, sink, q, pos);
      depth := level;
      return false;
    }

    /** The inner loop of levelGraph for the dequeued entry `current`, the
        `front`-th of the queue: every listed neighbour that is unlabelled
        and reached by a positive capacity is labelled one deeper than
        `current` and appended to the queue, in ascending index order, until
        `sink` is labelled. `q` and `pos` are the queue's contents and
        positions as in BfsQueue. */
    method ExpandNode(queue: array<nat>, back: nat, level: seq<int>, current: nat, adjacent: seq<nat>, source: nat, sink: nat,
                      ghost q: seq<nat>, ghost pos: seq<int>, ghost front: nat)
      returns (level': seq<int>, back': nat, labelled: bool, ghost q': seq<nat>, ghost pos': seq<int>)
      requires graph.Valid() && queue.Length == graph.totalNodes && |level| == graph.totalNodes && current < graph.totalNodes
      requires forall i :: 0 <= i < |adjacent| ==> adjacent[i] < graph.totalNodes && graph.adj[current][adjacent[i]] > 0
      requires back == |q| <= queue.Length && queue[..back] == q
      requires 0 < front <= |q| && q[front - 1] == current
      requires BfsInner(graph.adj, level, source, sink, q, pos, front, adjacent, 0)
      modifies queue
      ensures |level'| == |level|
      ensures forall v :: 0 <= v < |level| && level[v] >= 0 ==> level'[v] == level[v]
      ensures forall v :: 0 <= v < |level| && level[v] == -1 && level'[v] != -1 ==>
        v in adjacent && level'[v] == level[current] + 1
      ensures labelled ==>
        && Labelling(graph.adj, level', source) && Shortest(graph.adj, level', source)
        && source != sink && Reachable(graph.adj, source, sink)
        && level'[sink] >= 1 && (forall v :: 0 <= v < |level'| ==> level'[v] <= level'[sink])
        && LabelsBelow(graph.adj, level', source, level'[sink])
      ensures !labelled ==>
        && back' == |q'| <= queue.Length && queue[..back'] == q' && q <= q'
        && BfsInner(graph.adj, level', source, sink, q', pos', front, adjacent, |adjacent|) && q'[front - 1] == current
    {
      ghost var adj := graph.adj;
      level', back', q', pos' := level, back, q, pos;
      GrownStart(level, adjacent, level[current]);
      for k := 0 to |adjacent|
        invariant back' == |q'| <= queue.Length && queue[..back'] == q' && q <= q'
        invariant |level'| == |level| && BfsInner(adj, level', source, sink, q', pos', front, adjacent, k)
        invariant q'[front - 1] == current && level'[current] == level[current]
        invariant Grown(level, level', adjacent, k, level[current])
      {
        level', back', labelled, q', pos' := VisitNeighbour(queue, back', level, level', current, adjacent, k, source, sink, q', pos', front);
        if labelled {
          return;
        }
      }
      labelled := false;
    }

    /** One turn of levelGraph's inner loop: the `k`-th listed neighbour
        `next` of `current` is labelled `level[current] + 1` and, unless it
        is `sink`, appended to the queue, when it is unlabelled and reached
        by a positive capacity; otherwise nothing changes. `level0` is the
        labelling before the first neighbour of `current`. */
    method VisitNeighbour(queue: array<nat>, back: nat, ghost level0: seq<int>, level: seq<int>, current: nat, adjacent: seq<nat>, k: nat,
                          source: nat, sink: nat, ghost q: seq<nat>, ghost pos: seq<int>, ghost front: nat)
      returns (level': seq<int>, back': nat, labelled: bool, ghost q': seq<nat>, ghost pos': seq<int>)
      requires graph.Valid() && queue.Length == graph.totalNodes && |level| == graph.totalNodes && current < graph.totalNodes
      requires forall i :: 0 <= i < |adjacent| ==> adjacent[i] < graph.totalNodes && graph.adj[current][adjacent[i]] > 0
      requires k < |adjacent|
      requires back == |q| <= queue.Length && queue[..back] == q
      requires 0 < front <= |q| && q[front - 1] == current
      requires BfsInner(graph.adj, level, source, sink, q, pos, front, adjacent, k)
      requires Grown(level0, level, adjacent, k, level[current])
      modifies queue
      ensures |level'| == |level| && level'[current] == level[current]
      ensures forall v :: 0 <= v < |level| && v != adjacent[k] ==> level'[v] == level[v]
      ensures level'[adjacent[k]] == level[adjacent[k]] || (level[adjacent[k]] == -1 && level'[adjacent[k]] == level[current] + 1)
      ensures Grown(level0, level', adjacent, k + 1, level[current])
      ensures labelled ==>
        && Labelling(graph.adj, level', source) && Shortest(graph.adj, level', source)
        && source != sink && Reachable(graph.adj, source, sink)
        && level'[sink] >= 1 && (forall v :: 0 <= v < |level'| ==> level'[v] <= level'[sink])
        && LabelsBelow(graph.adj, level', source, level'[sink])
      ensures !labelled ==>
        && back' == |q'| <= queue.Length && queue[..back'] == q' && q <= q'
        && BfsInner(graph.adj, level', source, sink, q', pos', front, adjacent, k + 1) && q'[front - 1] == current
    {
      ghost var adj := graph.adj;
      level', back', q', pos' := level, back, q, pos;
      var next := adjacent[k];
      if level[next] == -1 && graph.adj[current][next] > 0 {
        level' := level[next := level[current] + 1];
        GrownLabel(level0, level, adjacent, k, level[current]);
        if next == sink {
          BfsReachSink(adj, level', level, source, sink, q, pos, front, adjacent, k);
          return level', back', true, q', pos';
        }
        BfsDiscover(adj, level', level, source, sink, q, pos, front, adjacent, k);
        queue[back] := next;
        back' := back + 1;
        pos' := pos[next := |q|];
        q' := q + [next];
      } else {
        BfsSkip(adj, level, source, sink, q, pos, front, adjacent, k);
        GrownSkip(level0, level, adjacent, k, level[current]);
      }
      labelled := false;
    }

    /** clearMaxFlowAtNode: zeroes column `node` of the snapshot. */
    method ClearMaxFlowAtNode(node: nat)
      requires Valid() && node < graph.totalNodes
      modifies this`maxFlow
      ensures Valid() && ColumnCleared(maxFlow, old(maxFlow), node)
    {
      for i := 0 to graph.GetNodes()
        invariant Valid()
        invariant forall a, b :: 0 <= a < |maxFlow| && 0 <= b < |maxFlow| ==>
          maxFlow[a][b] == if b == node && a < i then 0 else old(maxFlow)[a][b]
      {
        maxFlow := maxFlow[i := maxFlow[i][node := 0]];
      }
    }

    /** The neighbour scan of findNextNodeInPath: the first neighbour of
        `node`, in ascending order, reached over a level-graph edge. */
    method FirstAdmissible(node: nat) returns (found: bool, next: nat)
      requires Valid() && node < graph.totalNodes
      ensures found ==> next < graph.totalNodes && Admissible(graph.adj, maxFlow, depth, node, next)
      ensures found ==> forall v: nat :: v < next ==> !Admissible(graph.adj, maxFlow, depth, node, v)
      ensures !found ==> next == node && !HasAdmissibleStep(graph.adj, maxFlow, depth, node)
    {
      found, next := false, node;
      ghost var at := 0;
      var adjacent := graph.FindAdjacentNodes(node);
      for k := 0 to |adjacent|
        invariant !found && next == node
        invariant forall i :: 0 <= i < k ==> !Admissible(graph.adj, maxFlow, depth, node, adjacent[i])
      {
        var neighbor := adjacent[k];
        if depth[node] + 1 == depth[neighbor] && maxFlow[node][neighbor] > 0 {
          next := neighbor;
          found := true;
          at := k;
          break;
        }
      }
      if found {
        ScanStopsAtFirst(graph.adj, maxFlow, depth, node, adjacent, at);
      } else {
        ScanFindsNone(graph.adj, maxFlow, depth, node, adjacent);
      }
    }

    /** findNextNodeInPath: one step of the path search. It advances to the
        lowest-numbered level-graph neighbour of `node`; failing that it
        gives up at the source, and anywhere else it prunes `node` from the
        snapshot and steps back. */
    method FindNextNodeInPath(node: nat, path: seq<nat>, backtracking: bool, source: nat)
      returns (ok: bool, next: nat, nextPath: seq<nat>, nowBacktracking: bool)
      requires Valid() && node < graph.totalNodes
      requires backtracking ==> path != [] && path[|path| - 1] == node
      modifies this`maxFlow
      ensures Valid()
      ensures ok && !nowBacktracking ==>
        && maxFlow == old(maxFlow) && nextPath == Working(path, node, backtracking)
        && next < graph.totalNodes && Admissible(graph.adj, maxFlow, depth, node, next)
        && forall v: nat :: v < next ==> !Admissible(graph.adj, maxFlow, depth, node, v)
      ensures !ok || nowBacktracking ==> !HasAdmissibleStep(graph.adj, old(maxFlow), depth, node)
      ensures !ok ==>
        && node == source && !nowBacktracking
        && maxFlow == old(maxFlow) && nextPath == Working(path, node, backtracking) && next == node
      ensures nowBacktracking ==>
        && ok && node != source && ColumnCleared(maxFlow, old(maxFlow), node)
        && Working(path, node, backtracking) == nextPath + [node]
        && next == if nextPath != [] then nextPath[|nextPath| - 1] else node
    {
      nextPath := path;
      nowBacktracking := backtracking;
      if nowBacktracking {
        nowBacktracking := false;
      } else {
        nextPath := nextPath + [node];
      }
      var advanced;
      advanced, next := FirstAdmissible(node);
      if advanced {
        return true, next, nextPath, nowBacktracking;
      }
      if node == source {
        return false, next, nextPath, nowBacktracking;
      }
      ClearMaxFlowAtNode(node);
      ghost var walk := nextPath;
      nextPath := nextPath[..|nextPath| - 1];
      assert walk == nextPath + [node];
      if nextPath != [] {
        next := nextPath[|nextPath| - 1];
      }
      nowBacktracking := true;
      ok := true;
    }

    /** findAugmentingPath: depth-first search for a source-to-sink path of
        the level graph, pruning dead ends from the snapshot on the way. It
        finds one exactly when the snapshot it starts from has one, and
        pruning loses none of them. */
    method FindAugmentingPath(source: nat, sink: nat) returns (found: bool, path: seq<nat>)
      requires Valid() && source < graph.totalNodes && sink < graph.totalNodes
      modifies this`maxFlow
      ensures Valid() && Pruned(maxFlow, old(maxFlow))
      ensures forall p :: AdmissiblePath(graph.adj, old(maxFlow), depth, source, sink, p) ==>
        AdmissiblePath(graph.adj, maxFlow, depth, source, sink, p)
      ensures found <==> source != sink && !Blocked(graph.adj, old(maxFlow), depth, source, sink)
      ensures found ==> AdmissiblePath(graph.adj, maxFlow, depth, source, sink, path)
      ensures found ==> forall i, j :: 0 <= i < j < |path| ==> path[i] != path[j]
    {
      var node: nat := source;
      var backtracking := false;
      path := [];
      ghost var walk := [source];
      SearchStart(graph.adj, maxFlow, depth, source, sink);
      while node != sink
        invariant Valid() && node < graph.totalNodes
        invariant source != sink ==> node != sink
        invariant source == sink ==> node == sink
        invariant backtracking ==> path != [] && path[|path| - 1] == node
        invariant walk == Working(path, node, backtracking)
        invariant Searching(graph.adj, old(maxFlow), maxFlow, depth, source, sink, walk)
        decreases LiveColumns(maxFlow), graph.totalNodes - |walk|
      {
        ghost var before := maxFlow;
        var ok;
        ok, node, path, backtracking := FindNextNodeInPath(node, path, backtracking, source);
        if !ok {
          SearchStuck(graph.adj, old(maxFlow), before, depth, source, sink, walk);
          return false, path;
        }
        if backtracking {
          SearchRetreat(graph.adj, old(maxFlow), maxFlow, before, depth, source, sink, path, walk[|walk| - 1]);
          walk := path;
        } else if node == sink {
          SearchArrive(graph.adj, old(maxFlow), maxFlow, depth, source, sink, walk);
          return true, path + [sink];
        } else {
          SearchAdvance(graph.adj, old(maxFlow), maxFlow, depth, source, sink, walk, node);
          walk := walk + [node];
        }
      }
      return false, path;
    }

    /** updateResidualGraph: moves one unit across `src -> dst`, or reports
        an out-of-range node and changes nothing. */
    method UpdateResidualGraph(src: int, dst: int) returns (r: Outcome)
      requires Valid()
      modifies graph
      ensures Valid()
      ensures r.Pass? <==> 0 <= src < graph.totalNodes && 0 <= dst < graph.totalNodes
      ensures r.Fail? ==> r.error == OutOfRange && graph.adj == old(graph.adj)
      ensures r.Pass? ==> graph.adj == Push(old(graph.adj), src, dst)
    {
      if src < 0 || src >= graph.GetNodes() || dst < 0 || dst >= graph.GetNodes() {
        return Fail(OutOfRange);
      }
      graph.adj := graph.adj[dst := graph.adj[dst][src := graph.adj[dst][src] + 1]];
      graph.adj := graph.adj[src := graph.adj[src][dst := graph.adj[src][dst] - 1]];
      return Pass;
    }

    /** The commit loop of augmentFlowAlongPath: one unit along every edge of
        `path`, first to last. */
    method CommitPath(path: seq<nat>)
      requires Valid() && path != [] && forall i :: 0 <= i < |path| ==> path[i] < graph.totalNodes
      modifies graph
      ensures Valid() && graph.adj == PushPath(old(graph.adj), path)
    {
      var i := 0;
      while i < |path| - 1
        invariant 0 <= i <= |path| - 1
        invariant Valid()
        invariant PushPath(graph.adj, path[i..]) == PushPath(old(graph.adj), path)
      {
        assert path[i..][1..] == path[i + 1..];
        var r := UpdateResidualGraph(path[i], path[i + 1]);
        i := i + 1;
      }
    }

    /** augmentFlowAlongPath: one phase. It commits found paths until the
        pruned snapshot holds no level-graph path. The live matrix ends as
        the old one augmented along the committed paths in order, one unit
        each, and at least one path is committed whenever the phase starts
        with a level-graph path. */
    method AugmentFlowAlongPath(source: nat, sink: nat) returns (ghost committed: seq<seq<nat>>)
      requires Valid() && source < graph.totalNodes && sink < graph.totalNodes
      modifies this`maxFlow, graph
      ensures Valid()
      ensures Pruned(maxFlow, old(maxFlow))
      ensures source != sink ==> Blocked(graph.adj, maxFlow, depth, source, sink)
      ensures AugmentedAlong(old(graph.adj), source, sink, committed, graph.adj)
      ensures PosSum(graph.adj[source]) + |committed| == old(PosSum(graph.adj[source]))
      ensures source != sink && !Blocked(old(graph.adj), old(maxFlow), depth, source, sink) ==> |committed| >= 1
      ensures SameMass(graph.adj, old(graph.adj))
      ensures NonNegative(old(graph.adj)) ==> NonNegative(graph.adj)
    {
      committed := [];
      while true
        invariant Valid()
        invariant AugmentedAlong(old(graph.adj), source, sink, committed, graph.adj)
        invariant PosSum(graph.adj[source]) + |committed| == old(PosSum(graph.adj[source]))
        invariant committed == [] ==> graph.adj == old(graph.adj) && maxFlow == old(maxFlow)
        invariant Pruned(maxFlow, old(maxFlow))
        decreases PosSum(graph.adj[source])
      {
        ghost var before := maxFlow;
        var found, path := FindAugmentingPath(source, sink);
        PrunedTransitive(maxFlow, before, old(maxFlow));
        if !found {
          if source != sink {
            PrunedLosesNoBlock(graph.adj, maxFlow, before, depth, source, sink);
          }
          break;
        }
        ghost var adj := graph.adj;
        AdmissiblePathHasCapacity(adj, maxFlow, depth, source, sink, path);
        CommitPath(path);
        PushPathCommit(adj, path);
        AugmentedAlongSnoc(old(graph.adj), source, sink, committed, adj, path);
        committed := committed + [path];
      }
      AugmentedAlongDrainsSource(old(graph.adj), source, sink, committed, graph.adj);
    }

    /** calculateMaxFlow: rejects an out-of-range source or sink; otherwise
        runs phases until the sink is unreachable in the residual graph. The
        live matrix ends as the old one augmented along every committed path,
        one unit each, and a sink that starts unreachable leaves it as it
        was. */
    method CalculateMaxFlow(source: int, sink: int) returns (r: Outcome, ghost committed: seq<seq<nat>>)
      requires Valid()
      modifies this`depth, this`maxFlow, graph
      ensures Valid()
      ensures r.Pass? <==> 0 <= source < graph.totalNodes && 0 <= sink < graph.totalNodes
      ensures r.Fail? ==> r.error == InvalidArgument && committed == []
      ensures r.Fail? ==> graph.adj == old(graph.adj) && depth == old(depth) && maxFlow == old(maxFlow)
      ensures r.Pass? ==> source == sink || !Reachable(graph.adj, source, sink)
      ensures r.Pass? ==> AugmentedAlong(old(graph.adj), source, sink, committed, graph.adj)
      ensures r.Pass? ==> PosSum(graph.adj[source]) + |committed| == old(PosSum(graph.adj[source]))
      ensures r.Pass? && (source == sink || !Reachable(old(graph.adj), source, sink)) ==>
        committed == [] && graph.adj == old(graph.adj)
      ensures SameMass(graph.adj, old(graph.adj))
      ensures NonNegative(old(graph.adj)) ==> NonNegative(graph.adj)
    {
      committed := [];
      if source < 0 || source >= graph.GetNodes() || sink < 0 || sink >= graph.GetNodes() {
        return Fail(InvalidArgument), committed;
      }
      var reachable := LevelGraph(source, sink);
      while reachable
        invariant Valid()
        invariant reachable ==> source != sink && Labelling(graph.adj, depth, source) && depth[sink] >= 0
        invariant reachable ==> Reachable(graph.adj, source, sink)
        invariant !reachable ==> source == sink || !Reachable(graph.adj, source, sink)
        invariant AugmentedAlong(old(graph.adj), source, sink, committed, graph.adj)
        invariant PosSum(graph.adj[source]) + |committed| == old(PosSum(graph.adj[source]))
        invariant committed == [] ==> graph.adj == old(graph.adj)
        invariant source == sink || !Reachable(old(graph.adj), source, sink) ==> committed == []
        decreases PosSum(graph.adj[source])
      {
        maxFlow := graph.adj;
        var p := LevelPathAdmissible(graph.adj, depth, source, sink);
        ghost var adj := graph.adj;
        ghost var phase := AugmentFlowAlongPath(source, sink);
        AugmentedAlongAppend(old(graph.adj), source, sink, committed, adj, phase, graph.adj);
        committed := committed + phase;
        reachable := LevelGraph(source, sink);
      }
      AugmentedAlongDrainsSource(old(graph.adj), source, sink, committed, graph.adj);
      return Pass, committed;
    }
  }

  /** A found path of distinct nodes has one level-graph edge, hence one
      positive residual capacity, between each pair of neighbours: it is an
      augmenting path of the live graph. */
  lemma AdmissiblePathHasCapacity(adj: Mat, snap: Mat, depth: seq<int>, s: nat, t: nat, p: seq<nat>)
    requires IsSquare(adj, |depth|) && IsSquare(snap, |depth|) && s != t
    requires AdmissiblePath(adj, snap, depth, s, t, p)
    requires forall i, j :: 0 <= i < j < |p| ==> p[i] != p[j]
    ensures AugmentingPath(adj, s, t, p)
  {
    AdmissiblePathFirstStep(adj, snap, depth, s, t);
    forall i | 0 <= i < |p| - 1 ensures adj[p[i]][p[i + 1]] > 0 {
      assert StepAt(adj, snap, depth, p, i + 1);
    }
  }
}
