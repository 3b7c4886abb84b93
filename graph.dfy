/** The residual graph of Graph.cpp: a square capacity matrix over the real
    nodes plus an injected source and sink. Index 0 is the source, `1..nodes/2`
    the left side, `nodes/2+1..nodes` the right side and `nodes+1` the sink. */
module ResidualGraph {
  import opened Matrix

  /** `i` is a node of the left side. */
  predicate IsLeft(nodes: nat, i: int) {
    1 <= i <= nodes / 2
  }

  /** `i` is a node of the right side. */
  predicate IsRight(nodes: nat, i: int) {
    nodes / 2 + 1 <= i <= nodes
  }

  /** The indices `i` with `row[i] > 0`, in the order a left-to-right scan
      meets them. */
  function Neighbors(row: seq<int>): seq<nat>
    decreases |row|
  {
    if row == [] then []
    else Neighbors(row[..|row| - 1]) + (if row[|row| - 1] > 0 then [|row| - 1] else [])
  }

  /** Each element of `s` is smaller than the next. */
  predicate StrictlyIncreasing(s: seq<nat>) {
    forall i, j :: 0 <= i < j < |s| ==> s[i] < s[j]
  }

  /** `adjacent` lists exactly the positions of `row` holding a positive
      capacity, each once and in ascending order. */
  predicate ListsPositive(row: seq<int>, adjacent: seq<nat>) {
    && StrictlyIncreasing(adjacent)
    && (forall k :: 0 <= k < |adjacent| ==> adjacent[k] < |row| && row[adjacent[k]] > 0)
    && (forall i :: 0 <= i < |row| && row[i] > 0 ==> i in adjacent)
  }

  /** Neighbors lists exactly the positive positions of the row, each once and
      in ascending order. */
  lemma {:induction false} NeighborsExact(row: seq<int>)
    ensures ListsPositive(row, Neighbors(row))
    decreases |row|
  {
    if row != [] {
      var init := row[..|row| - 1];
      NeighborsExact(init);
      assert forall i :: 0 <= i < |init| ==> row[i] == init[i];
    }
  }

  /** Left node `i` is matched to right node `n`: a unit crossed `i -> n`, so
      the reverse residual `m[n][i]` is 1. */
  predicate Matched(m: Mat, nodes: nat, i: int, n: int)
    requires IsSquare(m, nodes + 2)
  {
    IsLeft(nodes, i) && IsRight(nodes, n) && m[n][i] == 1
  }

  /** Lexicographic order on (left, right) pairs. */
  predicate Before(p: (nat, nat), q: (nat, nat)) {
    p.0 < q.0 || (p.0 == q.0 && p.1 < q.1)
  }

  class Graph {
    /** The number of real nodes, both sides together. */
    const nodes: nat
    /** The real nodes plus source and sink. */
    const totalNodes: nat
    /** Residual capacity from row node to column node. */
    var adj: Mat

    ghost predicate Valid()
      reads this
    {
      totalNodes == nodes + 2 && IsSquare(adj, totalNodes)
    }

    constructor (nodes: nat)
      ensures Valid() && this.nodes == nodes
      ensures AllZero(adj)
    {
      this.nodes := nodes;
      totalNodes := nodes + 2;
      adj := [];
      new;
      InitializeAdjacencyMatrix(nodes + 2);
    }

    /** initializeAdjacencyMatrix: an all-zero `size` by `size` matrix. */
    method InitializeAdjacencyMatrix(size: nat)
      modifies this`adj
      ensures IsSquare(adj, size) && AllZero(adj)
    {
      adj := Zero(size);
    }

    /** getNodes: the size of the matrix, which counts source and sink. */
    function GetNodes(): (n: nat)
      reads this
      requires Valid()
      ensures n == nodes + 2 && n == |adj|
    {
      totalNodes
    }

    /** createEdge: overwrites one capacity; the reverse entry is untouched. */
    method CreateEdge(node1: nat, node2: nat, maxFlow: int)
      requires Valid() && node1 < totalNodes && node2 < totalNodes
      modifies this`adj
      ensures Valid()
      ensures adj[node1][node2] == maxFlow
      ensures forall i, j :: 0 <= i < totalNodes && 0 <= j < totalNodes && (i != node1 || j != node2) ==>
        adj[i][j] == old(adj[i][j])
    {
      adj := adj[node1 := adj[node1][node2 := maxFlow]];
    }

    /** createSourceNode: capacity 1 from `source` to every left node. */
    method CreateSourceNode(source: nat)
      requires Valid() && source < totalNodes
      modifies this`adj
      ensures Valid()
      ensures forall i, j {:trigger adj[i][j]} :: 0 <= i < totalNodes && 0 <= j < totalNodes ==>
        adj[i][j] == if i == source && IsLeft(nodes, j) then 1 else old(adj[i][j])
    {
      var i := 1;
      while i <= nodes / 2
        invariant 1 <= i <= nodes / 2 + 1
        invariant Valid()
        invariant forall a, b :: 0 <= a < totalNodes && 0 <= b < totalNodes ==>
          adj[a][b] == if a == source && 1 <= b < i then 1 else old(adj[a][b])
      {
        CreateEdge(source, i, 1);
        i := i + 1;
      }
    }

    /** createSinkNode: capacity 1 from every right node to `sink`. */
    method CreateSinkNode(sink: nat)
      requires Valid() && sink < totalNodes
      modifies this`adj
      ensures Valid()
      ensures forall i, j :: 0 <= i < totalNodes && 0 <= j < totalNodes ==>
        adj[i][j] == if j == sink && IsRight(nodes, i) then 1 else old(adj[i][j])
    {
      var i := nodes / 2 + 1;
      while i <= nodes
        invariant nodes / 2 + 1 <= i <= nodes + 1
        invariant Valid()
        invariant forall a, b :: 0 <= a < totalNodes && 0 <= b < totalNodes ==>
          adj[a][b] == if b == sink && nodes / 2 + 1 <= a < i then 1 else old(adj[a][b])
      {
        CreateEdge(i, sink, 1);
        i := i + 1;
      }
    }

    /** connectSourceAndSinkNodes: wires the source to the left side and the
        right side to the sink, at capacity 1, and changes nothing else. */
    method ConnectSourceAndSinkNodes(source: nat, sink: nat)
      requires Valid() && source < totalNodes && sink < totalNodes
      modifies this`adj
      ensures Valid()
      ensures forall i, j {:trigger adj[i][j]} :: 0 <= i < totalNodes && 0 <= j < totalNodes ==>
        adj[i][j] == if (i == source && IsLeft(nodes, j)) || (j == sink && IsRight(nodes, i)) then 1 else old(adj[i][j])
    {
      ghost var original := adj;
      CreateSourceNode(source);
      ghost var wired := adj;
      assert forall i, j {:trigger wired[i][j]} :: 0 <= i < totalNodes && 0 <= j < totalNodes ==>
        wired[i][j] == if i == source && IsLeft(nodes, j) then 1 else original[i][j];
      CreateSinkNode(sink);
      forall i, j {:trigger adj[i][j]} | 0 <= i < totalNodes && 0 <= j < totalNodes
        ensures adj[i][j] == if (i == source && IsLeft(nodes, j)) || (j == sink && IsRight(nodes, i)) then 1 else old(adj[i][j])
      {
        assert adj[i][j] == if j == sink && IsRight(nodes, i) then 1 else wired[i][j];
        assert wired[i][j] == if i == source && IsLeft(nodes, j) then 1 else original[i][j];
      }
    }

    /** findAdjacentNodes: the nodes `node` has positive residual capacity
        to, in ascending index order. */
    method FindAdjacentNodes(node: nat) returns (adjacent: seq<nat>)
      requires Valid() && node < totalNodes
      ensures adjacent == Neighbors(adj[node]) && ListsPositive(adj[node], adjacent)
    {
      adjacent := [];
      var i := 0;
      while i < totalNodes
        invariant 0 <= i <= totalNodes
        invariant adjacent == Neighbors(adj[node][..i])
      {
        assert adj[node][..i + 1][..i] == adj[node][..i];
        if adj[node][i] > 0 {
          adjacent := adjacent + [i];
        }
        i := i + 1;
      }
      assert adj[node][..totalNodes] == adj[node];
      NeighborsExact(adj[node]);
    }

    /** The pair extraction of printResults: every (left, right) pair whose
        reverse residual is 1, in row-major order, and their number. */
    method MatchedPairs() returns (pairs: seq<(nat, nat)>, matches: nat)
      requires Valid()
      ensures matches == |pairs|
      ensures forall k :: 0 <= k < |pairs| ==> Matched(adj, nodes, pairs[k].0, pairs[k].1)
      ensures forall i: nat, n: nat :: Matched(adj, nodes, i, n) ==> (i, n) in pairs
      ensures forall k, l :: 0 <= k < l < |pairs| ==> Before(pairs[k], pairs[l])
    {
      pairs, matches := [], 0;
      var i := 1;
      while i <= nodes / 2
        invariant 1 <= i <= nodes / 2 + 1
        invariant matches == |pairs|
        invariant forall k :: 0 <= k < |pairs| ==> Matched(adj, nodes, pairs[k].0, pairs[k].1) && pairs[k].0 < i
        invariant forall a: nat, b: nat :: Matched(adj, nodes, a, b) && a < i ==> (a, b) in pairs
        invariant forall k, l :: 0 <= k < l < |pairs| ==> Before(pairs[k], pairs[l])
      {
        var n := nodes / 2 + 1;
        while n <= nodes
          invariant nodes / 2 + 1 <= n <= nodes + 1
          invariant matches == |pairs|
          invariant forall k :: 0 <= k < |pairs| ==> Matched(adj, nodes, pairs[k].0, pairs[k].1) && Before(pairs[k], (i, n))
          invariant forall a: nat, b: nat :: Matched(adj, nodes, a, b) && (a < i || (a == i && b < n)) ==> (a, b) in pairs
          invariant forall k, l :: 0 <= k < l < |pairs| ==> Before(pairs[k], pairs[l])
        {
          if adj[n][i] == 1 {
            pairs := pairs + [(i, n)];
            matches := matches + 1;
          }
          n := n + 1;
        }
        i := i + 1;
      }
    }
  }
}
