/**
 * The Dijkstra workload: single-source shortest paths over a dense N x N
 * cost matrix of C ints, with the `dist`, `prev` and `visited` tables held
 * in arrays and every relaxation guarded against signed overflow by the
 * IS_ADD_OVERFLOW macro.
 *
 * The C `assert`s that abort the program become the outcome
 * `AssertionFailed(message)`.  The methods that mutate the tables are proved
 * against functions on the table contents (`InitDist`, `RelaxedDist`,
 * `RelaxedPrev`); the shortest-path property is proved about those
 * functions, for non-negative costs, and carried through the main loop.
 */
module Dijkstra {
  import opened CInt

  /** The number of nodes. */
  const N: nat := 128

  /** What `dijsktra` does: return a distance, or stop at a failed `assert` with its message. */
  datatype Outcome = Returned(dist: Int32) | AssertionFailed(message: string)

  // ---------------------------------------------------------------------
  // The overflow guard

  /** IS_ADD_OVERFLOW(x, y), as the macro spells it. */
  predicate AddOverflows(x: int, y: int)
  {
    (y > 0 && x > IntMax - y) || (y < 0 && x < IntMin - y)
  }

  /** For two ints the macro holds exactly when their sum leaves the int range. */
  lemma AddOverflowsExact(x: Int32, y: Int32)
    ensures AddOverflows(x, y) <==> !(IntMin <= x + y <= IntMax)
  {
  }

  // ---------------------------------------------------------------------
  // Tables as sequences

  /** `dist` right after initialisation: INT_MAX everywhere except 0 at the source. */
  function InitDist(source: int): (d: seq<Int32>)
    ensures |d| == N
    ensures forall v :: 0 <= v < N ==> d[v] == if v == source then 0 else IntMax
  {
    seq(N, v => if v == source then 0 else IntMax)
  }

  /** Whether relaxing the edge u -> i lowers `dist[i]`: the sum does not overflow, is smaller, and i is unvisited. */
  predicate Lowers(d: seq<Int32>, visited: seq<bool>, row: seq<Int32>, u: int, i: int)
    requires |d| == |visited| == |row| == N && 0 <= u < N && 0 <= i < N
  {
    !AddOverflows(d[u], row[i]) && d[u] + row[i] < d[i] && !visited[i]
  }

  /** `dist` after relaxing every edge out of u, whose costs are `row`. */
  function RelaxedDist(d: seq<Int32>, visited: seq<bool>, row: seq<Int32>, u: int): (r: seq<Int32>)
    requires |d| == |visited| == |row| == N && 0 <= u < N
    ensures |r| == N
    ensures forall i :: 0 <= i < N ==> r[i] == if Lowers(d, visited, row, u, i) then d[u] + row[i] else d[i]
  {
    seq(N, i requires 0 <= i < N => if Lowers(d, visited, row, u, i) then d[u] + row[i] else d[i])
  }

  /** `prev` after relaxing every edge out of u: u for each node whose distance it lowered. */
  function RelaxedPrev(prev: seq<int>, d: seq<Int32>, visited: seq<bool>, row: seq<Int32>, u: int): (r: seq<int>)
    requires |prev| == |d| == |visited| == |row| == N && 0 <= u < N
    ensures |r| == N
    ensures forall i :: 0 <= i < N ==> r[i] == if Lowers(d, visited, row, u, i) then u else prev[i]
  {
    seq(N, i requires 0 <= i < N => if Lowers(d, visited, row, u, i) then u else prev[i])
  }

  /** Relaxation never raises a distance, and leaves every visited node's distance alone. */
  lemma RelaxedDistBelow(d: seq<Int32>, visited: seq<bool>, row: seq<Int32>, u: int)
    requires |d| == |visited| == |row| == N && 0 <= u < N
    ensures forall i :: 0 <= i < N ==> RelaxedDist(d, visited, row, u)[i] <= d[i]
    ensures forall i :: 0 <= i < N && visited[i] ==> RelaxedDist(d, visited, row, u)[i] == d[i]
  {
  }

  /** The node chosen by the selection loop: the first unvisited node of least distance, and that distance is finite. */
  predicate Selected(d: seq<Int32>, visited: seq<bool>, u: int)
    requires |d| == |visited| == N
  {
    && 0 <= u < N && !visited[u] && d[u] < IntMax
    && (forall i :: 0 <= i < N && !visited[i] ==> d[u] <= d[i])
    && (forall i :: 0 <= i < u && !visited[i] ==> d[u] < d[i])
  }

  /** No unvisited node has a finite distance. */
  predicate Exhausted(d: seq<Int32>, visited: seq<bool>)
    requires |d| == |visited| == N
  {
    forall i :: 0 <= i < N && !visited[i] ==> d[i] == IntMax
  }

  /** The number of visited nodes. */
  function VisitedCount(visited: seq<bool>): (c: nat)
    ensures c <= |visited|
  {
    if visited == [] then 0
    else VisitedCount(visited[..|visited| - 1]) + (if visited[|visited| - 1] then 1 else 0)
  }

  /** Visiting an unvisited node raises the count by one. */
  lemma {:induction false} VisitOne(visited: seq<bool>, u: int)
    requires 0 <= u < |visited| && !visited[u]
    ensures VisitedCount(visited[u := true]) == VisitedCount(visited) + 1
    decreases |visited|
  {
    var n := |visited|;
    assert visited[u := true][..n - 1] == if u < n - 1 then visited[..n - 1][u := true] else visited[..n - 1];
    if u < n - 1 {
      VisitOne(visited[..n - 1], u);
    }
  }

  // ---------------------------------------------------------------------
  // The three loops of the body, on the arrays

  /** Initialisation: `dist` all INT_MAX but 0 at the source, `prev` all -1. */
  method InitTables(source: int) returns (dist: array<Int32>, prev: array<int>)
    requires 0 <= source < N
    ensures fresh(dist) && fresh(prev)
    ensures dist[..] == InitDist(source)
    ensures prev[..] == seq(N, _ => -1)
  {
    dist := new Int32[N];
    prev := new int[N];
    var i := 0;
    while i < N
      invariant 0 <= i <= N
      invariant forall k :: 0 <= k < i ==> dist[k] == IntMax && prev[k] == -1
    {
      dist[i] := IntMax;
      prev[i] := -1;
      i := i + 1;
    }
    dist[source] := 0;
  }

  /**
   * Selection: scans the nodes in order and keeps the first unvisited node
   * whose distance is strictly below the least seen so far, starting from
   * INT_MAX; -1 when there is none.
   */
  method SelectMin(dist: array<Int32>, visited: array<bool>) returns (minIndex: int)
    requires dist.Length == N && visited.Length == N
    ensures minIndex == -1 <==> Exhausted(dist[..], visited[..])
    ensures minIndex != -1 ==> Selected(dist[..], visited[..], minIndex)
  {
    var minDist: Int32 := IntMax;
    minIndex := -1;
    var i := 0;
    while i < N
      invariant 0 <= i <= N && -1 <= minIndex < i
      invariant minIndex == -1 ==> minDist == IntMax
      invariant minIndex != -1 ==> minDist == dist[minIndex] < IntMax && !visited[minIndex]
      invariant forall k :: 0 <= k < i && !visited[k] ==> minDist <= dist[k]
      invariant forall k :: 0 <= k < minIndex && !visited[k] ==> minDist < dist[k]
    {
      if minDist > dist[i] && !visited[i] {
        minDist := dist[i];
        minIndex := i;
      }
      i := i + 1;
    }
  }

  /** The row of `cost` holding the edges out of u. */
  function CostRow(cost: array2<Int32>, u: int): (r: seq<Int32>)
    requires cost.Length0 == N && cost.Length1 == N && 0 <= u < N
    reads cost
    ensures |r| == N && forall j :: 0 <= j < N ==> r[j] == cost[u, j]
  {
    seq(N, j requires 0 <= j < N reads cost => cost[u, j])
  }

  /**
   * Relaxation: relaxes every edge out of the visited node u, skipping an
   * edge whose sum would overflow and lowering only unvisited nodes.
   */
  method Relax(cost: array2<Int32>, dist: array<Int32>, prev: array<int>, visited: array<bool>, u: int)
    requires cost.Length0 == N && cost.Length1 == N
    requires dist.Length == N && prev.Length == N && visited.Length == N
    requires 0 <= u < N && visited[u]
    modifies dist, prev
    ensures dist[..] == RelaxedDist(old(dist[..]), visited[..], CostRow(cost, u), u)
    ensures prev[..] == RelaxedPrev(old(prev[..]), old(dist[..]), visited[..], CostRow(cost, u), u)
  {
    ghost var d0, p0, row := dist[..], prev[..], CostRow(cost, u);
    var i := 0;
    while i < N
      invariant 0 <= i <= N
      invariant dist[u] == d0[u]
      invariant forall k :: 0 <= k < i ==> dist[k] == if Lowers(d0, visited[..], row, u, k) then d0[u] + row[k] else d0[k]
      invariant forall k :: i <= k < N ==> dist[k] == d0[k]
      invariant forall k :: 0 <= k < i ==> prev[k] == if Lowers(d0, visited[..], row, u, k) then u else p0[k]
      invariant forall k :: i <= k < N ==> prev[k] == p0[k]
    {
      if AddOverflows(dist[u], cost[u, i]) {
        i := i + 1;
        continue;
      }
      AddOverflowsExact(dist[u], cost[u, i]);
      var d := dist[u] + cost[u, i];
      if d < dist[i] && !visited[i] {
        dist[i] := d;
        prev[i] := u;
      }
      i := i + 1;
    }
  }

  // ---------------------------------------------------------------------
  // Paths and their costs

  /** The cost matrix as a sequence of rows. */
  function CostMatrix(cost: array2<Int32>): (c: seq<seq<Int32>>)
    requires cost.Length0 == N && cost.Length1 == N
    reads cost
    ensures Square(c) && forall u :: 0 <= u < N ==> c[u] == CostRow(cost, u)
  {
    seq(N, u requires 0 <= u < N reads cost => CostRow(cost, u))
  }

  predicate Square(c: seq<seq<Int32>>)
  {
    |c| == N && forall u :: 0 <= u < N ==> |c[u]| == N
  }

  predicate NonNegative(c: seq<seq<Int32>>)
    requires Square(c)
  {
    forall u, v :: 0 <= u < N && 0 <= v < N ==> c[u][v] >= 0
  }

  /** Every element of `p` is a node. */
  predicate Nodes(p: seq<int>)
  {
    forall k :: 0 <= k < |p| ==> 0 <= p[k] < N
  }

  /** `p` is a walk from `from` to `to`: every consecutive pair is an edge, since the matrix is dense. */
  predicate IsPath(p: seq<int>, from: int, to: int)
  {
    |p| > 0 && p[0] == from && p[|p| - 1] == to && Nodes(p)
  }

  /** The sum of the costs of the edges along `p`. */
  function PathCost(c: seq<seq<Int32>>, p: seq<int>): int
    requires Square(c) && Nodes(p)
    decreases |p|
  {
    if |p| <= 1 then 0 else PathCost(c, p[..|p| - 1]) + c[p[|p| - 2]][p[|p| - 1]]
  }

  /** The least cost of a path from `source` to `target` is `d`, and some path costs exactly `d`. */
  ghost predicate ShortestCost(c: seq<seq<Int32>>, source: int, target: int, d: int)
    requires Square(c)
  {
    (exists p :: IsPath(p, source, target) && PathCost(c, p) == d)
    && forall p :: IsPath(p, source, target) ==> PathCost(c, p) >= d
  }

  lemma PathCostAppend(c: seq<seq<Int32>>, p: seq<int>, v: int)
    requires Square(c) && Nodes(p) && |p| > 0 && 0 <= v < N
    ensures Nodes(p + [v]) && PathCost(c, p + [v]) == PathCost(c, p) + c[p[|p| - 1]][v]
  {
    assert (p + [v])[..|p|] == p;
  }

  /** With non-negative costs no prefix of a path costs more than the path. */
  lemma {:induction false} PathCostPrefix(c: seq<seq<Int32>>, p: seq<int>, j: int)
    requires Square(c) && NonNegative(c) && Nodes(p) && 1 <= j <= |p|
    ensures Nodes(p[..j]) && PathCost(c, p[..j]) <= PathCost(c, p)
    decreases |p| - j
  {
    if j < |p| {
      PathCostPrefix(c, p, j + 1);
      assert p[..j + 1][..j] == p[..j];
    } else {
      assert p[..j] == p;
    }
  }

  /** With non-negative costs every path costs at least 0. */
  lemma PathCostNonNegative(c: seq<seq<Int32>>, p: seq<int>)
    requires Square(c) && NonNegative(c) && Nodes(p) && |p| > 0
    ensures PathCost(c, p) >= 0
  {
    PathCostPrefix(c, p, 1);
  }

  // ---------------------------------------------------------------------
  // The invariant of the main loop

  /** Each node with a finite distance has a witness path from the source that costs exactly that distance. */
  ghost predicate Witnessed(c: seq<seq<Int32>>, source: int, d: seq<Int32>, w: seq<seq<int>>)
    requires Square(c) && |d| == N && |w| == N
  {
    forall v :: 0 <= v < N && d[v] < IntMax ==> IsPath(w[v], source, v) && PathCost(c, w[v]) == d[v]
  }

  /** Every edge from a visited node to an unvisited one has been relaxed. */
  predicate Frontier(c: seq<seq<Int32>>, d: seq<Int32>, visited: seq<bool>)
    requires Square(c) && |d| == N && |visited| == N
  {
    forall u, v :: 0 <= u < N && 0 <= v < N && visited[u] && !visited[v] ==> d[v] as int <= d[u] as int + c[u][v] as int
  }

  /** Every visited node's distance is the least cost of any path to it. */
  ghost predicate Settled(c: seq<seq<Int32>>, source: int, d: seq<Int32>, visited: seq<bool>)
    requires Square(c) && |d| == N && |visited| == N
  {
    forall v :: 0 <= v < N && visited[v] ==> forall p :: IsPath(p, source, v) ==> PathCost(c, p) >= d[v]
  }

  /** Until the source is visited nothing is, and `dist` is as initialised. */
  predicate Started(source: int, d: seq<Int32>, visited: seq<bool>)
    requires 0 <= source < N && |d| == N && |visited| == N
  {
    !visited[source] ==> (forall v :: 0 <= v < N ==> !visited[v]) && d == InitDist(source)
  }

  /**
   * The invariant of the main loop.  Witnesses, the finiteness of visited
   * distances and the start condition hold for any costs; the relaxed
   * frontier and the settled distances need non-negative costs.
   */
  ghost predicate Inv(c: seq<seq<Int32>>, source: int, d: seq<Int32>, visited: seq<bool>, w: seq<seq<int>>)
  {
    && Square(c) && 0 <= source < N && |d| == N && |visited| == N && |w| == N
    && Witnessed(c, source, d, w)
    && (forall v :: 0 <= v < N && visited[v] ==> d[v] < IntMax)
    && Started(source, d, visited)
    && (NonNegative(c) ==> Frontier(c, d, visited) && Settled(c, source, d, visited))
  }

  /**
   * `prev` holds, for every node other than the source with a finite
   * distance, the node just before it on its witness path.
   */
  ghost predicate PrevTracks(source: int, d: seq<Int32>, prev: seq<int>, w: seq<seq<int>>)
    requires |d| == N && |prev| == N && |w| == N
  {
    forall v :: 0 <= v < N && v != source && d[v] < IntMax ==> |w[v]| >= 2 && prev[v] == w[v][|w[v]| - 2]
  }

  /** The witnesses after relaxing the edges out of u: a lowered node's witness is u's witness extended by that node. */
  function RelaxedWitness(w: seq<seq<int>>, d: seq<Int32>, visited: seq<bool>, row: seq<Int32>, u: int): (r: seq<seq<int>>)
    requires |w| == |d| == |visited| == |row| == N && 0 <= u < N
    ensures |r| == N
    ensures forall i :: 0 <= i < N ==> r[i] == if Lowers(d, visited, row, u, i) then w[u] + [i] else w[i]
  {
    seq(N, i requires 0 <= i < N => if Lowers(d, visited, row, u, i) then w[u] + [i] else w[i])
  }

  /** Relaxing the edges out of u, whose witness ends at u, keeps `prev` tracking the witnesses. */
  lemma PrevStep(source: int, d: seq<Int32>, prev: seq<int>, w: seq<seq<int>>, visited: seq<bool>, row: seq<Int32>, u: int)
    requires |d| == N && |prev| == N && |w| == N && |visited| == N && |row| == N && 0 <= u < N
    requires |w[u]| > 0 && w[u][|w[u]| - 1] == u
    requires PrevTracks(source, d, prev, w)
    ensures PrevTracks(source, RelaxedDist(d, visited, row, u), RelaxedPrev(prev, d, visited, row, u),
                       RelaxedWitness(w, d, visited, row, u))
  {
  }

  /**
   * What `prev` records: for a node other than the source with a finite
   * distance, `prev[v]` is a node, and some path to it, extended by the edge
   * from it to v, costs exactly `dist[v]`.
   */
  lemma PrevLastEdge(c: seq<seq<Int32>>, source: int, d: seq<Int32>, prev: seq<int>, w: seq<seq<int>>, v: int)
    requires Square(c) && |d| == N && |prev| == N && |w| == N && 0 <= v < N
    requires Witnessed(c, source, d, w) && PrevTracks(source, d, prev, w)
    requires v != source && d[v] < IntMax
    ensures 0 <= prev[v] < N
    ensures exists p :: IsPath(p, source, prev[v]) && PathCost(c, p) + c[prev[v]][v] == d[v]
  {
    var p := w[v][..|w[v]| - 1];
    assert w[v] == p + [v];
    PathCostAppend(c, p, v);
    assert IsPath(p, source, prev[v]);
  }

  /** The invariant holds right after initialisation, with the one-node path as every witness. */
  lemma InitInv(c: seq<seq<Int32>>, source: int)
    requires Square(c) && 0 <= source < N
    ensures Inv(c, source, InitDist(source), seq(N, _ => false), seq(N, _ => [source]))
  {
  }

  lemma WitnessStep(c: seq<seq<Int32>>, source: int, d: seq<Int32>, visited: seq<bool>, w: seq<seq<int>>, u: int)
    requires Square(c) && |d| == N && |visited| == N && |w| == N && 0 <= u < N && d[u] < IntMax
    requires Witnessed(c, source, d, w)
    ensures Witnessed(c, source, RelaxedDist(d, visited, c[u], u), RelaxedWitness(w, d, visited, c[u], u))
  {
    var d', w' := RelaxedDist(d, visited, c[u], u), RelaxedWitness(w, d, visited, c[u], u);
    forall v | 0 <= v < N && d'[v] < IntMax
      ensures IsPath(w'[v], source, v) && PathCost(c, w'[v]) == d'[v]
    {
      if Lowers(d, visited, c[u], u, v) {
        PathCostAppend(c, w[u], v);
      }
    }
  }

  lemma FrontierStep(c: seq<seq<Int32>>, d: seq<Int32>, visited: seq<bool>, u: int)
    requires Square(c) && NonNegative(c) && |d| == N && |visited| == N && 0 <= u < N
    requires Frontier(c, d, visited)
    ensures Frontier(c, RelaxedDist(d, visited[u := true], c[u], u), visited[u := true])
  {
    var v' := visited[u := true];
    var d' := RelaxedDist(d, v', c[u], u);
    forall x, v | 0 <= x < N && 0 <= v < N && v'[x] && !v'[v]
      ensures d'[v] as int <= d'[x] as int + c[x][v] as int
    {
      assert d'[x] == d[x] && d'[v] <= d[v];
    }
  }

  lemma SettledStep(c: seq<seq<Int32>>, source: int, d: seq<Int32>, visited: seq<bool>, u: int)
    requires Square(c) && |d| == N && |visited| == N && 0 <= u < N
    requires Settled(c, source, d, visited)
    requires forall p :: IsPath(p, source, u) ==> PathCost(c, p) >= d[u]
    ensures Settled(c, source, RelaxedDist(d, visited[u := true], c[u], u), visited[u := true])
  {
    RelaxedDistBelow(d, visited[u := true], c[u], u);
  }

  /**
   * With non-negative costs, a path from the visited source to an unvisited
   * node passes through an unvisited node `x` whose distance it costs at
   * least: the first unvisited node along it.
   */
  lemma CrossesFrontier(c: seq<seq<Int32>>, source: int, d: seq<Int32>, visited: seq<bool>, p: seq<int>, v: int) returns (x: int)
    requires Square(c) && NonNegative(c) && |d| == N && |visited| == N && 0 <= source < N
    requires Frontier(c, d, visited) && Settled(c, source, d, visited)
    requires visited[source] && IsPath(p, source, v) && !visited[v]
    ensures 0 <= x < N && !visited[x] && PathCost(c, p) >= d[x]
  {
    var j := 0;
    while visited[p[j]]
      invariant 0 <= j < |p| && (j > 0 ==> visited[p[j - 1]])
      decreases |p| - j
    {
      j := j + 1;
    }
    assert j > 0;
    x := p[j];
    var q := p[..j];
    assert IsPath(q, source, p[j - 1]);
    PathCostPrefix(c, p, j + 1);
    assert p[..j + 1][..j] == q;
  }

  /** With non-negative costs, the node the selection loop picks has its least path cost as its distance. */
  lemma SelectedIsShortest(c: seq<seq<Int32>>, source: int, d: seq<Int32>, visited: seq<bool>, w: seq<seq<int>>, u: int)
    requires Inv(c, source, d, visited, w) && NonNegative(c) && Selected(d, visited, u)
    ensures forall p :: IsPath(p, source, u) ==> PathCost(c, p) >= d[u]
  {
    forall p | IsPath(p, source, u)
      ensures PathCost(c, p) >= d[u]
    {
      if visited[source] {
        var x := CrossesFrontier(c, source, d, visited, p, u);
      } else {
        PathCostNonNegative(c, p);
      }
    }
  }

  /** The node picked first is the source, so after one iteration the source is visited. */
  lemma SelectedFirst(source: int, d: seq<Int32>, visited: seq<bool>, u: int)
    requires 0 <= source < N && |d| == N && |visited| == N
    requires Started(source, d, visited) && Selected(d, visited, u)
    ensures !visited[source] ==> u == source
  {
  }

  /** One iteration of the main loop keeps the invariant and visits one more node. */
  lemma StepPreserves(c: seq<seq<Int32>>, source: int, d: seq<Int32>, visited: seq<bool>, w: seq<seq<int>>, u: int)
    requires Inv(c, source, d, visited, w) && Selected(d, visited, u)
    ensures Inv(c, source, RelaxedDist(d, visited[u := true], c[u], u), visited[u := true],
                RelaxedWitness(w, d, visited[u := true], c[u], u))
    ensures VisitedCount(visited[u := true]) == VisitedCount(visited) + 1
  {
    var v' := visited[u := true];
    WitnessStep(c, source, d, v', w, u);
    RelaxedDistBelow(d, v', c[u], u);
    SelectedFirst(source, d, visited, u);
    if NonNegative(c) {
      FrontierStep(c, d, visited, u);
      SelectedIsShortest(c, source, d, visited, w, u);
      SettledStep(c, source, d, visited, u);
    }
    VisitOne(visited, u);
  }

  /** With non-negative costs, when no unvisited node is finite, no path reaches an unvisited target below INT_MAX. */
  lemma ExhaustedUnreachable(c: seq<seq<Int32>>, source: int, d: seq<Int32>, visited: seq<bool>, w: seq<seq<int>>, target: int)
    requires Inv(c, source, d, visited, w) && Exhausted(d, visited)
    requires 0 <= target < N && !visited[target]
    ensures NonNegative(c) ==> !Reachable(c, source, target)
  {
    if NonNegative(c) {
      assert visited[source];
      forall p | IsPath(p, source, target)
        ensures PathCost(c, p) >= IntMax
      {
        var x := CrossesFrontier(c, source, d, visited, p, target);
      }
    }
  }

  /** A visited target's distance is finite; with non-negative costs it is the least path cost to it. */
  lemma VisitedShortest(c: seq<seq<Int32>>, source: int, d: seq<Int32>, visited: seq<bool>, w: seq<seq<int>>, target: int)
    requires Inv(c, source, d, visited, w) && 0 <= target < N && visited[target]
    ensures d[target] < IntMax
    ensures NonNegative(c) ==> Reachable(c, source, target) && ShortestCost(c, source, target, d[target])
  {
    assert IsPath(w[target], source, target) && PathCost(c, w[target]) == d[target];
  }

  /**
   * The rest of one iteration of the main loop: marks the selected node
   * visited and relaxes its edges, keeping the loop invariant and `prev`'s
   * agreement with the witness paths `w` and `w'`.
   */
  method Visit(cost: array2<Int32>, dist: array<Int32>, prev: array<int>, visited: array<bool>,
               source: int, ghost w: seq<seq<int>>, u: int) returns (ghost w': seq<seq<int>>)
    requires cost.Length0 == N && cost.Length1 == N
    requires dist.Length == N && prev.Length == N && visited.Length == N
    requires Inv(CostMatrix(cost), source, dist[..], visited[..], w) && Selected(dist[..], visited[..], u)
    requires PrevTracks(source, dist[..], prev[..], w)
    modifies dist, prev, visited
    ensures visited[..] == old(visited[..])[u := true]
    ensures dist[..] == RelaxedDist(old(dist[..]), visited[..], CostRow(cost, u), u)
    ensures prev[..] == RelaxedPrev(old(prev[..]), old(dist[..]), visited[..], CostRow(cost, u), u)
    ensures Inv(CostMatrix(cost), source, dist[..], visited[..], w')
    ensures PrevTracks(source, dist[..], prev[..], w')
    ensures VisitedCount(visited[..]) == VisitedCount(old(visited[..])) + 1
  {
    ghost var c, d0, v0, p0 := CostMatrix(cost), dist[..], visited[..], prev[..];
    StepPreserves(c, source, d0, v0, w, u);
    assert IsPath(w[u], source, u);
    visited[u] := true;
    assert visited[..] == v0[u := true];
    Relax(cost, dist, prev, visited, u);
    w' := RelaxedWitness(w, d0, visited[..], c[u], u);
    PrevStep(source, d0, p0, w, visited[..], c[u], u);
  }

  /** Some path from `source` to `target` costs less than INT_MAX. */
  ghost predicate Reachable(c: seq<seq<Int32>>, source: int, target: int)
    requires Square(c)
  {
    exists p :: IsPath(p, source, target) && PathCost(c, p) < IntMax
  }

  // ---------------------------------------------------------------------
  // The function itself

  /**
   * dijsktra: the bounds asserts, the initialisation, and the main loop
   * that visits the nearest unvisited node and relaxes its edges until the
   * target is visited.  With non-negative costs the result is the least
   * path cost to the target, and the "invariant violated" assert fails
   * exactly when no path to the target costs less than INT_MAX.
   */
  method Dijsktra(cost: array2<Int32>, source: int, target: int) returns (r: Outcome)
    requires cost.Length0 == N && cost.Length1 == N
    ensures !(0 <= source < N) ==> r == AssertionFailed("source out of bounds")
    ensures 0 <= source < N && !(0 <= target < N) ==> r == AssertionFailed("target out of bounds")
    ensures 0 <= source < N && 0 <= target < N ==> r.Returned? || r == AssertionFailed("invariant violated")
    ensures r.Returned? ==> r.dist < IntMax
    ensures 0 <= source < N && 0 <= target < N && NonNegative(CostMatrix(cost)) ==>
              (r.Returned? <==> Reachable(CostMatrix(cost), source, target))
    ensures 0 <= target < N && NonNegative(CostMatrix(cost)) && r.Returned? ==>
              ShortestCost(CostMatrix(cost), source, target, r.dist)
  {
    if !(0 <= source < N) {
      return AssertionFailed("source out of bounds");
    }
    if !(0 <= target < N) {
      return AssertionFailed("target out of bounds");
    }
    var dist, prev := InitTables(source);
    var visited := new bool[N](_ => false);
    ghost var c := CostMatrix(cost);
    ghost var w: seq<seq<int>> := seq(N, _ => [source]);
    assert visited[..] == seq(N, _ => false);
    InitInv(c, source);
    while !visited[target]
      invariant dist.Length == N && prev.Length == N && visited.Length == N
      invariant c == CostMatrix(cost)
      invariant Inv(c, source, dist[..], visited[..], w)
      invariant PrevTracks(source, dist[..], prev[..], w)
      decreases N - VisitedCount(visited[..])
    {
      var u := SelectMin(dist, visited);
      if u == -1 {
        ExhaustedUnreachable(c, source, dist[..], visited[..], w, target);
        return AssertionFailed("invariant violated");
      }
      w := Visit(cost, dist, prev, visited, source, w, u);
    }
    VisitedShortest(c, source, dist[..], visited[..], w, target);
    return Returned(dist[target]);
  }
}
