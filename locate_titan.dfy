/**
 * The search for the cheapest way from Earth (vertex 0) to every other
 * generator (`LocateTitan.dijkstra`): Dijkstra's algorithm on an adjacency
 * matrix of Java ints, where an entry of 0 means that there is no edge.
 */
module LocateTitan {
  import opened Wrappers

  /** `Integer.MAX_VALUE`, which also stands for "not reached yet". */
  const IntMax := 0x7fff_ffff

  /** Java's 32-bit int addition: the mathematical sum wrapped into -2^31 .. 2^31-1. */
  function Wrap32(x: int): (r: int)
    ensures -0x8000_0000 <= r <= IntMax
    ensures -0x8000_0000 <= x <= IntMax ==> r == x
  {
    (x + 0x8000_0000) % 0x1_0000_0000 - 0x8000_0000
  }

  predicate IsMatrix(arr: seq<seq<int>>) {
    forall i :: 0 <= i < |arr| ==> |arr[i]| == |arr|
  }

  /**
   * The matrices the model promises shortest paths for: square, with
   * non-negative costs, each small enough that a path of `n` edges costs
   * less than `Integer.MAX_VALUE`.
   */
  predicate Fits(arr: seq<seq<int>>) {
    IsMatrix(arr)
    && forall i, j :: 0 <= i < |arr| && 0 <= j < |arr| ==> 0 <= arr[i][j] <= EdgeLimit(|arr|)
  }

  /** The largest edge cost `w` with `n * w < Integer.MAX_VALUE`. */
  function EdgeLimit(n: nat): int {
    if n == 0 then IntMax else (IntMax - 1) / n
  }

  lemma EdgeLimitFits(n: nat)
    requires n > 0
    ensures n * EdgeLimit(n) < IntMax
  {
    var q, r := (IntMax - 1) / n, (IntMax - 1) % n;
    assert n * q + r == IntMax - 1 && 0 <= r;
  }

  predicate InRange(arr: seq<seq<int>>, p: seq<int>) {
    forall i :: 0 <= i < |p| ==> 0 <= p[i] < |arr|
  }

  /** A walk from vertex 0 along edges, that is along entries other than 0. */
  predicate IsPath(arr: seq<seq<int>>, p: seq<int>)
    requires IsMatrix(arr)
  {
    |p| >= 1 && p[0] == 0 && InRange(arr, p)
    && forall i :: 0 <= i < |p| - 1 ==> arr[p[i]][p[i + 1]] != 0
  }

  /** `p` is a walk from vertex 0 to vertex `v`. */
  predicate PathTo(arr: seq<seq<int>>, p: seq<int>, v: int)
    requires IsMatrix(arr)
  {
    IsPath(arr, p) && p[|p| - 1] == v
  }

  /** The total cost of the edges of a walk. */
  function Cost(arr: seq<seq<int>>, p: seq<int>): int
    requires IsMatrix(arr) && InRange(arr, p)
    decreases |p|
  {
    if |p| <= 1 then 0 else Cost(arr, p[..|p| - 1]) + arr[p[|p| - 2]][p[|p| - 1]]
  }

  ghost predicate Reachable(arr: seq<seq<int>>, v: int)
    requires IsMatrix(arr)
  {
    exists p :: PathTo(arr, p, v)
  }

  /** `d` is the cost of a cheapest walk from vertex 0 to `v`. */
  ghost predicate Shortest(arr: seq<seq<int>>, v: int, d: int)
    requires IsMatrix(arr)
  {
    (exists p :: PathTo(arr, p, v) && Cost(arr, p) == d)
    && forall p :: PathTo(arr, p, v) ==> d <= Cost(arr, p)
  }

  /**
   * getMinCostNode: the lowest-numbered unvisited vertex of least cost below
   * `Integer.MAX_VALUE`, or -1 when every unvisited vertex costs
   * `Integer.MAX_VALUE` or more.
   */
  method GetMinCostNode(minCost: array<int>, dijkstraSet: array<bool>) returns (minNode: int)
    requires minCost.Length <= dijkstraSet.Length
    ensures minNode == -1 <==> forall i :: 0 <= i < minCost.Length && !dijkstraSet[i] ==> minCost[i] >= IntMax
    ensures minNode != -1 ==> 0 <= minNode < minCost.Length && !dijkstraSet[minNode] && minCost[minNode] < IntMax
    ensures minNode != -1 ==> forall i :: 0 <= i < minCost.Length && !dijkstraSet[i] ==> minCost[minNode] <= minCost[i]
    ensures minNode != -1 ==> forall i :: 0 <= i < minNode && !dijkstraSet[i] ==> minCost[minNode] < minCost[i]
  {
    var minValue := IntMax;
    minNode := -1;
    for i := 0 to minCost.Length
      invariant minNode == -1 ==> minValue == IntMax && forall j :: 0 <= j < i && !dijkstraSet[j] ==> minCost[j] >= IntMax
      invariant minNode != -1 ==> 0 <= minNode < i && !dijkstraSet[minNode] && minValue == minCost[minNode] < IntMax
      invariant minNode != -1 ==> forall j :: 0 <= j < i && !dijkstraSet[j] ==> minValue <= minCost[j]
      invariant minNode != -1 ==> forall j :: 0 <= j < minNode && !dijkstraSet[j] ==> minValue < minCost[j]
    {
      if minCost[i] < minValue && !dijkstraSet[i] {
        minValue := minCost[i];
        minNode := i;
      }
    }
  }

  /** The cost of `w` after relaxing the edge from `cs`, with the source's int arithmetic. */
  function Relaxed(arr: seq<seq<int>>, cost: seq<int>, cs: int, w: int): (r: int)
    requires IsMatrix(arr) && |cost| == |arr| && 0 <= cs < |arr| && 0 <= w < |arr|
    ensures r <= cost[w]
    ensures arr[cs][w] == 0 || cost[cs] == IntMax ==> r == cost[w]
  {
    var weight := Wrap32(cost[cs] + arr[cs][w]);
    if arr[cs][w] != 0 && cost[cs] != IntMax && cost[w] > weight then weight else cost[w]
  }

  /** The number of visited vertices. */
  function CountTrue(s: seq<bool>): (k: nat)
    ensures k <= |s|
  {
    if s == [] then 0 else (if s[0] then 1 else 0) + CountTrue(s[1..])
  }

  lemma {:induction false} CountNone(s: seq<bool>)
    requires forall i :: 0 <= i < |s| ==> !s[i]
    ensures CountTrue(s) == 0
  {
    if s != [] {
      CountNone(s[1..]);
    }
  }

  /** Marking an unvisited vertex visits one more. */
  lemma {:induction false} CountMark(s: seq<bool>, i: int)
    requires 0 <= i < |s| && !s[i]
    ensures CountTrue(s[i := true]) == CountTrue(s) + 1
  {
    if i > 0 {
      assert s[i := true][1..] == s[1..][i - 1 := true];
      CountMark(s[1..], i - 1);
    }
  }

  /** Once as many vertices are visited as there are, all of them are. */
  lemma {:induction false} CountAll(s: seq<bool>)
    requires CountTrue(s) == |s|
    ensures forall i :: 0 <= i < |s| ==> s[i]
  {
    if s != [] {
      CountAll(s[1..]);
      forall i | 0 < i < |s| ensures s[i] {
        assert s[i] == s[1..][i - 1];
      }
    }
  }

  lemma CostSnoc(arr: seq<seq<int>>, p: seq<int>, w: int)
    requires IsMatrix(arr) && InRange(arr, p) && |p| >= 1 && 0 <= w < |arr|
    ensures InRange(arr, p + [w])
    ensures Cost(arr, p + [w]) == Cost(arr, p) + arr[p[|p| - 1]][w]
  {
    assert (p + [w])[..|p|] == p;
  }

  /** A walk of at least two vertices is a shorter walk followed by one edge. */
  lemma PrefixPath(arr: seq<seq<int>>, p: seq<int>, v: int)
    requires IsMatrix(arr) && PathTo(arr, p, v) && |p| >= 2
    ensures PathTo(arr, p[..|p| - 1], p[|p| - 2]) && arr[p[|p| - 2]][v] != 0
    ensures Cost(arr, p) == Cost(arr, p[..|p| - 1]) + arr[p[|p| - 2]][v]
  {
  }

  lemma {:induction false} CostNonNegative(arr: seq<seq<int>>, p: seq<int>)
    requires Fits(arr) && InRange(arr, p)
    ensures Cost(arr, p) >= 0
    decreases |p|
  {
    if |p| > 1 {
      CostNonNegative(arr, p[..|p| - 1]);
    }
  }

  /** A walk costs at most its number of edges times the edge limit. */
  lemma {:induction false} CostScaled(arr: seq<seq<int>>, p: seq<int>)
    requires Fits(arr) && InRange(arr, p) && |p| >= 1
    ensures Cost(arr, p) <= (|p| - 1) * EdgeLimit(|arr|)
    decreases |p|
  {
    if |p| > 1 {
      CostScaled(arr, p[..|p| - 1]);
      assert (|p| - 2) * EdgeLimit(|arr|) + EdgeLimit(|arr|) == (|p| - 1) * EdgeLimit(|arr|);
    }
  }

  /** A walk of at most `n` edges costs less than `Integer.MAX_VALUE`: the sums never wrap. */
  lemma CostBound(arr: seq<seq<int>>, p: seq<int>)
    requires Fits(arr) && InRange(arr, p) && 1 <= |p| <= |arr| + 1
    ensures 0 <= Cost(arr, p) < IntMax
  {
    CostScaled(arr, p);
    CostNonNegative(arr, p);
    assert 0 <= p[0] < |arr|;
    EdgeLimitFits(|arr|);
    MulMono(|p| - 1, |arr|, EdgeLimit(|arr|));
  }

  lemma {:induction false} MulMono(a: nat, b: nat, l: nat)
    requires a <= b
    ensures a * l <= b * l
    decreases b - a
  {
    if a < b {
      MulMono(a, b - 1, l);
      assert (b - 1) * l + l == b * l;
    }
  }

  /**
   * The state of the main loop after `k` rounds: `cost` is `minCost`, `done`
   * is `DijkstraSet`, and `paths` holds, for each vertex of finite cost, a
   * walk of that cost with at most `k` edges.
   */
  ghost predicate Inv(arr: seq<seq<int>>, cost: seq<int>, done: seq<bool>, paths: seq<seq<int>>, k: nat) {
    var n := |arr|;
    Fits(arr) && |cost| == n && |done| == n && |paths| == n && CountTrue(done) == k
    && (n > 0 ==> cost[0] == 0)
    && (forall v :: 0 <= v < n ==> 0 <= cost[v] <= IntMax)
    && Witnessed(arr, cost, paths, k) && Settled(arr, cost, done)
    && EdgesRelaxed(arr, cost, done) && Ordered(cost, done)
  }

  /** Every finite cost is the cost of a walk to its vertex of at most `k` edges. */
  ghost predicate Witnessed(arr: seq<seq<int>>, cost: seq<int>, paths: seq<seq<int>>, k: nat) {
    IsMatrix(arr) && |cost| == |arr| && |paths| == |arr|
    && forall v :: 0 <= v < |arr| && cost[v] != IntMax ==>
         PathTo(arr, paths[v], v) && Cost(arr, paths[v]) == cost[v] && |paths[v]| <= k + 1
  }

  /** A visited vertex has its final, cheapest cost. */
  ghost predicate Settled(arr: seq<seq<int>>, cost: seq<int>, done: seq<bool>) {
    IsMatrix(arr) && |cost| == |arr| && |done| == |arr|
    && (forall v :: 0 <= v < |arr| && done[v] ==> cost[v] != IntMax)
    && (forall v, p :: 0 <= v < |arr| && done[v] && PathTo(arr, p, v) ==> cost[v] <= Cost(arr, p))
  }

  /** Every edge from a visited vertex to an unvisited one has been relaxed. */
  predicate EdgesRelaxed(arr: seq<seq<int>>, cost: seq<int>, done: seq<bool>) {
    IsMatrix(arr) && |cost| == |arr| && |done| == |arr|
    && forall u, v :: 0 <= u < |arr| && 0 <= v < |arr| && done[u] && !done[v] && arr[u][v] != 0 ==>
         cost[v] <= cost[u] + arr[u][v]
  }

  /** No visited vertex costs more than an unvisited one. */
  predicate Ordered(cost: seq<int>, done: seq<bool>) {
    |cost| == |done|
    && forall u, v :: 0 <= u < |cost| && 0 <= v < |cost| && done[u] && !done[v] ==> cost[u] <= cost[v]
  }

  /** `cs` is a vertex `getMinCostNode` may return: unvisited, of finite and least cost. */
  ghost predicate MinUnvisited(cost: seq<int>, done: seq<bool>, cs: int)
    requires |cost| == |done|
  {
    0 <= cs < |cost| && !done[cs] && cost[cs] < IntMax
    && forall i :: 0 <= i < |cost| && !done[i] ==> cost[cs] <= cost[i]
  }

  /**
   * Every walk to an unvisited vertex leaves the visited ones somewhere:
   * there is an unvisited vertex of finite cost no more than the walk's.
   */
  lemma {:induction false} Frontier(arr: seq<seq<int>>, cost: seq<int>, done: seq<bool>, paths: seq<seq<int>>, k: nat, p: seq<int>, v: int)
    returns (x: int)
    requires Inv(arr, cost, done, paths, k)
    requires 0 <= v < |arr| && !done[v] && PathTo(arr, p, v)
    ensures 0 <= x < |arr| && !done[x] && cost[x] != IntMax && cost[x] <= Cost(arr, p)
    decreases |p|
  {
    if |p| == 1 {
      x := 0;
    } else {
      var q, u := p[..|p| - 1], p[|p| - 2];
      PrefixPath(arr, p, v);
      if done[u] {
        CountMark(done, v);
        CostSnoc(arr, paths[u], v);
        CostBound(arr, paths[u] + [v]);
        x := v;
      } else {
        x := Frontier(arr, cost, done, paths, k, q, u);
      }
    }
  }

  /** The vertex `getMinCostNode` picks already has its cheapest cost. */
  lemma PickIsShortest(arr: seq<seq<int>>, cost: seq<int>, done: seq<bool>, paths: seq<seq<int>>, k: nat, cs: int)
    requires Inv(arr, cost, done, paths, k) && MinUnvisited(cost, done, cs)
    ensures forall p :: PathTo(arr, p, cs) ==> cost[cs] <= Cost(arr, p)
  {
    forall p | PathTo(arr, p, cs) ensures cost[cs] <= Cost(arr, p) {
      var x := Frontier(arr, cost, done, paths, k, p, cs);
    }
  }

  /** A vertex reachable from Earth but unvisited leaves some unvisited vertex of finite cost. */
  lemma ReachableFrontier(arr: seq<seq<int>>, cost: seq<int>, done: seq<bool>, paths: seq<seq<int>>, k: nat, v: int)
    requires Inv(arr, cost, done, paths, k) && 0 <= v < |arr| && !done[v]
    ensures Reachable(arr, v) ==> exists x :: 0 <= x < |arr| && !done[x] && cost[x] != IntMax
  {
    if Reachable(arr, v) {
      var p :| PathTo(arr, p, v);
      var x := Frontier(arr, cost, done, paths, k, p, v);
    }
  }

  /**
   * When `getMinCostNode` finds no vertex (it returns -1) before every vertex
   * is visited, some vertex cannot be reached from Earth.
   */
  lemma StuckUnreachable(arr: seq<seq<int>>, cost: seq<int>, done: seq<bool>, paths: seq<seq<int>>, k: nat)
    requires Inv(arr, cost, done, paths, k) && k < |arr|
    requires forall i :: 0 <= i < |arr| && !done[i] ==> cost[i] >= IntMax
    ensures exists v :: 0 <= v < |arr| && !Reachable(arr, v)
  {
    var v :| 0 <= v < |arr| && !done[v] by {
      if forall i :: 0 <= i < |done| ==> done[i] {
        AllCounted(done);
      }
    }
    ReachableFrontier(arr, cost, done, paths, k, v);
  }

  /** A sequence all of whose entries are true counts its length. */
  lemma {:induction false} AllCounted(s: seq<bool>)
    requires forall i :: 0 <= i < |s| ==> s[i]
    ensures CountTrue(s) == |s|
  {
    if s != [] {
      AllCounted(s[1..]);
    }
  }

  /** The walks after relaxing from `cs`: a lowered cost is reached through `cs`. */
  ghost function Extend(paths: seq<seq<int>>, cost: seq<int>, cost': seq<int>, cs: int): (r: seq<seq<int>>)
    requires |cost| == |paths| && |cost'| == |paths| && 0 <= cs < |paths|
    ensures |r| == |paths|
  {
    seq(|paths|, w requires 0 <= w < |paths| => if cost'[w] != cost[w] then paths[cs] + [w] else paths[w])
  }

  /** The walk to `cs` followed by the edge to `w` is short enough for its cost not to wrap. */
  lemma NoWrap(arr: seq<seq<int>>, cost: seq<int>, paths: seq<seq<int>>, k: nat, cs: int, w: int)
    requires Fits(arr) && Witnessed(arr, cost, paths, k) && k < |arr|
    requires 0 <= cs < |arr| && cost[cs] != IntMax && 0 <= w < |arr|
    ensures 0 <= cost[cs] + arr[cs][w] < IntMax
    ensures Cost(arr, paths[cs] + [w]) == cost[cs] + arr[cs][w] && |paths[cs] + [w]| <= k + 2
    ensures arr[cs][w] != 0 ==> PathTo(arr, paths[cs] + [w], w)
  {
    CostSnoc(arr, paths[cs], w);
    CostBound(arr, paths[cs] + [w]);
    var p := paths[cs] + [w];
    assert p[..|p| - 1] == paths[cs];
  }

  /** What relaxing from the picked vertex `cs` does to one vertex `w`. */
  lemma RelaxOne(arr: seq<seq<int>>, cost: seq<int>, done: seq<bool>, cs: int, w: int)
    requires IsMatrix(arr) && |cost| == |arr| && |done| == |arr| && MinUnvisited(cost, done, cs) && 0 <= w < |arr|
    requires 0 <= cost[cs] + arr[cs][w] < IntMax && 0 <= arr[cs][w]
    requires done[w] ==> cost[w] <= cost[cs]
    ensures !done[w] ==> cost[cs] <= Relaxed(arr, cost, cs, w)
    ensures Relaxed(arr, cost, cs, w) != cost[w] ==>
      !done[w] && w != cs && arr[cs][w] != 0 && Relaxed(arr, cost, cs, w) == cost[cs] + arr[cs][w]
    ensures arr[cs][w] != 0 ==> Relaxed(arr, cost, cs, w) <= cost[cs] + arr[cs][w]
  {
  }

  /** One round of the main loop keeps the invariant, with one more vertex visited. */
  lemma RelaxKeeps(arr: seq<seq<int>>, cost: seq<int>, done: seq<bool>, paths: seq<seq<int>>, k: nat, cs: int, cost': seq<int>)
    requires Inv(arr, cost, done, paths, k) && MinUnvisited(cost, done, cs)
    requires |cost'| == |arr| && forall w :: 0 <= w < |arr| ==> cost'[w] == Relaxed(arr, cost, cs, w)
    ensures Inv(arr, cost', done[cs := true], Extend(paths, cost, cost', cs), k + 1)
  {
    var done', paths' := done[cs := true], Extend(paths, cost, cost', cs);
    CountMark(done, cs);
    PickIsShortest(arr, cost, done, paths, k, cs);
    RelaxAll(arr, cost, done, paths, k, cs, cost');
    NextWitnessed(arr, cost, paths, k, cs, cost', paths');
    NextSettled(arr, cost, done, cs, cost');
    NextRelaxed(arr, cost, done, cs, cost');
    NextOrdered(cost, done, cs, cost');
  }

  /** `RelaxOne` for every vertex at once. */
  lemma RelaxAll(arr: seq<seq<int>>, cost: seq<int>, done: seq<bool>, paths: seq<seq<int>>, k: nat, cs: int, cost': seq<int>)
    requires Inv(arr, cost, done, paths, k) && MinUnvisited(cost, done, cs) && k < |arr|
    requires |cost'| == |arr| && forall w :: 0 <= w < |arr| ==> cost'[w] == Relaxed(arr, cost, cs, w)
    ensures forall w :: 0 <= w < |arr| ==> 0 <= cost'[w] <= cost[w]
    ensures forall w :: 0 <= w < |arr| && cost'[w] != cost[w] ==>
      !done[w] && w != cs && PathTo(arr, paths[cs] + [w], w) && Cost(arr, paths[cs] + [w]) == cost'[w]
      && |paths[cs] + [w]| <= k + 2
    ensures forall w :: 0 <= w < |arr| && !done[w] ==> cost[cs] <= cost'[w]
    ensures forall w :: 0 <= w < |arr| && arr[cs][w] != 0 ==> cost'[w] <= cost[cs] + arr[cs][w]
  {
    forall w | 0 <= w < |arr|
      ensures 0 <= cost'[w] <= cost[w]
      ensures cost'[w] != cost[w] ==>
        !done[w] && w != cs && PathTo(arr, paths[cs] + [w], w) && Cost(arr, paths[cs] + [w]) == cost'[w]
        && |paths[cs] + [w]| <= k + 2
      ensures !done[w] ==> cost[cs] <= cost'[w]
      ensures arr[cs][w] != 0 ==> cost'[w] <= cost[cs] + arr[cs][w]
    {
      NoWrap(arr, cost, paths, k, cs, w);
      RelaxOne(arr, cost, done, cs, w);
    }
  }

  lemma NextWitnessed(arr: seq<seq<int>>, cost: seq<int>, paths: seq<seq<int>>, k: nat, cs: int, cost': seq<int>, paths': seq<seq<int>>)
    requires Witnessed(arr, cost, paths, k) && 0 <= cs < |arr| && |cost'| == |arr|
    requires forall w :: 0 <= w < |arr| && cost'[w] != cost[w] ==>
      PathTo(arr, paths[cs] + [w], w) && Cost(arr, paths[cs] + [w]) == cost'[w] && |paths[cs] + [w]| <= k + 2
    requires paths' == Extend(paths, cost, cost', cs)
    ensures Witnessed(arr, cost', paths', k + 1)
  {
  }

  lemma NextSettled(arr: seq<seq<int>>, cost: seq<int>, done: seq<bool>, cs: int, cost': seq<int>)
    requires Settled(arr, cost, done) && 0 <= cs < |arr| && cost[cs] != IntMax && |cost'| == |arr|
    requires forall p :: PathTo(arr, p, cs) ==> cost[cs] <= Cost(arr, p)
    requires forall w :: 0 <= w < |arr| && cost'[w] != cost[w] ==> !done[w] && w != cs
    ensures Settled(arr, cost', done[cs := true])
  {
  }

  lemma NextRelaxed(arr: seq<seq<int>>, cost: seq<int>, done: seq<bool>, cs: int, cost': seq<int>)
    requires EdgesRelaxed(arr, cost, done) && 0 <= cs < |arr| && |cost'| == |arr|
    requires forall w :: 0 <= w < |arr| ==> cost'[w] <= cost[w]
    requires forall w :: 0 <= w < |arr| && cost'[w] != cost[w] ==> !done[w] && w != cs
    requires forall w :: 0 <= w < |arr| && arr[cs][w] != 0 ==> cost'[w] <= cost[cs] + arr[cs][w]
    ensures EdgesRelaxed(arr, cost', done[cs := true])
  {
  }

  lemma NextOrdered(cost: seq<int>, done: seq<bool>, cs: int, cost': seq<int>)
    requires Ordered(cost, done) && 0 <= cs < |cost| && !done[cs] && |cost'| == |cost|
    requires forall w :: 0 <= w < |cost| && cost'[w] != cost[w] ==> !done[w] && w != cs
    requires forall w :: 0 <= w < |cost| && !done[w] ==> cost[cs] <= cost'[w]
    ensures Ordered(cost', done[cs := true])
  {
  }

  /** The costs before the first round: 0 for Earth, `Integer.MAX_VALUE` elsewhere. */
  lemma InitInv(arr: seq<seq<int>>, cost: seq<int>, done: seq<bool>)
    requires Fits(arr) && |cost| == |arr| && |done| == |arr|
    requires forall i :: 0 <= i < |arr| ==> cost[i] == (if i == 0 then 0 else IntMax) && !done[i]
    ensures Inv(arr, cost, done, seq(|arr|, _ => [0]), 0)
  {
    CountNone(done);
  }

  /** After a round for every vertex, each cost is the cost of a cheapest walk. */
  lemma DoneInv(arr: seq<seq<int>>, cost: seq<int>, done: seq<bool>, paths: seq<seq<int>>)
    requires Inv(arr, cost, done, paths, |arr|)
    ensures forall v :: 0 <= v < |arr| ==> Reachable(arr, v) && Shortest(arr, v, cost[v])
  {
    CountAll(done);
    forall v | 0 <= v < |arr| ensures Reachable(arr, v) && Shortest(arr, v, cost[v]) {
      assert PathTo(arr, paths[v], v);
    }
  }

  /** The first loop of dijkstra: Java's zeroed array, then `Integer.MAX_VALUE` from index 1 on. */
  method InitialCosts(n: nat) returns (minCost: array<int>)
    ensures fresh(minCost) && minCost.Length == n
    ensures forall i :: 0 <= i < n ==> minCost[i] == if i == 0 then 0 else IntMax
  {
    minCost := new int[n](_ => 0);
    var i := 1;
    // the source's `i == 0` branch never runs: the loop starts at 1
    while i < n
      invariant 1 <= i
      invariant forall j :: 0 <= j < n ==> minCost[j] == if 1 <= j < i then IntMax else 0
    {
      minCost[i] := IntMax;
      i := i + 1;
    }
  }

  /** The inner loop of dijkstra: relaxes every edge out of `cs`, in vertex order. */
  method Relax(arr: seq<seq<int>>, minCost: array<int>, cs: int)
    requires IsMatrix(arr) && minCost.Length == |arr| && 0 <= cs < |arr|
    requires Relaxed(arr, minCost[..], cs, cs) == minCost[cs]
    modifies minCost
    ensures forall w :: 0 <= w < |arr| ==> minCost[w] == Relaxed(arr, old(minCost[..]), cs, w)
  {
    ghost var before := minCost[..];
    for w := 0 to |arr|
      invariant minCost[cs] == before[cs]
      invariant forall j :: 0 <= j < |arr| ==> minCost[j] == if j < w then Relaxed(arr, before, cs, j) else before[j]
    {
      var weight := Wrap32(minCost[cs] + arr[cs][w]);
      if arr[cs][w] != 0 && minCost[cs] != IntMax && minCost[w] > weight {
        minCost[w] := weight;
      }
    }
  }

  /**
   * One round of the outer loop of dijkstra: visits the vertex
   * `getMinCostNode` picks and relaxes the edges out of it. `found` is false
   * when `getMinCostNode` returns -1, where the source then fails on
   * `DijkstraSet[-1]`; nothing has changed by then. Otherwise
   * `currentSource` is the vertex visited.
   */
  method Round(arr: seq<seq<int>>, minCost: array<int>, dijkstraSet: array<bool>, ghost paths: seq<seq<int>>, ghost k: nat)
    returns (found: bool, currentSource: int, ghost paths': seq<seq<int>>)
    requires Inv(arr, minCost[..], dijkstraSet[..], paths, k) && k < |arr|
    requires minCost.Length == |arr| && dijkstraSet.Length == |arr|
    modifies minCost, dijkstraSet
    ensures found ==> MinUnvisited(old(minCost[..]), old(dijkstraSet[..]), currentSource)
    ensures found ==> dijkstraSet[..] == old(dijkstraSet[..])[currentSource := true]
    ensures found ==> forall w :: 0 <= w < |arr| ==> minCost[w] == Relaxed(arr, old(minCost[..]), currentSource, w)
    ensures found ==> Inv(arr, minCost[..], dijkstraSet[..], paths', k + 1)
    ensures !found ==> minCost[..] == old(minCost[..]) && dijkstraSet[..] == old(dijkstraSet[..])
    ensures !found ==> exists v :: 0 <= v < |arr| && !Reachable(arr, v)
  {
    currentSource := GetMinCostNode(minCost, dijkstraSet);
    if currentSource == -1 {
      StuckUnreachable(arr, minCost[..], dijkstraSet[..], paths, k);
      return false, currentSource, paths;
    }
    ghost var cost, done := minCost[..], dijkstraSet[..];
    CountMark(done, currentSource);
    NoWrap(arr, cost, paths, k, currentSource, currentSource);
    dijkstraSet[currentSource] := true;
    Relax(arr, minCost, currentSource);
    RelaxKeeps(arr, cost, done, paths, k, currentSource, minCost[..]);
    paths' := Extend(paths, cost, minCost[..], currentSource);
    assert dijkstraSet[..] == done[currentSource := true];
    found := true;
  }

  /**
   * dijkstra: the cost of a cheapest walk from Earth to every vertex, or
   * `None` where the source fails, which is when `getMinCostNode` returns -1
   * and `DijkstraSet[-1]` is out of bounds: exactly when some vertex cannot
   * be reached.
   */
  method Dijkstra(arr: seq<seq<int>>) returns (r: Option<seq<int>>)
    requires Fits(arr)
    ensures r.Some? <==> forall v :: 0 <= v < |arr| ==> Reachable(arr, v)
    ensures r.Some? ==> |r.value| == |arr| && forall v :: 0 <= v < |arr| ==> Shortest(arr, v, r.value[v])
  {
    var n := |arr|;
    var minCost := InitialCosts(n);
    var dijkstraSet := new bool[n](_ => false);
    ghost var paths: seq<seq<int>> := seq(n, _ => [0]);
    InitInv(arr, minCost[..], dijkstraSet[..]);
    for i := 0 to n
      invariant Inv(arr, minCost[..], dijkstraSet[..], paths, i)
    {
      var found, currentSource;
      found, currentSource, paths := Round(arr, minCost, dijkstraSet, paths, i);
      if !found {
        return None;
      }
    }
    DoneInv(arr, minCost[..], dijkstraSet[..], paths);
    return Some(minCost[..]);
  }
}
