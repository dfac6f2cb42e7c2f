/** The routing graph: adjacency lists built from the fixed 8x8 distance
    matrix (an edge wherever an off-diagonal entry is positive) and
    Dijkstra's shortest-path search driven by the position-indexed heap. */
module Routing {
  import opened Heap

  const Cities := 8
  /** The source's INT_MAX, used as "not reached yet". */
  const IntMax := 0x7fff_ffff

  const DistMatrix: seq<seq<int>> := [
    [0, 15, 8, 6, 4, 10, 14, 3],
    [15, 0, 12, 10, 13, 14, 6, 14],
    [8, 12, 0, 6, 7, 4, 13, 10],
    [6, 10, 6, 0, 5, 9, 12, 7],
    [4, 13, 7, 5, 0, 8, 14, 5],
    [10, 14, 4, 9, 8, 0, 13, 11],
    [14, 6, 13, 12, 14, 13, 0, 15],
    [3, 14, 10, 7, 5, 11, 15, 0]
  ]

  predicate IsCity(i: int) { 0 <= i < Cities }

  /** The matrix entry for a pair of cities, 0 outside the matrix. */
  function Weight(i: int, j: int): int {
    if IsCity(i) && IsCity(j) then DistMatrix[i][j] else 0
  }

  predicate Edge(i: int, j: int) {
    IsCity(i) && IsCity(j) && i != j && Weight(i, j) > 0
  }

  /** Facts about the deployed matrix: square, symmetric, zero on the
      diagonal and positive elsewhere, so every pair of distinct cities is
      joined by a direct edge. */
  lemma MatrixFacts()
    ensures |DistMatrix| == Cities && forall i :: 0 <= i < Cities ==> |DistMatrix[i]| == Cities
    ensures forall i, j :: IsCity(i) && IsCity(j) ==> Weight(i, j) == Weight(j, i)
    ensures forall i, j :: IsCity(i) && IsCity(j) ==> (Weight(i, j) == 0 <==> i == j)
    ensures forall i, j :: IsCity(i) && IsCity(j) ==> 0 <= Weight(i, j) <= 15
  {
  }

  lemma WeightNonnegative(i: int, j: int)
    ensures Weight(i, j) >= 0
  {
    MatrixFacts();
  }

  ghost predicate IsPath(p: seq<int>, s: int, d: int) {
    && |p| > 0 && p[0] == s && p[|p| - 1] == d
    && (forall k :: 0 <= k < |p| ==> IsCity(p[k]))
    && (forall i, j :: 0 <= i && j == i + 1 && j < |p| ==> Edge(p[i], p[j]))
  }

  /** Sum of the matrix entries along consecutive cities of `p`. */
  ghost function PathWeight(p: seq<int>): int {
    if |p| <= 1 then 0 else PathWeight(p[..|p| - 1]) + Weight(p[|p| - 2], p[|p| - 1])
  }

  lemma {:induction false} PathWeightNonnegative(p: seq<int>)
    ensures PathWeight(p) >= 0
  {
    if |p| > 1 {
      PathWeightNonnegative(p[..|p| - 1]);
      WeightNonnegative(p[|p| - 2], p[|p| - 1]);
    }
  }

  /** A prefix of a route weighs no more than the route. */
  lemma {:induction false} PrefixWeight(p: seq<int>, k: nat)
    requires 1 <= k <= |p|
    ensures PathWeight(p[..k]) <= PathWeight(p)
    decreases |p|
  {
    if k < |p| {
      var q := p[..|p| - 1];
      assert p[..k] == q[..k];
      PrefixWeight(q, k);
      WeightNonnegative(p[|p| - 2], p[|p| - 1]);
    } else {
      assert p[..k] == p;
    }
  }

  lemma ExtendPath(p: seq<int>, s: int, u: int, v: int)
    requires IsPath(p, s, u) && Edge(u, v)
    ensures IsPath(p + [v], s, v)
    ensures PathWeight(p + [v]) == PathWeight(p) + Weight(u, v)
  {
    assert (p + [v])[..|p|] == p;
  }

  lemma PrefixIsPath(p: seq<int>, s: int, d: int, k: nat)
    requires IsPath(p, s, d) && 1 <= k <= |p|
    ensures IsPath(p[..k], s, p[k - 1])
  {
  }

  datatype AdjNode = AdjNode(dest: int, weight: int)

  /** Adjacency list of `i` after the constructor has looked at columns
      `0 .. n-1`: each edge is pushed at the head, so later columns come
      first. */
  function AdjUpTo(i: int, n: nat): seq<AdjNode>
    requires n <= Cities
  {
    if n == 0 then []
    else (if Edge(i, n - 1) then [AdjNode(n - 1, Weight(i, n - 1))] else []) + AdjUpTo(i, n - 1)
  }

  /** Every node of an adjacency list is an edge of the matrix with its
      weight, and every edge of the matrix among the first `n` columns has
      a node. */
  lemma AdjUpToSpec(i: int, n: nat)
    requires n <= Cities
    ensures forall e :: e in AdjUpTo(i, n) ==> Edge(i, e.dest) && e.weight == Weight(i, e.dest) && e.dest < n
    ensures forall j :: 0 <= j < n && Edge(i, j) ==> AdjNode(j, Weight(i, j)) in AdjUpTo(i, n)
  {
    forall e | e in AdjUpTo(i, n)
      ensures Edge(i, e.dest) && e.weight == Weight(i, e.dest) && e.dest < n
    {
      AdjUpToSound(i, n, e);
    }
    forall j | 0 <= j < n && Edge(i, j)
      ensures AdjNode(j, Weight(i, j)) in AdjUpTo(i, n)
    {
      AdjUpToComplete(i, n, j);
    }
  }

  lemma {:induction false} AdjUpToSound(i: int, n: nat, e: AdjNode)
    requires n <= Cities && e in AdjUpTo(i, n)
    ensures Edge(i, e.dest) && e.weight == Weight(i, e.dest) && e.dest < n
  {
    if e != AdjNode(n - 1, Weight(i, n - 1)) || !Edge(i, n - 1) {
      AdjUpToSound(i, n - 1, e);
    }
  }

  lemma {:induction false} AdjUpToComplete(i: int, n: nat, j: int)
    requires n <= Cities && 0 <= j < n && Edge(i, j)
    ensures AdjNode(j, Weight(i, j)) in AdjUpTo(i, n)
  {
    if j < n - 1 {
      AdjUpToComplete(i, n - 1, j);
    }
  }

  /** `l` lists exactly the edges out of `u`, each with its weight. */
  ghost predicate EdgesOf(u: int, l: seq<AdjNode>) {
    && (forall m :: 0 <= m < |l| ==> Edge(u, l[m].dest) && l[m].weight == Weight(u, l[m].dest))
    && (forall x :: IsCity(x) && Edge(u, x) ==> exists m :: 0 <= m < |l| && l[m] == AdjNode(x, Weight(u, x)))
  }

  /** The list the constructor builds for `u` holds exactly its edges. */
  lemma AdjacencyIndexed(u: int)
    requires IsCity(u)
    ensures EdgesOf(u, AdjUpTo(u, Cities))
  {
    var l := AdjUpTo(u, Cities);
    AdjUpToSpec(u, Cities);
    assert forall m :: 0 <= m < |l| ==> l[m] in l;
  }

  /** The lists the constructor builds for all cities. */
  lemma AllAdjacencyIndexed(lists: seq<seq<AdjNode>>)
    requires |lists| == Cities && forall i :: IsCity(i) ==> lists[i] == AdjUpTo(i, Cities)
    ensures forall i :: IsCity(i) ==> EdgesOf(i, lists[i])
  {
    forall i | IsCity(i)
      ensures EdgesOf(i, lists[i])
    {
      AdjacencyIndexed(i);
    }
  }

  // ----- invariants of the search, over the distance array as a sequence -----

  ghost predicate Bounded(d: seq<int>) {
    |d| == Cities && forall v :: 0 <= v < Cities ==> 0 <= d[v] <= IntMax
  }

  /** Every finite tentative distance is the weight of an actual route. */
  ghost predicate Witnessed(d: seq<int>, wit: seq<seq<int>>, src: int) {
    |d| == Cities && |wit| == Cities &&
    forall v {:trigger wit[v]} :: 0 <= v < Cities && d[v] < IntMax ==> IsPath(wit[v], src, v) && PathWeight(wit[v]) == d[v]
  }

  /** Settled distances are no larger than any route. */
  ghost predicate OptimalOn(d: seq<int>, settled: set<int>, src: int) {
    |d| == Cities &&
    forall u, p :: u in settled && IsCity(u) && IsPath(p, src, u) ==> d[u] <= PathWeight(p)
  }

  /** Every edge out of a settled city into an unsettled one is relaxed. */
  ghost predicate Relaxed(d: seq<int>, settled: set<int>) {
    |d| == Cities &&
    forall y, x :: y in settled && IsCity(x) && x !in settled && Edge(y, x) && d[y] < IntMax ==>
      d[x] <= d[y] + Weight(y, x)
  }

  ghost predicate SettledFirst(d: seq<int>, settled: set<int>) {
    |d| == Cities &&
    forall y, x :: y in settled && IsCity(y) && IsCity(x) && x !in settled ==> d[y] <= d[x]
  }

  /** Index of the first city of `p` that is not settled. */
  ghost function FirstOutside(p: seq<int>, settled: set<int>): (k: nat)
    requires exists i :: 0 <= i < |p| && p[i] !in settled
    ensures k < |p| && p[k] !in settled && forall i :: 0 <= i < k ==> p[i] in settled
  {
    if p[0] !in settled then 0
    else
      assert exists i :: 0 <= i < |p[1..]| && p[1..][i] !in settled by {
        var i :| 0 <= i < |p| && p[i] !in settled;
        assert p[1..][i - 1] == p[i];
      }
      1 + FirstOutside(p[1..], settled)
  }

  /** The heart of Dijkstra's algorithm: an unsettled city of minimal
      tentative distance has its true distance. */
  lemma SettleMinimum(d: seq<int>, settled: set<int>, src: int, u: int)
    requires Bounded(d) && IsCity(src) && d[src] == 0
    requires OptimalOn(d, settled, src) && Relaxed(d, settled)
    requires IsCity(u) && u !in settled
    requires forall x :: IsCity(x) && x !in settled ==> d[u] <= d[x]
    ensures OptimalOn(d, settled + {u}, src)
  {
    forall w, p | w in settled + {u} && IsCity(w) && IsPath(p, src, w)
      ensures d[w] <= PathWeight(p)
    {
      if w == u {
        MinimalIsOptimal(d, settled, src, u, p);
      }
    }
  }

  /** Any route to the minimal unsettled city leaves the settled set
      somewhere, and the first city outside is already no closer. */
  lemma MinimalIsOptimal(d: seq<int>, settled: set<int>, src: int, u: int, p: seq<int>)
    requires Bounded(d) && IsCity(src) && d[src] == 0
    requires OptimalOn(d, settled, src) && Relaxed(d, settled)
    requires IsCity(u) && u !in settled && IsPath(p, src, u)
    requires forall x :: IsCity(x) && x !in settled ==> d[u] <= d[x]
    ensures d[u] <= PathWeight(p)
  {
    assert p[|p| - 1] !in settled;
    var j := FirstOutside(p, settled);
    PathWeightNonnegative(p);
    if j > 0 {
      CrossingEdge(d, settled, src, u, p, j);
    }
  }

  /** The edge on which a route first leaves the settled set is relaxed,
      so the city it enters is no farther than the route. */
  lemma CrossingEdge(d: seq<int>, settled: set<int>, src: int, u: int, p: seq<int>, j: nat)
    requires Bounded(d) && OptimalOn(d, settled, src) && Relaxed(d, settled)
    requires IsPath(p, src, u) && 0 < j < |p| && p[j] !in settled
    requires forall i :: 0 <= i < j ==> p[i] in settled
    ensures d[p[j]] <= PathWeight(p)
  {
    var y, x := p[j - 1], p[j];
    PrefixIsPath(p, src, u, j);
    assert d[y] <= PathWeight(p[..j]);
    PrefixWeight(p, j);
    if d[y] < IntMax {
      assert Edge(y, x);
      assert d[x] <= d[y] + Weight(y, x);
      StepWeight(p, j);
      PrefixWeight(p, j + 1);
    }
  }

  /** One more city of a route adds the weight of the edge into it. */
  lemma StepWeight(p: seq<int>, j: nat)
    requires 0 < j < |p|
    ensures PathWeight(p[..j + 1]) == PathWeight(p[..j]) + Weight(p[j - 1], p[j])
  {
    assert p[..j + 1][..j] == p[..j];
  }

  class Graph {
    const adj: array<seq<AdjNode>>

    ghost predicate Valid()
      reads this, adj
    {
      adj.Length == Cities && forall i :: IsCity(i) ==> EdgesOf(i, adj[i])
    }

    /** Builds one adjacency list per city from the matrix. */
    constructor ()
      ensures Valid() && fresh(adj)
      ensures adj.Length == Cities && forall i :: IsCity(i) ==> adj[i] == AdjUpTo(i, Cities)
    {
      var lists := new seq<AdjNode>[Cities](_ => []);
      var i := 0;
      while i < Cities
        invariant 0 <= i <= Cities
        invariant forall k :: 0 <= k < i ==> lists[k] == AdjUpTo(k, Cities)
      {
        lists[i] := Row(i);
        i := i + 1;
      }
      adj := lists;
      AllAdjacencyIndexed(lists[..]);
    }

    /** The inner loop of the constructor: scans row `i` of the matrix and
        pushes a node at the head of the list for each positive entry off
        the diagonal. */
    static method Row(i: int) returns (l: seq<AdjNode>)
      requires IsCity(i)
      ensures l == AdjUpTo(i, Cities)
    {
      l := [];
      var j := 0;
      while j < Cities
        invariant 0 <= j <= Cities
        invariant l == AdjUpTo(i, j)
      {
        if i != j && DistMatrix[i][j] > 0 {
          l := [AdjNode(j, DistMatrix[i][j])] + l;
        }
        j := j + 1;
      }
    }

    /** Dijkstra from `src`; the length of a shortest route to `dest`, or
        -1 when the search leaves `dest` at INT_MAX. */
    method GetShortestPath(src: int, dest: int) returns (r: int)
      requires Valid() && IsCity(src) && IsCity(dest)
      ensures r == -1 || 0 <= r < IntMax
      ensures r != -1 ==> exists p :: IsPath(p, src, dest) && PathWeight(p) == r
      ensures r != -1 ==> forall p :: IsPath(p, src, dest) ==> r <= PathWeight(p)
      ensures r == -1 ==> forall p :: IsPath(p, src, dest) ==> PathWeight(p) >= IntMax
    {
      var dist, wit, settled := Search(src);
      FinalState(dist[..], wit, settled, src, dest);
      r := if dist[dest] == IntMax then -1 else dist[dest];
    }

    /** The search loop: settles cities until the heap is empty, at which
        point every city is settled. */
    method Search(src: int) returns (dist: array<int>, ghost wit: seq<seq<int>>, ghost settled: set<int>)
      requires Valid() && IsCity(src)
      ensures SearchState(dist[..], wit, settled, src)
      ensures forall w :: IsCity(w) ==> w in settled
    {
      var minHeap;
      dist, minHeap, wit := Start(src);
      settled := {};

      var empty := minHeap.IsEmpty();
      while !empty
        invariant fresh(dist) && fresh(minHeap) && fresh(minHeap.nodes) && dist != minHeap.pos
        invariant Tracks(minHeap, dist, settled)
        invariant empty <==> minHeap.size == 0
        invariant SearchState(dist[..], wit, settled, src)
        decreases minHeap.size
      {
        settled, wit := SettleNext(src, dist, minHeap, settled, wit);
        empty := minHeap.IsEmpty();
      }
    }

    /** One iteration of the search loop: takes the unsettled city of
        least distance from the heap, settles it and relaxes its edges. */
    method SettleNext(src: int, dist: array<int>, minHeap: MinHeap, ghost settled: set<int>,
                      ghost wit: seq<seq<int>>) returns (ghost settled': set<int>, ghost wit': seq<seq<int>>)
      requires Valid() && dist != minHeap.pos && minHeap.size > 0
      requires Tracks(minHeap, dist, settled) && SearchState(dist[..], wit, settled, src)
      modifies minHeap, minHeap.nodes, minHeap.pos, dist
      ensures Tracks(minHeap, dist, settled') && minHeap.size == old(minHeap.size) - 1
      ensures SearchState(dist[..], wit', settled', src)
    {
      ghost var d := dist[..];
      var minNode := minHeap.ExtractMin();
      var u := minNode.v;
      StartPhase(d, wit, settled, src, u);
      settled' := settled + {u};
      RelaxEdges(u, dist, minHeap, settled');
      wit' := PhaseEnds(d, wit, settled', src, u, adj[u]);
    }

    /** The relaxation loop over the adjacency list of the city `u` just
        taken from the heap: afterwards the distances are those of
        relaxing every edge of `u` in list order. */
    method RelaxEdges(u: int, dist: array<int>, minHeap: MinHeap, ghost settled: set<int>)
      requires adj.Length == Cities && IsCity(u) && EdgesOf(u, adj[u]) && dist != minHeap.pos
      requires Tracks(minHeap, dist, settled)
      modifies dist, minHeap.nodes, minHeap.pos
      ensures Tracks(minHeap, dist, settled)
      ensures dist[..] == RelaxAll(old(dist[..]), settled, u, adj[u], |adj[u]|)
    {
      ghost var d0 := dist[..];
      var crawl := adj[u];
      var k := 0;
      while k < |crawl|
        invariant 0 <= k <= |crawl|
        invariant Tracks(minHeap, dist, settled)
        invariant dist[..] == RelaxAll(d0, settled, u, crawl, k)
      {
        Relax(u, crawl[k], dist, minHeap, settled);
        k := k + 1;
      }
    }
  }

  /** Relaxing the edge `e` out of `u`: the distance of its destination
      drops to `d[u] + e.weight` when the destination is unsettled, `u` has
      been reached and the new distance is smaller. */
  ghost function RelaxOne(d: seq<int>, settled: set<int>, u: int, e: AdjNode): seq<int> {
    if |d| == Cities && IsCity(u) && IsCity(e.dest) && e.dest !in settled && d[u] != IntMax
       && e.weight + d[u] < d[e.dest]
    then d[e.dest := d[u] + e.weight]
    else d
  }

  /** Relaxing the first `k` edges of `c` one after the other. */
  ghost function RelaxAll(d: seq<int>, settled: set<int>, u: int, c: seq<AdjNode>, k: nat): seq<int>
    requires k <= |c|
  {
    if k == 0 then d else RelaxOne(RelaxAll(d, settled, u, c, k - 1), settled, u, c[k - 1])
  }

  /** Relaxing edges of `u` keeps every fact of the search and of the
      current phase. */
  lemma {:induction false} RelaxAllKeeps(d: seq<int>, wit: seq<seq<int>>, settled: set<int>, src: int, u: int,
                                         c: seq<AdjNode>, k: nat) returns (wit': seq<seq<int>>)
    requires k <= |c|
    requires SearchInv(d, wit, settled, src) && Phase(d, settled, u)
    requires forall m :: 0 <= m < |c| ==> Edge(u, c[m].dest) && c[m].weight == Weight(u, c[m].dest)
    ensures SearchInv(RelaxAll(d, settled, u, c, k), wit', settled, src)
    ensures Phase(RelaxAll(d, settled, u, c, k), settled, u)
  {
    if k == 0 {
      wit' := wit;
    } else {
      var wit1 := RelaxAllKeeps(d, wit, settled, src, u, c, k - 1);
      wit' := RelaxOneKeeps(RelaxAll(d, settled, u, c, k - 1), wit1, settled, src, u, c[k - 1]);
    }
  }

  /** After relaxing the first `k` edges of the settled city `u`, each of
      them is relaxed: relaxation never changes `d[u]` and only lowers
      distances. */
  lemma {:induction false} RelaxAllRelaxes(d: seq<int>, settled: set<int>, u: int, c: seq<AdjNode>, k: nat)
    requires k <= |c| && |d| == Cities && IsCity(u) && u in settled
    requires forall m :: 0 <= m < |c| ==> Edge(u, c[m].dest) && c[m].weight == Weight(u, c[m].dest)
    ensures |RelaxAll(d, settled, u, c, k)| == Cities
    ensures RelaxAll(d, settled, u, c, k)[u] == d[u]
    ensures forall m :: 0 <= m < k ==> EdgeRelaxed(RelaxAll(d, settled, u, c, k), settled, u, c[m].dest)
  {
    if k > 0 {
      RelaxAllRelaxes(d, settled, u, c, k - 1);
      var d1 := RelaxAll(d, settled, u, c, k - 1);
      var d2 := RelaxAll(d, settled, u, c, k);
      assert forall x :: 0 <= x < Cities ==> d2[x] <= d1[x];
      forall m | 0 <= m < k
        ensures EdgeRelaxed(d2, settled, u, c[m].dest)
      {
        if m < k - 1 {
          assert EdgeRelaxed(d1, settled, u, c[m].dest);
        }
      }
    }
  }

  /** Once every edge of `u` is relaxed, `u` joins the settled cities in
      `Relaxed` and `SettledFirst`. */
  lemma PhaseEnds(d: seq<int>, wit: seq<seq<int>>, settled: set<int>, src: int, u: int, c: seq<AdjNode>)
    returns (wit': seq<seq<int>>)
    requires SearchInv(d, wit, settled, src) && Phase(d, settled, u) && EdgesOf(u, c)
    ensures SearchInv(RelaxAll(d, settled, u, c, |c|), wit', settled, src)
    ensures Relaxed(RelaxAll(d, settled, u, c, |c|), settled)
    ensures SettledFirst(RelaxAll(d, settled, u, c, |c|), settled)
  {
    wit' := RelaxAllKeeps(d, wit, settled, src, u, c, |c|);
    RelaxAllRelaxes(d, settled, u, c, |c|);
    var d' := RelaxAll(d, settled, u, c, |c|);
    forall x | IsCity(x) && x !in settled && Edge(u, x) && d'[u] < IntMax
      ensures d'[x] <= d'[u] + Weight(u, x)
    {
      var m :| 0 <= m < |c| && c[m] == AdjNode(x, Weight(u, x));
      assert EdgeRelaxed(d', settled, u, c[m].dest);
    }
  }

  /** One relaxation keeps every fact of the search and of the current
      phase, satisfies its own edge and keeps earlier edges satisfied. */
  lemma RelaxOneKeeps(d: seq<int>, wit: seq<seq<int>>, settled: set<int>, src: int, u: int, e: AdjNode)
    returns (wit': seq<seq<int>>)
    requires SearchInv(d, wit, settled, src) && Phase(d, settled, u)
    requires Edge(u, e.dest) && e.weight == Weight(u, e.dest)
    ensures SearchInv(RelaxOne(d, settled, u, e), wit', settled, src)
    ensures Phase(RelaxOne(d, settled, u, e), settled, u)
  {
    if e.dest !in settled && d[u] != IntMax && e.weight + d[u] < d[e.dest] {
      RelaxStep(d, wit, settled, src, u, e.dest);
      wit' := wit[e.dest := wit[u] + [e.dest]];
    } else {
      wit' := wit;
    }
  }

  /** Everything the search loop keeps. */
  ghost predicate SearchState(d: seq<int>, wit: seq<seq<int>>, settled: set<int>, src: int) {
    SearchInv(d, wit, settled, src) && Relaxed(d, settled) && SettledFirst(d, settled)
  }

  /** The state before the first iteration: the source at 0 with the
      one-city route as its witness, every other city at INT_MAX. */
  lemma InitialState(d: seq<int>, src: int) returns (wit: seq<seq<int>>)
    requires IsCity(src) && |d| == Cities && d[src] == 0
    requires forall v :: 0 <= v < Cities && v != src ==> d[v] == IntMax
    ensures SearchState(d, wit, {}, src)
  {
    wit := seq(Cities, i => [])[src := [src]];
    assert IsPath([src], src, src);
  }

  /** When every city is settled, the distance of `dest` is the weight of a
      route to it no heavier than any other route, or INT_MAX when every
      route weighs at least that much. */
  lemma FinalState(d: seq<int>, wit: seq<seq<int>>, settled: set<int>, src: int, dest: int)
    requires SearchState(d, wit, settled, src) && IsCity(dest) && dest in settled
    ensures 0 <= d[dest] <= IntMax
    ensures d[dest] < IntMax ==> IsPath(wit[dest], src, dest) && PathWeight(wit[dest]) == d[dest]
    ensures forall p :: IsPath(p, src, dest) ==> d[dest] <= PathWeight(p)
  {
  }

  /** Settling the unsettled city `u` of least distance keeps the settled
      distances optimal and opens the phase of `u`. */
  lemma StartPhase(d: seq<int>, wit: seq<seq<int>>, settled: set<int>, src: int, u: int)
    requires SearchState(d, wit, settled, src)
    requires IsCity(u) && u !in settled
    requires forall x :: IsCity(x) && x !in settled ==> d[u] <= d[x]
    ensures SearchInv(d, wit, settled + {u}, src) && Phase(d, settled + {u}, u)
  {
    SettleMinimum(d, settled, src, u);
    assert (settled + {u}) - {u} == settled;
  }

  /** The facts of the search that hold between iterations: distances in
      range, the source at 0, witnesses for finite distances, settled
      distances optimal. */
  ghost predicate SearchInv(d: seq<int>, wit: seq<seq<int>>, settled: set<int>, src: int) {
    && Bounded(d) && IsCity(src) && d[src] == 0
    && Witnessed(d, wit, src)
    && OptimalOn(d, settled, src)
    && (forall w :: w in settled ==> IsCity(w))
  }

  /** The facts that hold while the edges of `u`, the city settled last,
      are being relaxed. */
  ghost predicate Phase(d: seq<int>, settled: set<int>, u: int) {
    && |d| == Cities && IsCity(u) && u in settled
    && Relaxed(d, settled - {u}) && SettledFirst(d, settled - {u})
    && (forall y :: y in settled && IsCity(y) ==> d[y] <= d[u])
    && (forall x :: IsCity(x) && x !in settled ==> d[u] <= d[x])
  }

  /** The edge from `u` to `x` is relaxed, unless `x` is settled or `u`
      unreached. */
  ghost predicate EdgeRelaxed(d: seq<int>, settled: set<int>, u: int, x: int) {
    |d| == Cities && IsCity(u) && IsCity(x) &&
    (x !in settled && d[u] < IntMax ==> d[x] <= d[u] + Weight(u, x))
  }

  /** Lowering `x` to `d[u] + Weight(u, x)` through the witness of `u`
      keeps every fact of the search and of the current phase. */
  lemma RelaxStep(d: seq<int>, wit: seq<seq<int>>, settled: set<int>, src: int, u: int, x: int)
    requires SearchInv(d, wit, settled, src) && Phase(d, settled, u)
    requires Edge(u, x) && x !in settled && d[u] < IntMax && d[u] + Weight(u, x) < d[x]
    ensures SearchInv(d[x := d[u] + Weight(u, x)], wit[x := wit[u] + [x]], settled, src)
    ensures Phase(d[x := d[u] + Weight(u, x)], settled, u)
  {
    WeightNonnegative(u, x);
    ExtendPath(wit[u], src, u, x);
    var d' := d[x := d[u] + Weight(u, x)];
    assert forall v :: 0 <= v < Cities && v != x ==> d'[v] == d[v];
  }

  /** Both arrays hold the search state: `dist` is the tentative distance
      of every city and the heap holds exactly the unsettled cities, keyed
      by their tentative distance. */
  ghost predicate Tracks(h: MinHeap, dist: array<int>, settled: set<int>)
    reads h, h.nodes, h.pos, dist
  {
    && h.Valid() && h.capacity == Cities && dist.Length == Cities
    && (forall w :: IsCity(w) ==> (h.InHeap(w) <==> w !in settled))
    && (forall w :: h.InHeap(w) ==> 0 <= h.pos[w] < h.size && h.Key(w) == dist[w])
  }

  /** One relaxation, as the body of the source's inner loop: lowers the
      distance of `x` and its heap key to `dist[u] + w` when `x` is still in
      the heap, `u` was reached and the new distance is smaller. */
  method Relax(u: int, e: AdjNode, dist: array<int>, h: MinHeap, ghost settled: set<int>)
    requires Tracks(h, dist, settled) && dist != h.pos
    requires IsCity(u) && IsCity(e.dest)
    modifies dist, h.nodes, h.pos
    ensures Tracks(h, dist, settled)
    ensures dist[..] == RelaxOne(old(dist[..]), settled, u, e)
  {
    var inHeap := h.IsInMinHeap(e.dest);
    assert inHeap <==> e.dest !in settled;
    if inHeap && dist[u] != IntMax && e.weight + dist[u] < dist[e.dest] {
      Lower(e.dest, dist[u] + e.weight, dist, h, settled);
    }
  }

  /** The update of a successful relaxation: the tentative distance of `x`
      and its heap key both become `nd`. */
  method Lower(x: int, nd: int, dist: array<int>, h: MinHeap, ghost settled: set<int>)
    requires Tracks(h, dist, settled) && dist != h.pos
    requires IsCity(x) && h.InHeap(x) && nd < dist[x]
    modifies dist, h.nodes, h.pos
    ensures Tracks(h, dist, settled)
    ensures dist[..] == old(dist[..])[x := nd]
  {
    dist[x] := nd;
    h.DecreaseKey(x, nd);
  }

  /** The set-up of the search: the distance array and the heap with every
      city at INT_MAX, then the source lowered to 0. */
  method Start(src: int) returns (dist: array<int>, h: MinHeap, ghost wit: seq<seq<int>>)
    requires IsCity(src)
    ensures fresh(dist) && fresh(h) && fresh(h.nodes) && fresh(h.pos) && dist != h.pos
    ensures Tracks(h, dist, {}) && SearchState(dist[..], wit, {}, src)
  {
    dist := new int[Cities];
    h := new MinHeap(Cities);
    Seed(dist, h);
    h.DecreaseKey(src, 0);
    dist[src] := 0;
    wit := InitialState(dist[..], src);
  }

  /** The first loop of the search: every city starts at INT_MAX and is
      inserted into the heap in city order. */
  method Seed(dist: array<int>, h: MinHeap)
    requires dist.Length == Cities && dist != h.pos
    requires h.Valid() && h.capacity == Cities && h.size == 0
    requires forall w :: 0 <= w < Cities ==> h.pos[w] == Cities
    modifies dist, h, h.nodes, h.pos
    ensures Tracks(h, dist, {})
    ensures forall v :: 0 <= v < Cities ==> dist[v] == IntMax
  {
    var v := 0;
    while v < Cities
      invariant 0 <= v <= Cities && h.Valid() && h.capacity == Cities
      invariant h.size == v
      invariant forall i :: 0 <= i < v ==> dist[i] == IntMax && h.nodes[i].dist == IntMax
      invariant forall w :: 0 <= w < Cities ==> h.pos[w] == if w < v then w else Cities
    {
      dist[v] := IntMax;
      h.Insert(v, dist[v]);
      v := v + 1;
    }
    SeededTracks(dist, h);
  }

  /** A heap holding every city at its own index with key INT_MAX tracks
      the all-INT_MAX distance array with nothing settled. */
  lemma SeededTracks(dist: array<int>, h: MinHeap)
    requires dist.Length == Cities && h.Valid() && h.capacity == Cities && h.size == Cities
    requires forall i :: 0 <= i < Cities ==> dist[i] == IntMax && h.nodes[i].dist == IntMax
    requires forall w :: 0 <= w < Cities ==> h.pos[w] == w
    ensures Tracks(h, dist, {})
  {
  }

  /** On the deployed matrix every city reaches every other, and a shortest
      route is never longer than the direct entry. */
  lemma ShortestNeverExceedsDirect(s: int, d: int, r: int)
    requires IsCity(s) && IsCity(d) && s != d
    requires r == -1 || 0 <= r < IntMax
    requires r != -1 ==> forall p :: IsPath(p, s, d) ==> r <= PathWeight(p)
    requires r == -1 ==> forall p :: IsPath(p, s, d) ==> PathWeight(p) >= IntMax
    ensures r != -1 && r <= Weight(s, d)
  {
    MatrixFacts();
    assert IsPath([s, d], s, d);
    assert [s, d][..1] == [s];
    assert PathWeight([s, d]) == Weight(s, d);
  }
}
