/** The per-route dispatch heuristic: selecting the Booked parcels of one
    (source, destination) pair, ordering them by priority with a stable
    bubble sort, admitting them into a batch by the rules of the weekday,
    and choosing a vehicle from the six-tier ladder. Parcels are referred
    to by their index in the engine's parcel collection. */
module Dispatch {
  import opened Parcels
  import opened Lists

  /** The priority of the parcel a reference points to. The engine only
      hands out references into its collection; 0 stands in otherwise. */
  function Prio(ps: seq<Parcel>, r: nat): int {
    if r < |ps| then ps[r].priority else 0
  }

  /** The weight of the parcel a reference points to (0 outside). */
  function WeightOf(ps: seq<Parcel>, r: nat): int {
    if r < |ps| then ps[r].weight else 0
  }

  /** A parcel waiting to travel from city `s` to city `d`. */
  predicate Waiting(p: Parcel, s: int, d: int) {
    p.srcCity == s && p.destCity == d && p.status == Booked
  }

  // ---------------------------------------------------------------------
  // Candidates of a route
  // ---------------------------------------------------------------------

  /** References of the parcels waiting on route (s, d), in booking order:
      exactly the waiting parcels, each once, by increasing index. */
  function Candidates(ps: seq<Parcel>, s: int, d: int): seq<nat> {
    if ps == [] then []
    else
      var n := |ps| - 1;
      Candidates(ps[..n], s, d) + (if Waiting(ps[n], s, d) then [n] else [])
  }

  /** The candidates are exactly the waiting parcels, each once, by
      increasing index. */
  lemma {:induction false} CandidatesSpec(ps: seq<Parcel>, s: int, d: int)
    ensures var c := Candidates(ps, s, d);
      && (forall i :: 0 <= i < |c| ==> c[i] < |ps| && Waiting(ps[c[i]], s, d))
      && (forall i, j :: 0 <= i < j < |c| ==> c[i] < c[j])
      && (forall r :: 0 <= r < |ps| && Waiting(ps[r], s, d) ==> r in c)
  {
    if ps != [] {
      var n := |ps| - 1;
      var q := ps[..n];
      CandidatesSpec(q, s, d);
      var prev := Candidates(q, s, d);
      var c := Candidates(ps, s, d);
      assert |q| == n && forall r :: 0 <= r < n ==> q[r] == ps[r];
      assert forall i :: 0 <= i < |Candidates(q, s, d)| ==> Candidates(q, s, d)[i] < n;
      assert c == prev + (if Waiting(ps[n], s, d) then [n] else []);
    }
  }

  /** The candidates among the first `i` parcels are a prefix of all the
      candidates. */
  lemma {:induction false} CandidatesGrow(ps: seq<Parcel>, s: int, d: int, i: nat)
    requires i <= |ps|
    ensures Candidates(ps[..i], s, d) <= Candidates(ps, s, d)
    decreases |ps|
  {
    if i < |ps| {
      var n := |ps| - 1;
      assert ps[..n][..i] == ps[..i];
      CandidatesGrow(ps[..n], s, d, i);
    } else {
      assert ps[..i] == ps;
    }
  }

  /** The two scans of the dispatch step: count the waiting parcels of the
      route, then copy their references into an array of that size. */
  method CollectCandidates(ps: seq<Parcel>, s: int, d: int) returns (rp: array<nat>)
    ensures fresh(rp) && rp[..] == Candidates(ps, s, d)
  {
    var count := CountWaiting(ps, s, d);
    rp := new nat[count];
    var idx := 0;
    var i := 0;
    while i < |ps|
      invariant 0 <= i <= |ps|
      invariant rp.Length == count == |Candidates(ps, s, d)|
      invariant idx == |Candidates(ps[..i], s, d)| <= count
      invariant rp[..idx] == Candidates(ps[..i], s, d)
    {
      CandidatesStep(ps, s, d, i);
      CandidatesGrow(ps, s, d, i + 1);
      if ps[i].srcCity == s && ps[i].destCity == d && ps[i].status == Booked {
        rp[idx] := i;
        assert rp[..idx + 1] == rp[..idx] + [i];
        idx := idx + 1;
      } else {
        assert Candidates(ps[..i + 1], s, d) == Candidates(ps[..i], s, d);
      }
      i := i + 1;
    }
    assert ps[..i] == ps;
  }

  /** One more parcel scanned adds its reference when it is waiting. */
  lemma CandidatesStep(ps: seq<Parcel>, s: int, d: int, i: nat)
    requires i < |ps|
    ensures Candidates(ps[..i + 1], s, d) == Candidates(ps[..i], s, d) + (if Waiting(ps[i], s, d) then [i] else [])
  {
    assert ps[..i + 1][..i] == ps[..i];
  }

  /** The counting scan: the number of parcels waiting on route (s, d). */
  method CountWaiting(ps: seq<Parcel>, s: int, d: int) returns (count: nat)
    ensures count == |Candidates(ps, s, d)|
  {
    count := 0;
    var i := 0;
    while i < |ps|
      invariant 0 <= i <= |ps|
      invariant count == |Candidates(ps[..i], s, d)|
    {
      CandidatesStep(ps, s, d, i);
      if ps[i].srcCity == s && ps[i].destCity == d && ps[i].status == Booked {
        count := count + 1;
      }
      i := i + 1;
    }
    assert ps[..i] == ps;
  }

  // ---------------------------------------------------------------------
  // Stable ordering by priority
  // ---------------------------------------------------------------------

  /** Non-decreasing priority along `a`. */
  ghost predicate SortedBy(ps: seq<Parcel>, a: seq<nat>) {
    forall i, j :: 0 <= i < j < |a| ==> Prio(ps, a[i]) <= Prio(ps, a[j])
  }

  /** The references of `a` whose priority is `k`, in their order in `a`. */
  function WithPriority(ps: seq<Parcel>, a: seq<nat>, k: int): seq<nat> {
    if a == [] then []
    else
      var n := |a| - 1;
      WithPriority(ps, a[..n], k) + (if Prio(ps, a[n]) == k then [a[n]] else [])
  }

  /** `b` is `a` reordered by priority with the order among parcels of equal
      priority kept: sorted, and the same subsequence at every priority. */
  ghost predicate StableSortOf(ps: seq<Parcel>, b: seq<nat>, a: seq<nat>) {
    SortedBy(ps, b) && SameGroups(ps, b, a)
  }

  /** `a` and `b` hold the same subsequence at every priority. */
  ghost predicate SameGroups(ps: seq<Parcel>, a: seq<nat>, b: seq<nat>) {
    forall k :: WithPriority(ps, a, k) == WithPriority(ps, b, k)
  }

  lemma {:induction false} WithPriorityConcat(ps: seq<Parcel>, a: seq<nat>, b: seq<nat>, k: int)
    ensures WithPriority(ps, a + b, k) == WithPriority(ps, a, k) + WithPriority(ps, b, k)
    decreases |b|
  {
    if b == [] {
      assert a + b == a;
    } else {
      var n := |b| - 1;
      assert (a + b)[..|a + b| - 1] == a + b[..n];
      WithPriorityConcat(ps, a, b[..n], k);
    }
  }

  /** Swapping two neighbours of different priority keeps every priority's
      subsequence. */
  lemma SwapKeepsGroups(ps: seq<Parcel>, a: seq<nat>, j: nat)
    requires j + 1 < |a| && Prio(ps, a[j]) != Prio(ps, a[j + 1])
    ensures SameGroups(ps, a[j := a[j + 1]][j + 1 := a[j]], a)
  {
    var b := a[j := a[j + 1]][j + 1 := a[j]];
    var front, x, y, back := a[..j], a[j], a[j + 1], a[j + 2..];
    assert a == front + [x] + [y] + back;
    assert b == front + [y] + [x] + back;
    forall k
      ensures WithPriority(ps, b, k) == WithPriority(ps, a, k)
    {
      PairGroups(ps, front, x, y, back, k);
    }
  }

  lemma PairGroups(ps: seq<Parcel>, front: seq<nat>, x: nat, y: nat, back: seq<nat>, k: int)
    requires Prio(ps, x) != Prio(ps, y)
    ensures WithPriority(ps, front + [y] + [x] + back, k) == WithPriority(ps, front + [x] + [y] + back, k)
  {
    var fx, fy := front + [x], front + [y];
    var fxy, fyx := fx + [y], fy + [x];
    assert fx[..|fx| - 1] == front && fy[..|fy| - 1] == front;
    assert fxy[..|fxy| - 1] == fx && fyx[..|fyx| - 1] == fy;
    WithPriorityConcat(ps, fxy, back, k);
    WithPriorityConcat(ps, fyx, back, k);
  }

  /** Reference definition of the stable order: insertion of each reference,
      in turn, behind every earlier one of no greater priority. */
  function StableSort(ps: seq<Parcel>, a: seq<nat>): seq<nat> {
    if a == [] then [] else InsertByPriority(ps, a[|a| - 1], StableSort(ps, a[..|a| - 1]))
  }

  /** Places `x` just before the first trailing run of higher priority. */
  function InsertByPriority(ps: seq<Parcel>, x: nat, s: seq<nat>): (r: seq<nat>)
    ensures |r| == |s| + 1
    ensures forall y :: y in r ==> y == x || y in s
  {
    if s == [] || Prio(ps, s[|s| - 1]) <= Prio(ps, x) then s + [x]
    else InsertByPriority(ps, x, s[..|s| - 1]) + [s[|s| - 1]]
  }

  /** Inserting into a sorted sequence keeps it sorted. */
  lemma {:induction false} InsertKeepsSorted(ps: seq<Parcel>, x: nat, s: seq<nat>)
    requires SortedBy(ps, s)
    ensures SortedBy(ps, InsertByPriority(ps, x, s))
  {
    if s == [] || Prio(ps, s[|s| - 1]) <= Prio(ps, x) {
    } else {
      var n := |s| - 1;
      var last := s[n];
      var t := InsertByPriority(ps, x, s[..n]);
      InsertKeepsSorted(ps, x, s[..n]);
      var r := t + [last];
      forall y | y in t
        ensures Prio(ps, y) <= Prio(ps, last)
      {
        if y != x {
          var i :| 0 <= i < n && s[..n][i] == y;
        }
      }
      forall i, j | 0 <= i < j < |r|
        ensures Prio(ps, r[i]) <= Prio(ps, r[j])
      {
        if j == |r| - 1 {
          assert r[i] in t;
        }
      }
    }
  }

  /** Inserting `x` gives every priority the subsequence that appending `x`
      would. */
  lemma {:induction false} InsertKeepsGroups(ps: seq<Parcel>, x: nat, s: seq<nat>, k: int)
    ensures WithPriority(ps, InsertByPriority(ps, x, s), k) == WithPriority(ps, s + [x], k)
  {
    var sx := s + [x];
    assert sx[..|sx| - 1] == s;
    if s == [] || Prio(ps, s[|s| - 1]) <= Prio(ps, x) {
    } else {
      var n := |s| - 1;
      var t := InsertByPriority(ps, x, s[..n]);
      InsertKeepsGroups(ps, x, s[..n], k);
      var r := t + [s[n]];
      assert r[..|r| - 1] == t;
      var u := s[..n] + [x];
      assert u[..|u| - 1] == s[..n];
    }
  }

  /** The reference order is sorted and keeps every priority's subsequence. */
  lemma {:induction false} StableSortIsStable(ps: seq<Parcel>, a: seq<nat>)
    ensures StableSortOf(ps, StableSort(ps, a), a)
  {
    if a != [] {
      var n := |a| - 1;
      StableSortIsStable(ps, a[..n]);
      InsertKeepsSorted(ps, a[n], StableSort(ps, a[..n]));
      forall k
        ensures WithPriority(ps, StableSort(ps, a), k) == WithPriority(ps, a, k)
      {
        InsertKeepsGroups(ps, a[n], StableSort(ps, a[..n]), k);
        var t := StableSort(ps, a[..n]) + [a[n]];
        assert t[..|t| - 1] == StableSort(ps, a[..n]);
      }
    }
  }

  /** In a sorted sequence no reference has a priority above the last one's. */
  lemma {:induction false} NoGroupAbove(ps: seq<Parcel>, a: seq<nat>, k: int)
    ensures SortedBy(ps, a) && a != [] && Prio(ps, a[|a| - 1]) < k ==> WithPriority(ps, a, k) == []
  {
    if SortedBy(ps, a) && a != [] && Prio(ps, a[|a| - 1]) < k {
      var n := |a| - 1;
      if n > 0 {
        assert Prio(ps, a[n - 1]) <= Prio(ps, a[n]);
        NoGroupAbove(ps, a[..n], k);
      }
    }
  }

  /** The last reference's priority has a non-empty subsequence. */
  lemma GroupOfLast(ps: seq<Parcel>, a: seq<nat>)
    ensures a != [] ==> WithPriority(ps, a, Prio(ps, a[|a| - 1])) != []
  {
  }

  /** There is only one stable order: two sorted sequences with the same
      subsequence at every priority are equal. */
  lemma {:induction false} StableOrderIsUnique(ps: seq<Parcel>, a: seq<nat>, b: seq<nat>)
    requires SortedBy(ps, a) && SortedBy(ps, b)
    requires SameGroups(ps, a, b)
    ensures a == b
    decreases |a| + |b|
  {
    if a != [] && b != [] {
      var m, n := |a| - 1, |b| - 1;
      SameLast(ps, a, b);
      SameGroupsBefore(ps, a, b, m, n);
      StableOrderIsUnique(ps, a[..m], b[..n]);
      assert a == a[..m] + [a[m]];
      assert b == b[..n] + [b[n]];
    } else if a != [] {
      GroupOfLast(ps, a);
      assert false;
    } else if b != [] {
      GroupOfLast(ps, b);
      assert false;
    }
  }

  /** Two sorted sequences with the same subsequence at every priority end
      with the same reference. */
  lemma SameLast(ps: seq<Parcel>, a: seq<nat>, b: seq<nat>)
    requires SortedBy(ps, a) && SortedBy(ps, b) && a != [] && b != []
    requires SameGroups(ps, a, b)
    ensures a[|a| - 1] == b[|b| - 1]
  {
    var m, n := |a| - 1, |b| - 1;
    var pa, pb := Prio(ps, a[m]), Prio(ps, b[n]);
    GroupOfLast(ps, a);
    GroupOfLast(ps, b);
    NoGroupAbove(ps, a, pb);
    NoGroupAbove(ps, b, pa);
    assert WithPriority(ps, a, pa) == WithPriority(ps, b, pa);
    assert WithPriority(ps, a, pb) == WithPriority(ps, b, pb);
    assert pa == pb;
    var wa, wb := WithPriority(ps, a, pa), WithPriority(ps, b, pa);
    assert a[m] == wa[|wa| - 1] == wb[|wb| - 1] == b[n];
  }

  /** Dropping the same last reference from both keeps every subsequence
      equal. */
  lemma SameGroupsBefore(ps: seq<Parcel>, a: seq<nat>, b: seq<nat>, m: nat, n: nat)
    requires m + 1 == |a| && n + 1 == |b| && a[m] == b[n]
    requires SameGroups(ps, a, b)
    ensures SameGroups(ps, a[..m], b[..n])
  {
    forall k
      ensures WithPriority(ps, a[..m], k) == WithPriority(ps, b[..n], k)
    {
      assert WithPriority(ps, a, k) == WithPriority(ps, b, k);
      if k == Prio(ps, a[m]) {
        var wa, wb := WithPriority(ps, a, k), WithPriority(ps, b, k);
        assert wa[..|wa| - 1] == WithPriority(ps, a[..m], k);
        assert wb[..|wb| - 1] == WithPriority(ps, b[..n], k);
      } else {
        assert WithPriority(ps, a, k) == WithPriority(ps, a[..m], k);
        assert WithPriority(ps, b, k) == WithPriority(ps, b[..n], k);
      }
    }
  }

  lemma SameGroupsTrans(ps: seq<Parcel>, a: seq<nat>, b: seq<nat>, c: seq<nat>)
    requires SameGroups(ps, a, b) && SameGroups(ps, b, c)
    ensures SameGroups(ps, a, c)
  {
  }

  /** Every one of the first `n` references has priority at most `v`. */
  ghost predicate AtMost(ps: seq<Parcel>, a: seq<nat>, n: int, v: int) {
    forall x :: 0 <= x < n && x < |a| ==> Prio(ps, a[x]) <= v
  }

  /** The references from index `n` on are in priority order. */
  ghost predicate SortedFrom(ps: seq<Parcel>, a: seq<nat>, n: int) {
    forall x, y :: 0 <= n <= x < y < |a| ==> Prio(ps, a[x]) <= Prio(ps, a[y])
  }

  lemma SwapKeepsBounds(ps: seq<Parcel>, a: seq<nat>, j: nat, n: int)
    requires j + 1 < n <= |a|
    ensures forall v :: AtMost(ps, a, n, v) ==> AtMost(ps, a[j := a[j + 1]][j + 1 := a[j]], n, v)
  {
  }

  /** The exchange sort of the dispatch step: passes over a shrinking
      prefix that swap neighbours whose priorities are strictly out of
      order. It leaves the references in the stable order by priority. */
  method BubbleSort(ps: seq<Parcel>, a: array<nat>)
    modifies a
    ensures StableSortOf(ps, a[..], old(a[..]))
    ensures a[..] == StableSort(ps, old(a[..]))
  {
    ghost var a0 := a[..];
    SortPasses(ps, a);
    StableSortIsStable(ps, a0);
    StableOrderIsUnique(ps, a[..], StableSort(ps, a0));
  }

  /** The outer loop of the exchange sort: after pass `i` the last `i`
      references are in place. */
  method SortPasses(ps: seq<Parcel>, a: array<nat>)
    modifies a
    ensures StableSortOf(ps, a[..], old(a[..]))
  {
    ghost var a0 := a[..];
    // pass `i` of the source covers the first `n == count - i` references
    var n := a.Length;
    while n > 1
      invariant 0 <= n <= a.Length
      invariant SortedFrom(ps, a[..], n)
      invariant n < a.Length ==> AtMost(ps, a[..], n, Prio(ps, a[n]))
      invariant SameGroups(ps, a[..], a0)
    {
      ghost var before := a[..];
      BubblePass(ps, a, n);
      PassExtendsSorted(ps, before, a[..], n);
      SameGroupsTrans(ps, a[..], before, a0);
      n := n - 1;
    }
    SortedFromStart(ps, a[..]);
  }

  lemma PassExtendsSorted(ps: seq<Parcel>, b: seq<nat>, a: seq<nat>, n: int)
    requires 2 <= n <= |a| == |b|
    requires SortedFrom(ps, b, n) && (n < |b| ==> AtMost(ps, b, n, Prio(ps, b[n])))
    requires forall x :: n <= x < |a| ==> a[x] == b[x]
    requires AtMost(ps, a, n, Prio(ps, a[n - 1]))
    requires forall v :: AtMost(ps, b, n, v) ==> AtMost(ps, a, n, v)
    ensures SortedFrom(ps, a, n - 1) && AtMost(ps, a, n - 1, Prio(ps, a[n - 1]))
  {
    if n < |b| {
      assert AtMost(ps, a, n, Prio(ps, a[n]));
    }
  }

  /** A sorted suffix from index 1 whose bound covers the first reference
      is a sorted whole. */
  lemma SortedFromStart(ps: seq<Parcel>, a: seq<nat>)
    requires |a| <= 1 || (SortedFrom(ps, a, 1) && AtMost(ps, a, 1, Prio(ps, a[1])))
    ensures SortedBy(ps, a)
  {
  }

  /** One pass of the exchange sort over the first `n` references: it
      carries a reference of greatest priority to index `n - 1`. */
  method BubblePass(ps: seq<Parcel>, a: array<nat>, n: int)
    requires 2 <= n <= a.Length
    modifies a
    ensures forall x :: n <= x < a.Length ==> a[x] == old(a[x])
    ensures AtMost(ps, a[..], n, Prio(ps, a[n - 1]))
    ensures forall v :: AtMost(ps, old(a[..]), n, v) ==> AtMost(ps, a[..], n, v)
    ensures SameGroups(ps, a[..], old(a[..]))
  {
    var j := 0;
    while j < n - 1
      invariant 0 <= j <= n - 1
      invariant forall x :: n <= x < a.Length ==> a[x] == old(a[x])
      invariant AtMost(ps, a[..], j + 1, Prio(ps, a[j]))
      invariant forall v :: AtMost(ps, old(a[..]), n, v) ==> AtMost(ps, a[..], n, v)
      invariant SameGroups(ps, a[..], old(a[..]))
    {
      if Prio(ps, a[j]) > Prio(ps, a[j + 1]) {
        SwapKeepsGroups(ps, a[..], j);
        SwapKeepsBounds(ps, a[..], j, n);
        a[j], a[j + 1] := a[j + 1], a[j];
      }
      j := j + 1;
    }
  }

  // ---------------------------------------------------------------------
  // Batch admission
  // ---------------------------------------------------------------------

  /** Parcels the weekday admits regardless of the running load: overnight
      ones on days 1 and 3, overnight and two-day ones on days 2 and 4. */
  predicate Urgent(day: int, p: int) {
    ((day == 1 || day == 3) && p == 1) || ((day == 2 || day == 4) && p <= 2)
  }

  /** The soft load cap of a weekday. */
  function Cap(day: int): int {
    if day == 1 || day == 3 then 300 else 600
  }

  /** Whether the batch, already weighing `load`, takes a parcel of
      priority `p` and weight `w` on `day`: everything on day 5; urgent
      parcels on days 1 to 4, and others while the load stays within the
      day's cap; nothing on any other day. */
  predicate Admits(day: int, p: int, w: int, load: int) {
    day == 5 || (1 <= day <= 4 && (Urgent(day, p) || load + w <= Cap(day)))
  }

  datatype Batch = Batch(refs: seq<nat>, load: int)

  /** Total weight of the parcels behind `refs`. */
  function Load(ps: seq<Parcel>, refs: seq<nat>): int {
    if refs == [] then 0 else Load(ps, refs[..|refs| - 1]) + WeightOf(ps, refs[|refs| - 1])
  }

  /** `b` is `c` with some elements dropped and the rest in order. */
  ghost predicate Subsequence<T>(b: seq<T>, c: seq<T>) {
    if b == [] then true
    else if c == [] then false
    else if b[|b| - 1] == c[|c| - 1] then Subsequence(b[..|b| - 1], c[..|c| - 1])
    else Subsequence(b, c[..|c| - 1])
  }

  /** The batch built by one greedy pass over the ordered candidates `c`. */
  function Admit(ps: seq<Parcel>, c: seq<nat>, day: int): Batch {
    if c == [] then Batch([], 0)
    else
      var n := |c| - 1;
      var prev := Admit(ps, c[..n], day);
      var r := c[n];
      if Admits(day, Prio(ps, r), WeightOf(ps, r), prev.load)
      then Batch(prev.refs + [r], prev.load + WeightOf(ps, r))
      else prev
  }

  /** The running load of a batch is the total weight of its parcels. */
  lemma {:induction false} AdmitLoad(ps: seq<Parcel>, c: seq<nat>, day: int)
    ensures Admit(ps, c, day).load == Load(ps, Admit(ps, c, day).refs)
  {
    if c != [] {
      var n := |c| - 1;
      AdmitLoad(ps, c[..n], day);
      var prev := Admit(ps, c[..n], day);
      var refs := prev.refs + [c[n]];
      assert refs[..|refs| - 1] == prev.refs;
    }
  }

  lemma {:induction false} SubsequenceDropLast<T>(b: seq<T>, c: seq<T>)
    requires b != [] && Subsequence(b, c)
    ensures Subsequence(b[..|b| - 1], c)
    decreases |c|
  {
    var b', m := b[..|b| - 1], |c| - 1;
    if b' != [] {
      if b[|b| - 1] == c[m] {
        if b'[|b'| - 1] == c[m] {
          SubsequenceDropLast(b', c[..m]);
        }
      } else {
        SubsequenceDropLast(b, c[..m]);
        if b'[|b'| - 1] == c[m] {
          SubsequenceDropLast(b', c[..m]);
        }
      }
    }
  }

  lemma SubsequenceExtend<T>(b: seq<T>, c: seq<T>, x: T)
    requires Subsequence(b, c)
    ensures Subsequence(b, c + [x])
  {
    var cx := c + [x];
    assert cx[..|cx| - 1] == c;
    if b != [] && b[|b| - 1] == x {
      SubsequenceDropLast(b, c);
    }
  }

  /** A batch keeps the candidates' order and takes each at most as often
      as it occurs. */
  lemma {:induction false} BatchIsSubsequence(ps: seq<Parcel>, c: seq<nat>, day: int)
    ensures Subsequence(Admit(ps, c, day).refs, c)
  {
    if c != [] {
      var n := |c| - 1;
      BatchIsSubsequence(ps, c[..n], day);
      var prev := Admit(ps, c[..n], day).refs;
      if Admit(ps, c, day).refs == prev {
        SubsequenceExtend(prev, c[..n], c[n]);
        assert c[..n] + [c[n]] == c;
      } else {
        var b := prev + [c[n]];
        assert b[..|b| - 1] == prev;
      }
    }
  }

  /** The admission rule of the dispatch step, as its chain of tests:
      whether a parcel of priority `p` and weight `w` joins a batch that
      already weighs `load` on `day`. */
  method Select(day: int, p: int, w: int, load: int) returns (select: bool)
    ensures select == Admits(day, p, w, load)
  {
    select := false;
    if day == 5 {
      select := true;
    } else if day == 1 || day == 3 {
      if p == 1 {
        select := true;
      } else if load + w <= 300 {
        select := true;
      }
    } else if day == 2 || day == 4 {
      if p <= 2 {
        select := true;
      } else if load + w <= 600 {
        select := true;
      }
    }
  }

  /** The admission loop of the dispatch step: one pass over the ordered
      candidates that appends each admitted reference to the batch list and
      adds its weight to the running load. */
  method BuildBatch(ps: seq<Parcel>, rp: array<nat>, day: int) returns (batch: Batch)
    ensures batch == Admit(ps, rp[..], day)
  {
    var list := new LinkedList<nat>();
    var currentBatchWeight := 0;
    var i := 0;
    while i < rp.Length
      invariant 0 <= i <= rp.Length
      invariant list.Valid()
      invariant Batch(list.items, currentBatchWeight) == Admit(ps, rp[..i], day)
      modifies list
    {
      AdmitStep(ps, rp[..], day, i);
      var r := rp[i];
      var select := Select(day, Prio(ps, r), WeightOf(ps, r), currentBatchWeight);
      if select {
        list.Append(r);
        currentBatchWeight := currentBatchWeight + WeightOf(ps, r);
      }
      i := i + 1;
    }
    assert rp[..i] == rp[..];
    batch := Batch(list.items, currentBatchWeight);
  }

  /** One more candidate considered: appended with its weight when the
      day admits it, otherwise the batch stays as it was. */
  lemma AdmitStep(ps: seq<Parcel>, c: seq<nat>, day: int, i: nat)
    requires i < |c|
    ensures var b := Admit(ps, c[..i], day);
      Admit(ps, c[..i + 1], day) ==
        if Admits(day, Prio(ps, c[i]), WeightOf(ps, c[i]), b.load)
        then Batch(b.refs + [c[i]], b.load + WeightOf(ps, c[i]))
        else b
  {
    assert c[..i + 1][..i] == c[..i];
  }

  /** The batch the dispatch step forms for route (s, d) on `day`. */
  function PlannedBatch(ps: seq<Parcel>, s: int, d: int, day: int): Batch {
    Admit(ps, StableSort(ps, Candidates(ps, s, d)), day)
  }

  /** The first half of the dispatch step for one route: gather the
      candidates, order them, admit them. */
  method PlanBatch(ps: seq<Parcel>, s: int, d: int, day: int) returns (batch: Batch)
    ensures batch == PlannedBatch(ps, s, d, day)
  {
    var rp := CollectCandidates(ps, s, d);
    if rp.Length == 0 {
      return Batch([], 0);
    }
    BubbleSort(ps, rp);
    batch := BuildBatch(ps, rp, day);
  }

  lemma {:induction false} InsertMembers(ps: seq<Parcel>, x: nat, s: seq<nat>)
    ensures forall y :: y in InsertByPriority(ps, x, s) <==> y == x || y in s
  {
    if !(s == [] || Prio(ps, s[|s| - 1]) <= Prio(ps, x)) {
      var n := |s| - 1;
      InsertMembers(ps, x, s[..n]);
      assert s == s[..n] + [s[n]];
    }
  }

  /** The stable order holds the same references. */
  lemma {:induction false} StableSortMembers(ps: seq<Parcel>, a: seq<nat>)
    ensures forall y :: y in StableSort(ps, a) <==> y in a
  {
    if a != [] {
      var n := |a| - 1;
      StableSortMembers(ps, a[..n]);
      InsertMembers(ps, a[n], StableSort(ps, a[..n]));
      assert a == a[..n] + [a[n]];
    }
  }

  /** Every parcel of a planned batch is waiting on the route. */
  lemma PlannedAreWaiting(ps: seq<Parcel>, s: int, d: int, day: int)
    ensures forall r :: r in PlannedBatch(ps, s, d, day).refs ==> r < |ps| && Waiting(ps[r], s, d)
  {
    var c := Candidates(ps, s, d);
    CandidatesSpec(ps, s, d);
    BatchIsSubsequence(ps, StableSort(ps, c), day);
    SubsequenceMembers(PlannedBatch(ps, s, d, day).refs, StableSort(ps, c));
    StableSortMembers(ps, c);
  }

  lemma {:induction false} SubsequenceMembers<T>(b: seq<T>, c: seq<T>)
    requires Subsequence(b, c)
    ensures forall r :: r in b ==> r in c
    decreases |c|
  {
    if b != [] {
      var m := |c| - 1;
      if b[|b| - 1] == c[m] {
        SubsequenceMembers(b[..|b| - 1], c[..m]);
        assert b == b[..|b| - 1] + [c[m]];
      } else {
        SubsequenceMembers(b, c[..m]);
      }
    }
  }

  /** Each waiting parcel is a candidate exactly once; no other reference
      is one. */
  lemma {:induction false} CandidatesCount(ps: seq<Parcel>, s: int, d: int)
    ensures forall r: nat :: multiset(Candidates(ps, s, d))[r] == if r < |ps| && Waiting(ps[r], s, d) then 1 else 0
  {
    if ps != [] {
      var n := |ps| - 1;
      CandidatesCount(ps[..n], s, d);
      assert forall r :: 0 <= r < n ==> ps[..n][r] == ps[r];
    }
  }

  /** Inserting adds `x` and keeps every other reference. */
  lemma {:induction false} InsertIsPermutation(ps: seq<Parcel>, x: nat, s: seq<nat>)
    ensures multiset(InsertByPriority(ps, x, s)) == multiset(s) + multiset{x}
  {
    if !(s == [] || Prio(ps, s[|s| - 1]) <= Prio(ps, x)) {
      var n := |s| - 1;
      InsertIsPermutation(ps, x, s[..n]);
      assert s == s[..n] + [s[n]];
    }
  }

  /** The stable order is a permutation of the candidates. */
  lemma {:induction false} StableSortIsPermutation(ps: seq<Parcel>, a: seq<nat>)
    ensures multiset(StableSort(ps, a)) == multiset(a)
  {
    if a != [] {
      var n := |a| - 1;
      StableSortIsPermutation(ps, a[..n]);
      InsertIsPermutation(ps, a[n], StableSort(ps, a[..n]));
      assert a == a[..n] + [a[n]];
    }
  }

  /** A subsequence holds each element at most as often as the sequence. */
  lemma {:induction false} SubsequenceMultiset<T>(b: seq<T>, c: seq<T>)
    requires Subsequence(b, c)
    ensures multiset(b) <= multiset(c)
    decreases |c|
  {
    if b != [] {
      var m := |c| - 1;
      assert c == c[..m] + [c[m]];
      if b[|b| - 1] == c[m] {
        SubsequenceMultiset(b[..|b| - 1], c[..m]);
        assert b == b[..|b| - 1] + [c[m]];
      } else {
        SubsequenceMultiset(b, c[..m]);
      }
    }
  }

  /** A planned batch takes each waiting parcel of the route at most once,
      and nothing else. */
  lemma PlannedOnce(ps: seq<Parcel>, s: int, d: int, day: int)
    ensures forall r: nat :: multiset(PlannedBatch(ps, s, d, day).refs)[r] <= if r < |ps| && Waiting(ps[r], s, d) then 1 else 0
  {
    var c := Candidates(ps, s, d);
    CandidatesCount(ps, s, d);
    StableSortIsPermutation(ps, c);
    BatchIsSubsequence(ps, StableSort(ps, c), day);
    SubsequenceMultiset(PlannedBatch(ps, s, d, day).refs, StableSort(ps, c));
  }

  /** On day 5 every candidate travels. */
  lemma {:induction false} LastDayAdmitsAll(ps: seq<Parcel>, c: seq<nat>)
    ensures Admit(ps, c, 5).refs == c
  {
    if c != [] {
      LastDayAdmitsAll(ps, c[..|c| - 1]);
      assert c == c[..|c| - 1] + [c[|c| - 1]];
    }
  }

  /** An urgent candidate is always admitted, whatever the load. */
  lemma {:induction false} UrgentAdmitted(ps: seq<Parcel>, c: seq<nat>, day: int, r: nat)
    requires 1 <= day <= 4 && r in c && Urgent(day, Prio(ps, r))
    ensures r in Admit(ps, c, day).refs
  {
    var n := |c| - 1;
    if c[n] != r {
      assert r in c[..n] by {
        var i :| 0 <= i < |c| && c[i] == r;
        assert c[..n][i] == r;
      }
      UrgentAdmitted(ps, c[..n], day, r);
    }
  }

  /** Nothing is admitted outside the five-day cycle. */
  lemma {:induction false} OffCycleAdmitsNothing(ps: seq<Parcel>, c: seq<nat>, day: int)
    requires !(1 <= day <= 5)
    ensures Admit(ps, c, day).refs == []
  {
    if c != [] {
      OffCycleAdmitsNothing(ps, c[..|c| - 1], day);
    }
  }

  /** With candidates in priority order and every priority at least 1, a
      batch that holds any non-urgent parcel stays within the day's cap:
      urgent parcels come first, and a non-urgent one joins only while the
      load stays within the cap. */
  lemma {:induction false} SoftCap(ps: seq<Parcel>, c: seq<nat>, day: int, x: nat)
    requires 1 <= day <= 4 && SortedBy(ps, c)
    requires forall i :: 0 <= i < |c| ==> Prio(ps, c[i]) >= 1
    requires x in Admit(ps, c, day).refs && !Urgent(day, Prio(ps, x))
    ensures Admit(ps, c, day).load <= Cap(day)
  {
    var n := |c| - 1;
    var prev := Admit(ps, c[..n], day);
    var r := c[n];
    var b := Admit(ps, c, day);
    if b == prev {
      SoftCap(ps, c[..n], day, x);
    } else if Urgent(day, Prio(ps, r)) {
      BatchIsSubsequence(ps, c, day);
      SubsequenceMembers(b.refs, c);
      assert false;
    }
  }

  // ---------------------------------------------------------------------
  // Vehicle ladder
  // ---------------------------------------------------------------------

  /** The vehicles a city has left today. */
  datatype Pools = Pools(bus300: nat, bus600: nat, truck: nat)

  /** The pool units a vehicle class takes. */
  function Uses(v: Vehicle): (u: Pools)
    ensures u.bus300 + u.bus600 + u.truck >= 1
  {
    match v
    case Bus300 => Pools(1, 0, 0)
    case Bus600 => Pools(0, 1, 0)
    case Bus600Plus300 => Pools(1, 1, 0)
    case TwoBus600 => Pools(0, 2, 0)
    case Truck => Pools(0, 0, 1)
    case TruckConvoy => Pools(0, 0, 1)
  }

  /** The load limit of a vehicle class; a convoy has none. */
  predicate WithinLimit(v: Vehicle, load: int) {
    match v
    case Bus300 => load <= 300
    case Bus600 => load <= 600
    case Bus600Plus300 => load <= 900
    case TwoBus600 => load <= 1200
    case Truck => load <= 2000
    case TruckConvoy => true
  }

  /** A class can carry the load and the pools hold the units it takes. */
  predicate Fits(v: Vehicle, load: int, p: Pools) {
    WithinLimit(v, load) &&
    Uses(v).bus300 <= p.bus300 && Uses(v).bus600 <= p.bus600 && Uses(v).truck <= p.truck
  }

  /** Position on the ladder. */
  function Tier(v: Vehicle): nat {
    match v
    case Bus300 => 0
    case Bus600 => 1
    case Bus600Plus300 => 2
    case TwoBus600 => 3
    case Truck => 4
    case TruckConvoy => 5
  }

  /** The allocation chain of the dispatch step. */
  function Ladder(load: int, p: Pools): (v: Option<Vehicle>)
    ensures v.Some? ==> Fits(v.value, load, p)
  {
    if load <= 300 && p.bus300 > 0 then Some(Bus300)
    else if load <= 600 && p.bus600 > 0 then Some(Bus600)
    else if load <= 900 && p.bus600 > 0 && p.bus300 > 0 then Some(Bus600Plus300)
    else if load <= 1200 && p.bus600 >= 2 then Some(TwoBus600)
    else if load <= 2000 && p.truck > 0 then Some(Truck)
    else if p.truck > 0 then Some(TruckConvoy)
    else None
  }

  /** The pools after taking the units of `v`. */
  function Take(p: Pools, v: Vehicle): Pools
    requires Uses(v).bus300 <= p.bus300 && Uses(v).bus600 <= p.bus600 && Uses(v).truck <= p.truck
  {
    Pools(p.bus300 - Uses(v).bus300, p.bus600 - Uses(v).bus600, p.truck - Uses(v).truck)
  }

  /** The ladder picks the first class that fits, and defers only when none
      fits. */
  lemma LadderIsFirstFit(load: int, p: Pools)
    ensures Ladder(load, p).Some? ==> Fits(Ladder(load, p).value, load, p)
    ensures Ladder(load, p).Some? ==>
      forall u :: Tier(u) < Tier(Ladder(load, p).value) ==> !Fits(u, load, p)
    ensures Ladder(load, p).None? <==> forall u :: !Fits(u, load, p)
  {
    if Ladder(load, p).None? {
      forall u
        ensures !Fits(u, load, p)
      {
      }
    }

  }

  /** Taking a chosen vehicle leaves every pool between zero and its old
      count, and strictly lowers at least one. */
  lemma TakeStaysInRange(load: int, p: Pools)
    requires Ladder(load, p).Some?
    ensures Fits(Ladder(load, p).value, load, p)
    ensures var q := Take(p, Ladder(load, p).value);
      q.bus300 <= p.bus300 && q.bus600 <= p.bus600 && q.truck <= p.truck &&
      q.bus300 + q.bus600 + q.truck < p.bus300 + p.bus600 + p.truck
  {
  }
}
