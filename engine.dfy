/** The dispatch engine: the parcel collection and its directory, the
    active trips, the per-city vehicle pools and the simulation clock, with
    the customer operations (booking, undo) and the steps of one clock tick
    (day rollover, trip advancement, dispatch). Parcel references shared by
    the collection, the directory and the trips are indices into
    `parcels`, which only ever grows. */
module Simulation {
  import opened Parcels
  import opened Lists
  import opened Directory
  import opened Routing
  import opened Dispatch

  /** Daily fleet of each city. */
  const Bus300Fleet := 14
  const Bus600Fleet := 14
  const TruckFleet := 7

  // ---------------------------------------------------------------------
  // The directory and the parcel collection
  // ---------------------------------------------------------------------

  /** The directory holds one entry per parcel, in booking order, keyed by
      the parcel's id and pointing at it. */
  ghost predicate Indexed(ps: seq<Parcel>, es: seq<Entry>) {
    |es| == |ps| && forall i :: 0 <= i < |ps| ==> es[i] == Entry(ps[i].id, i)
  }

  /** The first parcel booked under `id`. */
  function FirstWithId(ps: seq<Parcel>, id: string): (r: Option<nat>)
    ensures r.Some? ==> r.value < |ps| && ps[r.value].id == id
    ensures r.Some? ==> forall j :: 0 <= j < r.value ==> ps[j].id != id
    ensures r.None? ==> forall j :: 0 <= j < |ps| ==> ps[j].id != id
  {
    if ps == [] then None
    else
      var n := |ps| - 1;
      var prev := FirstWithId(ps[..n], id);
      assert forall j :: 0 <= j < n ==> ps[..n][j] == ps[j];
      if prev.Some? then prev else if ps[n].id == id then Some(n) else None
  }

  /** Searching the directory finds the first parcel booked under the id,
      and nothing when no parcel carries it. */
  lemma DirectoryFindsFirst(ps: seq<Parcel>, es: seq<Entry>, id: string)
    requires Indexed(ps, es)
    ensures FirstRef(es, id) == FirstWithId(ps, id)
  {
    FirstRefSpec(es, id);
    if FirstRef(es, id).Some? {
      var k :| 0 <= k < |es| && es[k] == Entry(id, FirstRef(es, id).value) &&
        forall j :: 0 <= j < k ==> es[j].id != id;
      forall j | 0 <= j < k
        ensures ps[j].id != id
      {
        assert es[j] == Entry(ps[j].id, j);
      }
      FirstWithIdAt(ps, id, k);
    } else {
      forall j | 0 <= j < |ps|
        ensures ps[j].id != id
      {
        assert es[j] in es;
      }
    }
  }

  /** The parcel at `k` carries `id` and no earlier one does: it is the
      first parcel booked under `id`. */
  lemma FirstWithIdAt(ps: seq<Parcel>, id: string, k: nat)
    requires k < |ps| && ps[k].id == id
    requires forall j :: 0 <= j < k ==> ps[j].id != id
    ensures FirstWithId(ps, id) == Some(k)
  {
  }

  /** Once a parcel is booked, its id is found, and it is the new parcel
      itself unless an earlier parcel already had the id. */
  lemma BookedIsFound(ps: seq<Parcel>, p: Parcel)
    ensures FirstWithId(ps + [p], p.id).Some?
    ensures FirstWithId(ps, p.id).None? ==> FirstWithId(ps + [p], p.id) == Some(|ps|)
    ensures FirstWithId(ps, p.id).Some? ==> FirstWithId(ps + [p], p.id) == FirstWithId(ps, p.id)
  {
    assert (ps + [p])[..|ps|] == ps;
  }

  /** The number of parcels in status `st`. */
  function CountOf(ps: seq<Parcel>, st: Status): nat {
    if ps == [] then 0
    else CountOf(ps[..|ps| - 1], st) + (if ps[|ps| - 1].status == st then 1 else 0)
  }

  lemma {:induction false} CountsBounded(ps: seq<Parcel>)
    ensures CountOf(ps, Booked) + CountOf(ps, InTransit) <= |ps|
  {
    if ps != [] {
      CountsBounded(ps[..|ps| - 1]);
    }
  }

  lemma CountAfterAppend(ps: seq<Parcel>, p: Parcel, st: Status)
    ensures CountOf(ps + [p], st) == CountOf(ps, st) + (if p.status == st then 1 else 0)
  {
    assert (ps + [p])[..|ps|] == ps;
  }

  /** Statuses only move forward along the status machine, ids never change,
      and the collection only grows. */
  ghost predicate Progressed(ps0: seq<Parcel>, ps1: seq<Parcel>) {
    |ps0| <= |ps1| &&
    forall i :: 0 <= i < |ps0| ==> ps1[i].id == ps0[i].id && Succeeds(ps0[i].status, ps1[i].status)
  }

  // ---------------------------------------------------------------------
  // Trips
  // ---------------------------------------------------------------------

  /** Every trip points only at parcels of the collection. */
  ghost predicate TripsPointInto(ts: seq<Trip>, n: nat) {
    forall i, r :: 0 <= i < |ts| && r in ts[i].parcels ==> r < n
  }

  /** The trips that are not finished, in their order. */
  function Unfinished(ts: seq<Trip>): seq<Trip> {
    if ts == [] then []
    else
      var n := |ts| - 1;
      Unfinished(ts[..n]) + (if ts[n].finished then [] else [ts[n]])
  }

  /** The clean-up keeps exactly the unfinished trips, in their order. */
  lemma {:induction false} UnfinishedSpec(ts: seq<Trip>)
    ensures forall t :: t in Unfinished(ts) <==> t in ts && !t.finished
    ensures Subsequence(Unfinished(ts), ts)
  {
    if ts != [] {
      var n := |ts| - 1;
      var prev := Unfinished(ts[..n]);
      UnfinishedSpec(ts[..n]);
      assert ts == ts[..n] + [ts[n]];
      if ts[n].finished {
        assert Unfinished(ts) == prev;
        SubsequenceExtend(prev, ts[..n], ts[n]);
      } else {
        var r := prev + [ts[n]];
        assert Unfinished(ts) == r;
        assert r[..|r| - 1] == prev;
      }
    }
  }

  /** A trip after the arrival check at tick `now`. */
  function Advance(t: Trip, now: int): (r: Trip)
    ensures r.finished <==> t.finished || Due(t, now)
    ensures r == t.(finished := r.finished)
  {
    if !t.finished && Due(t, now) then t.(finished := true) else t
  }

  /** Every trip after the arrival check, in the same order. */
  function AdvanceAll(ts: seq<Trip>, now: int): (r: seq<Trip>)
    ensures |r| == |ts| && forall i :: 0 <= i < |ts| ==> r[i] == Advance(ts[i], now)
  {
    if ts == [] then [] else AdvanceAll(ts[..|ts| - 1], now) + [Advance(ts[|ts| - 1], now)]
  }

  /** The parcels of the trips arriving at tick `now`, trip by trip. */
  function Arrivals(ts: seq<Trip>, now: int): seq<nat> {
    if ts == [] then []
    else
      var t := ts[|ts| - 1];
      Arrivals(ts[..|ts| - 1], now) + (if !t.finished && Due(t, now) then t.parcels else [])
  }

  /** An arrived parcel: LOST when the loss roll hit it, Delivered otherwise. */
  function Landed(p: Parcel, r: nat, lost: set<nat>): Parcel {
    p.(status := if r in lost then Lost else Delivered)
  }

  /** The collection after the parcels `refs` arrive, in order. */
  function Land(ps: seq<Parcel>, refs: seq<nat>, lost: set<nat>): (r: seq<Parcel>)
    ensures |r| == |ps|
  {
    if refs == [] then ps
    else
      var q := Land(ps, refs[..|refs| - 1], lost);
      var x := refs[|refs| - 1];
      if x < |q| then q[x := Landed(q[x], x, lost)] else q
  }

  /** The number of arriving parcels the loss roll hit. */
  function LostCount(refs: seq<nat>, lost: set<nat>): nat {
    if refs == [] then 0
    else LostCount(refs[..|refs| - 1], lost) + (if refs[|refs| - 1] in lost then 1 else 0)
  }

  /** Landing touches exactly the arriving parcels: each becomes LOST or
      Delivered, keeping everything else; every other parcel is unchanged. */
  lemma {:induction false} LandEffect(ps: seq<Parcel>, refs: seq<nat>, lost: set<nat>, i: nat)
    requires i < |ps|
    ensures Land(ps, refs, lost)[i] == if i in refs then Landed(ps[i], i, lost) else ps[i]
  {
    if refs != [] {
      var n := |refs| - 1;
      LandEffect(ps, refs[..n], lost, i);
      assert refs == refs[..n] + [refs[n]];
    }
  }

  /** Landing changes statuses only: ids stay as booked. */
  lemma LandKeepsIds(ps: seq<Parcel>, refs: seq<nat>, lost: set<nat>)
    ensures forall i :: 0 <= i < |ps| ==> Land(ps, refs, lost)[i].id == ps[i].id
  {
    forall i | 0 <= i < |ps|
      ensures Land(ps, refs, lost)[i].id == ps[i].id
    {
      LandEffect(ps, refs, lost, i);
    }
  }

  lemma {:induction false} LandConcat(ps: seq<Parcel>, a: seq<nat>, b: seq<nat>, lost: set<nat>)
    ensures Land(ps, a + b, lost) == Land(Land(ps, a, lost), b, lost)
    ensures LostCount(a + b, lost) == LostCount(a, lost) + LostCount(b, lost)
    decreases |b|
  {
    if b == [] {
      assert a + b == a;
    } else {
      var n := |b| - 1;
      assert (a + b)[..|a + b| - 1] == a + b[..n];
      LandConcat(ps, a, b[..n], lost);
    }
  }

  lemma {:induction false} LostCountBounded(refs: seq<nat>, lost: set<nat>)
    ensures LostCount(refs, lost) <= |refs|
  {
    if refs != [] {
      LostCountBounded(refs[..|refs| - 1], lost);
    }
  }

  /** A boarded parcel: In Transit, stamped with the dispatch tick and the
      route distance. */
  function Boarded(p: Parcel, now: int, dist: int): Parcel {
    p.(status := InTransit, dispatchTime := now, totalRouteDistance := dist)
  }

  /** The collection after the parcels `refs` board a trip, in order. */
  function Board(ps: seq<Parcel>, refs: seq<nat>, now: int, dist: int): (r: seq<Parcel>)
    ensures |r| == |ps|
  {
    if refs == [] then ps
    else
      var q := Board(ps, refs[..|refs| - 1], now, dist);
      var x := refs[|refs| - 1];
      if x < |q| then q[x := Boarded(q[x], now, dist)] else q
  }

  /** Boarding touches exactly the batch: each of its parcels is boarded,
      every other parcel is unchanged. */
  lemma {:induction false} BoardEffect(ps: seq<Parcel>, refs: seq<nat>, now: int, dist: int, i: nat)
    requires i < |ps|
    ensures Board(ps, refs, now, dist)[i] == if i in refs then Boarded(ps[i], now, dist) else ps[i]
  {
    if refs != [] {
      var n := |refs| - 1;
      BoardEffect(ps, refs[..n], now, dist, i);
      assert refs == refs[..n] + [refs[n]];
    }
  }

  /** Boarding changes statuses and stamps only: ids stay as booked. */
  lemma BoardKeepsIds(ps: seq<Parcel>, refs: seq<nat>, now: int, dist: int)
    ensures forall i :: 0 <= i < |ps| ==> Board(ps, refs, now, dist)[i].id == ps[i].id
  {
    forall i | 0 <= i < |ps|
      ensures Board(ps, refs, now, dist)[i].id == ps[i].id
    {
      BoardEffect(ps, refs, now, dist, i);
    }
  }

  /** Boarding parcels that were Booked moves them forward only. */
  lemma BoardProgresses(ps: seq<Parcel>, refs: seq<nat>, now: int, dist: int)
    requires forall r :: r in refs ==> r < |ps| && ps[r].status == Booked
    ensures Progressed(ps, Board(ps, refs, now, dist))
  {
    forall i | 0 <= i < |ps|
      ensures Board(ps, refs, now, dist)[i].id == ps[i].id
      ensures Succeeds(ps[i].status, Board(ps, refs, now, dist)[i].status)
    {
      BoardEffect(ps, refs, now, dist, i);
    }
  }

  /** The effect of dispatch steps run at tick `now`: only Booked parcels
      change, and only forward; trips are only added, each unfinished,
      started at `now`, and carrying parcels that were Booked and are now
      In Transit. */
  ghost predicate Launched(ps0: seq<Parcel>, ps: seq<Parcel>, ts0: seq<Trip>, ts: seq<Trip>, now: int) {
    && Progressed(ps0, ps) && |ps| == |ps0|
    && (forall i :: 0 <= i < |ps0| && ps0[i].status != Booked ==> ps[i] == ps0[i])
    && ts0 <= ts
    && forall i :: |ts0| <= i < |ts| ==>
         && !ts[i].finished && ts[i].startTime == now
         && forall r :: r in ts[i].parcels ==> r < |ps| && ps0[r].status == Booked && ps[r].status == InTransit
  }

  /** Sending one trip of Booked parcels is a launch. */
  lemma BoardLaunches(ps: seq<Parcel>, ts: seq<Trip>, t: Trip, now: int)
    requires forall r :: r in t.parcels ==> r < |ps| && ps[r].status == Booked
    requires !t.finished && t.startTime == now
    ensures Launched(ps, Board(ps, t.parcels, now, t.distance), ts, ts + [t], now)
  {
    var ps' := Board(ps, t.parcels, now, t.distance);
    BoardProgresses(ps, t.parcels, now, t.distance);
    forall i | 0 <= i < |ps|
      ensures ps'[i] == if i in t.parcels then Boarded(ps[i], now, t.distance) else ps[i]
    {
      BoardEffect(ps, t.parcels, now, t.distance, i);
    }
  }

  /** Launches compose: two rounds of dispatch at the same tick are one. */
  lemma LaunchedTrans(ps0: seq<Parcel>, ps1: seq<Parcel>, ps2: seq<Parcel>,
                      ts0: seq<Trip>, ts1: seq<Trip>, ts2: seq<Trip>, now: int)
    requires Launched(ps0, ps1, ts0, ts1, now) && Launched(ps1, ps2, ts1, ts2, now)
    ensures Launched(ps0, ps2, ts0, ts2, now)
  {
    forall i | |ts0| <= i < |ts2|
      ensures forall r :: r in ts2[i].parcels ==> r < |ps2| && ps0[r].status == Booked && ps2[r].status == InTransit
    {
      if i < |ts1| {
        assert ts2[i] == ts1[i];
      }
    }
  }

  // ---------------------------------------------------------------------
  // Parcels aboard the unfinished trips
  // ---------------------------------------------------------------------

  /** The parcels aboard the unfinished trips, trip by trip. */
  function InFlight(ts: seq<Trip>): seq<nat> {
    if ts == [] then []
    else
      var n := |ts| - 1;
      InFlight(ts[..n]) + (if ts[n].finished then [] else ts[n].parcels)
  }

  /** The trips agree with the statuses: every In Transit parcel is aboard
      the unfinished trips exactly once, no other reference is aboard any,
      and every trip points into the collection. */
  ghost predicate Consistent(ps: seq<Parcel>, ts: seq<Trip>) {
    && TripsPointInto(ts, |ps|)
    && forall r: nat :: multiset(InFlight(ts))[r] == if r < |ps| && ps[r].status == InTransit then 1 else 0
  }

  lemma {:induction false} InFlightConcat(a: seq<Trip>, b: seq<Trip>)
    ensures InFlight(a + b) == InFlight(a) + InFlight(b)
    decreases |b|
  {
    if b == [] {
      assert a + b == a;
    } else {
      var n := |b| - 1;
      assert (a + b)[..|a + b| - 1] == a + b[..n];
      InFlightConcat(a, b[..n]);
    }
  }

  /** A reference is in flight exactly when some unfinished trip carries it. */
  lemma {:induction false} InFlightMembers(ts: seq<Trip>)
    ensures forall r :: r in InFlight(ts) <==> exists i :: 0 <= i < |ts| && !ts[i].finished && r in ts[i].parcels
  {
    if ts != [] {
      var n := |ts| - 1;
      InFlightMembers(ts[..n]);
      forall r | r in InFlight(ts)
        ensures exists i :: 0 <= i < |ts| && !ts[i].finished && r in ts[i].parcels
      {
        if r in InFlight(ts[..n]) {
          var i :| 0 <= i < n && !ts[..n][i].finished && r in ts[..n][i].parcels;
          assert ts[i] == ts[..n][i];
        }
      }
      forall r, i | 0 <= i < |ts| && !ts[i].finished && r in ts[i].parcels
        ensures r in InFlight(ts)
      {
        if i < n {
          assert ts[..n][i] == ts[i];
        }
      }
    }
  }

  /** Under `Consistent`, a parcel is aboard an unfinished trip exactly
      when it is In Transit. */
  lemma InFlightIsInTransit(ps: seq<Parcel>, ts: seq<Trip>, r: nat)
    requires Consistent(ps, ts)
    ensures (exists i :: 0 <= i < |ts| && !ts[i].finished && r in ts[i].parcels)
        <==> r < |ps| && ps[r].status == InTransit
  {
    InFlightMembers(ts);
    assert r in InFlight(ts) <==> r in multiset(InFlight(ts));
  }

  /** Under `Consistent`, two different unfinished trips never carry the same
      parcel, and none carries a parcel twice. */
  lemma OnOneTrip(ps: seq<Parcel>, ts: seq<Trip>, i: nat, j: nat, r: nat)
    requires Consistent(ps, ts) && i < j < |ts| && !ts[i].finished && !ts[j].finished
    ensures !(r in ts[i].parcels && r in ts[j].parcels)
    ensures multiset(ts[i].parcels)[r] <= 1 && multiset(ts[j].parcels)[r] <= 1
  {
    var a, b, c := ts[..i], ts[i + 1..j], ts[j + 1..];
    assert ts == a + [ts[i]] + b + [ts[j]] + c;
    InFlightConcat(a + [ts[i]] + b + [ts[j]], c);
    InFlightConcat(a + [ts[i]] + b, [ts[j]]);
    InFlightConcat(a + [ts[i]], b);
    InFlightConcat(a, [ts[i]]);
    assert [ts[i]][..0] == [] && [ts[j]][..0] == [];
    assert multiset(InFlight(ts))[r] >= multiset(ts[i].parcels)[r] + multiset(ts[j].parcels)[r];
  }

  /** Booking a new parcel keeps the trips consistent. */
  lemma BookKeepsConsistent(ps: seq<Parcel>, ts: seq<Trip>, p: Parcel)
    requires Consistent(ps, ts) && p.status == Booked
    ensures Consistent(ps + [p], ts)
  {
    var ps' := ps + [p];
    forall r: nat
      ensures multiset(InFlight(ts))[r] == if r < |ps'| && ps'[r].status == InTransit then 1 else 0
    {
      if r < |ps| {
        assert ps'[r] == ps[r];
      }
    }
  }

  /** Cancelling a Booked parcel keeps the trips consistent. */
  lemma CancelKeepsConsistent(ps: seq<Parcel>, ts: seq<Trip>, x: nat)
    requires Consistent(ps, ts) && x < |ps| && ps[x].status == Booked
    ensures Consistent(ps[x := ps[x].(status := Cancelled)], ts)
  {
    var ps' := ps[x := ps[x].(status := Cancelled)];
    forall r: nat
      ensures multiset(InFlight(ts))[r] == if r < |ps'| && ps'[r].status == InTransit then 1 else 0
    {
    }
  }

  /** Dropping the finished trips takes no parcel out of flight. */
  lemma {:induction false} UnfinishedInFlight(ts: seq<Trip>)
    ensures InFlight(Unfinished(ts)) == InFlight(ts)
  {
    if ts != [] {
      var n := |ts| - 1;
      UnfinishedInFlight(ts[..n]);
      var u := Unfinished(ts[..n]);
      if ts[n].finished {
        assert Unfinished(ts) == u + [] == u;
        assert InFlight(ts) == InFlight(ts[..n]) + [];
      } else {
        assert (u + [ts[n]])[..|u|] == u;
        assert InFlight(u + [ts[n]]) == InFlight(u) + ts[n].parcels;
      }
    }
  }

  /** The rollover clean-up keeps the trips consistent. */
  lemma CleanKeepsConsistent(ps: seq<Parcel>, ts: seq<Trip>)
    requires Consistent(ps, ts)
    ensures Consistent(ps, Unfinished(ts))
  {
    UnfinishedSpec(ts);
    UnfinishedInFlight(ts);
    var u := Unfinished(ts);
    forall i, r | 0 <= i < |u| && r in u[i].parcels
      ensures r < |ps|
    {
      assert u[i] in u;
    }
  }

  /** The arrival check moves the parcels of the due trips out of flight:
      they are exactly the arrivals. */
  lemma {:induction false} ArrivalSplit(ts: seq<Trip>, now: int)
    ensures multiset(InFlight(ts)) == multiset(InFlight(AdvanceAll(ts, now))) + multiset(Arrivals(ts, now))
  {
    if ts != [] {
      var n := |ts| - 1;
      ArrivalSplit(ts[..n], now);
      var adv := AdvanceAll(ts[..n], now);
      assert (adv + [Advance(ts[n], now)])[..n] == adv;
    }
  }

  /** On consistent trips, every arriving parcel was In Transit, aboard
      the unfinished trips once. */
  lemma ArrivalsInTransit(ps: seq<Parcel>, ts: seq<Trip>, now: int)
    requires Consistent(ps, ts)
    ensures forall r: nat :: r in Arrivals(ts, now) ==> r < |ps| && ps[r].status == InTransit
  {
    ArrivalSplit(ts, now);
    forall r: nat | r in Arrivals(ts, now)
      ensures r < |ps| && ps[r].status == InTransit
    {
      assert r in multiset(Arrivals(ts, now));
      assert multiset(InFlight(ts))[r] >= 1;
    }
  }

  /** The parcel `r` after the arrival check: it leaves flight exactly when
      it arrives, and then it is no longer In Transit. */
  lemma ArrivalAt(ps: seq<Parcel>, ts: seq<Trip>, now: int, lost: set<nat>, r: nat)
    requires Consistent(ps, ts)
    ensures var ps' := Land(ps, Arrivals(ts, now), lost);
      multiset(InFlight(AdvanceAll(ts, now)))[r] == if r < |ps'| && ps'[r].status == InTransit then 1 else 0
  {
    ArrivalSplit(ts, now);
    var arrivals: seq<nat> := Arrivals(ts, now);
    assert multiset(InFlight(ts))[r] == multiset(InFlight(AdvanceAll(ts, now)))[r] + multiset(arrivals)[r];
    if r < |ps| {
      LandEffect(ps, arrivals, lost, r);
    }
    if r in arrivals {
      assert r in multiset(arrivals);
    } else {
      assert multiset(arrivals)[r] == 0;
    }
  }

  /** The arrival check, on consistent trips, moves parcels forward only,
      and the trips it leaves are consistent with the parcels it leaves. */
  lemma ArrivalKeepsConsistent(ps: seq<Parcel>, ts: seq<Trip>, now: int, lost: set<nat>)
    requires Consistent(ps, ts)
    ensures Progressed(ps, Land(ps, Arrivals(ts, now), lost))
    ensures Consistent(Land(ps, Arrivals(ts, now), lost), AdvanceAll(ts, now))
  {
    var arrivals := Arrivals(ts, now);
    var ps' := Land(ps, arrivals, lost);
    ArrivalsInTransit(ps, ts, now);
    forall r: nat
      ensures multiset(InFlight(AdvanceAll(ts, now)))[r] == if r < |ps'| && ps'[r].status == InTransit then 1 else 0
    {
      ArrivalAt(ps, ts, now, lost, r);
    }
    forall i | 0 <= i < |ps|
      ensures ps'[i].id == ps[i].id && Succeeds(ps[i].status, ps'[i].status)
    {
      LandEffect(ps, arrivals, lost, i);
    }
  }

  /** Sending a trip of distinct Booked parcels keeps the trips consistent. */
  lemma BoardKeepsConsistent(ps: seq<Parcel>, ts: seq<Trip>, t: Trip, now: int)
    requires Consistent(ps, ts) && !t.finished
    requires forall r :: r in t.parcels ==> r < |ps| && ps[r].status == Booked
    requires forall r: nat :: multiset(t.parcels)[r] <= 1
    ensures Consistent(Board(ps, t.parcels, now, t.distance), ts + [t])
  {
    var ps' := Board(ps, t.parcels, now, t.distance);
    var ts' := ts + [t];
    assert ts'[..|ts|] == ts;
    assert InFlight(ts') == InFlight(ts) + t.parcels;
    forall r: nat
      ensures multiset(InFlight(ts'))[r] == if r < |ps'| && ps'[r].status == InTransit then 1 else 0
    {
      if r < |ps| {
        BoardEffect(ps, t.parcels, now, t.distance, r);
        if r in t.parcels {
          assert multiset(InFlight(ts))[r] == 0 && multiset(t.parcels)[r] == 1;
        } else {
          assert multiset(t.parcels)[r] == 0;
        }
      } else {
        assert r !in t.parcels;
      }
    }
  }

  /** Moving forward twice is moving forward. */
  lemma ProgressedTrans(ps0: seq<Parcel>, ps1: seq<Parcel>, ps2: seq<Parcel>)
    requires Progressed(ps0, ps1) && Progressed(ps1, ps2)
    ensures Progressed(ps0, ps2)
  {
  }

  /** Each city's pools, counted vehicle class by vehicle class, are at
      most the ones of `q`. */
  predicate PoolsWithin(p: Pools, q: Pools) {
    p.bus300 <= q.bus300 && p.bus600 <= q.bus600 && p.truck <= q.truck
  }

  /** The result of a cancellation request. */
  datatype UndoOutcome = UndoDone | UndoRefused(status: Status) | UndoNotFound

  /** The result of the dispatch step for one route. */
  datatype RouteOutcome =
    | NoBatch
    | Deferred(load: int)
    | Dispatched(vehicle: Vehicle, distance: int, load: int, reroute: bool)

  /** `dist` is the length of a shortest route from `s` to `d` over the
      distance matrix, and a single-city trip counts as 5. */
  ghost predicate RouteLength(s: int, d: int, dist: int) {
    if s == d then dist == LocalDistance
    else
      && (exists p :: IsPath(p, s, d) && PathWeight(p) == dist)
      && (forall p :: IsPath(p, s, d) ==> dist <= PathWeight(p))
      && dist <= Weight(s, d)
  }

  /** `m` is the least weight of a path from `s` to `d`. */
  ghost predicate IsShortest(s: int, d: int, m: int) {
    && (exists p :: IsPath(p, s, d) && PathWeight(p) == m)
    && (forall p :: IsPath(p, s, d) ==> m <= PathWeight(p))
  }

  /** Path weights are natural numbers, so a path of weight at most `n`
      means a least-weight path exists. */
  lemma {:induction false} ShortestExists(s: int, d: int, n: nat)
    requires exists p :: IsPath(p, s, d) && PathWeight(p) <= n
    ensures exists m :: IsShortest(s, d, m)
    decreases n
  {
    if n > 0 && exists p :: IsPath(p, s, d) && PathWeight(p) <= n - 1 {
      ShortestExists(s, d, n - 1);
    } else {
      var p :| IsPath(p, s, d) && PathWeight(p) <= n;
      forall q | IsPath(q, s, d)
        ensures PathWeight(p) <= PathWeight(q)
      {
        PathWeightNonnegative(q);
      }
      assert IsShortest(s, d, PathWeight(p));
    }
  }

  /** At most one distance is the route length of a pair of cities. */
  lemma RouteLengthUnique(s: int, d: int, a: int, b: int)
    requires RouteLength(s, d, a) && RouteLength(s, d, b)
    ensures a == b
  {
    if s != d {
      var p :| IsPath(p, s, d) && PathWeight(p) == a;
      var q :| IsPath(q, s, d) && PathWeight(q) == b;
    }
  }

  /** The route length of a pair of cities: it always exists. */
  ghost function RouteDist(s: int, d: int): (dist: int)
    requires IsCity(s) && IsCity(d)
    ensures RouteLength(s, d, dist)
  {
    if s == d then LocalDistance
    else
      MatrixFacts();
      assert IsPath([s, d], s, d);
      assert [s, d][..1] == [s];
      assert PathWeight([s, d]) == Weight(s, d);
      ShortestExists(s, d, Weight(s, d));
      var m :| IsShortest(s, d, m);
      m
  }

  // ---------------------------------------------------------------------
  // The daily dispatch as a function of the state
  // ---------------------------------------------------------------------

  /** The part of the engine's state the dispatch steps read and write:
      the parcel collection, the active trips, and the pools of each city,
      one entry per city. */
  datatype World = World(parcels: seq<Parcel>, trips: seq<Trip>, pools: seq<Pools>)

  /** One pools entry per city. */
  ghost predicate PoolsOk(w: World) {
    |w.pools| == MaxCities
  }

  ghost function PoolOf(w: World, c: int): Pools
    requires PoolsOk(w) && 0 <= c < MaxCities
  {
    w.pools[c]
  }

  /** `w` with city `c`'s pools set to `p`. */
  ghost function WithPool(w: World, c: int, p: Pools): (r: World)
    requires PoolsOk(w) && 0 <= c < MaxCities
    ensures PoolsOk(r)
  {
    w.(pools := w.pools[c := p])
  }

  /** The dispatch step of route (s, d) on `day` at tick `now`: the planned
      batch, if any and if the ladder finds a vehicle in `s`'s pools, boards
      that vehicle and joins the trips as an unfinished trip; otherwise the
      state is left as it is. */
  ghost function DispatchRoute(w: World, day: int, now: int, s: int, d: int): (r: World)
    requires PoolsOk(w) && 0 <= s < MaxCities && 0 <= d < MaxCities
    ensures PoolsOk(r)
  {
    var b := PlannedBatch(w.parcels, s, d, day);
    if b.refs == [] then w
    else
      match Ladder(b.load, PoolOf(w, s))
      case None => w
      case Some(v) =>
        var dist := RouteDist(s, d);
        WithPool(w, s, Take(PoolOf(w, s), v)).(parcels := Board(w.parcels, b.refs, now, dist),
                                                trips := w.trips + [Trip(s, d, v, dist, now, false, b.refs)])
  }

  /** The dispatch step when the ladder finds no vehicle: nothing changes. */
  lemma DispatchRouteDefers(w: World, day: int, now: int, s: int, d: int, b: Batch)
    requires PoolsOk(w) && 0 <= s < MaxCities && 0 <= d < MaxCities
    requires b == PlannedBatch(w.parcels, s, d, day) && Ladder(b.load, PoolOf(w, s)).None?
    ensures DispatchRoute(w, day, now, s, d) == w
  {
  }

  /** The dispatch step when the batch is not empty and the ladder finds a
      vehicle: the vehicle leaves `s`'s pools and the batch boards it. */
  lemma DispatchRouteSends(w: World, day: int, now: int, s: int, d: int, b: Batch, v: Vehicle)
    requires PoolsOk(w) && 0 <= s < MaxCities && 0 <= d < MaxCities
    requires b == PlannedBatch(w.parcels, s, d, day) && b.refs != [] && Ladder(b.load, PoolOf(w, s)) == Some(v)
    ensures var dist := RouteDist(s, d);
      DispatchRoute(w, day, now, s, d) ==
        WithPool(w, s, Take(PoolOf(w, s), v)).(parcels := Board(w.parcels, b.refs, now, dist),
                                                trips := w.trips + [Trip(s, d, v, dist, now, false, b.refs)])
  {
  }

  /** The dispatch steps of the routes from `s` to the cities below `n`, in
      order, each on the state the previous one left. */
  ghost function RoutesFrom(w: World, day: int, now: int, s: int, n: nat): (r: World)
    requires PoolsOk(w) && 0 <= s < MaxCities && n <= MaxCities
    ensures PoolsOk(r)
  {
    if n == 0 then w else DispatchRoute(RoutesFrom(w, day, now, s, n - 1), day, now, s, n - 1)
  }

  lemma RoutesFromStep(w: World, day: int, now: int, s: int, n: nat)
    requires PoolsOk(w) && 0 <= s < MaxCities && n < MaxCities
    ensures RoutesFrom(w, day, now, s, n + 1) == DispatchRoute(RoutesFrom(w, day, now, s, n), day, now, s, n)
  {
  }

  /** The dispatch steps of every route leaving the cities below `n`:
      source city by source city, each over every destination. */
  ghost function AllRoutes(w: World, day: int, now: int, n: nat): (r: World)
    requires PoolsOk(w) && n <= MaxCities
    ensures PoolsOk(r)
  {
    if n == 0 then w else RoutesFrom(AllRoutes(w, day, now, n - 1), day, now, n - 1, MaxCities)
  }

  /** The trips of `w` are consistent with its parcels. */
  ghost predicate Coherent(w: World) {
    Consistent(w.parcels, w.trips)
  }

  /** No city's pools grow. */
  ghost predicate PoolsShrink(w: World, r: World)
    requires PoolsOk(w) && PoolsOk(r)
  {
    forall c :: 0 <= c < MaxCities ==> PoolsWithin(PoolOf(r, c), PoolOf(w, c))
  }

  /** One dispatch step is a launch. */
  lemma DispatchRouteLaunches(w: World, day: int, now: int, s: int, d: int)
    requires PoolsOk(w) && 0 <= s < MaxCities && 0 <= d < MaxCities
    ensures var r := DispatchRoute(w, day, now, s, d);
      Launched(w.parcels, r.parcels, w.trips, r.trips, now)
  {
    var b := PlannedBatch(w.parcels, s, d, day);
    if b.refs != [] && Ladder(b.load, PoolOf(w, s)).Some? {
      var v := Ladder(b.load, PoolOf(w, s)).value;
      PlannedAreWaiting(w.parcels, s, d, day);
      BoardLaunches(w.parcels, w.trips, Trip(s, d, v, RouteDist(s, d), now, false, b.refs), now);
    } else {
      assert w.trips <= w.trips;
    }
  }

  /** One dispatch step takes vehicles from `s`'s pools only, and never
      adds any. */
  lemma DispatchRoutePools(w: World, day: int, now: int, s: int, d: int)
    requires PoolsOk(w) && 0 <= s < MaxCities && 0 <= d < MaxCities
    ensures var r := DispatchRoute(w, day, now, s, d);
      && PoolsShrink(w, r)
      && forall c :: 0 <= c < MaxCities && c != s ==> PoolOf(r, c) == PoolOf(w, c)
  {
  }

  /** One dispatch step keeps the trips consistent with the parcels. */
  lemma DispatchRouteConsistent(w: World, day: int, now: int, s: int, d: int)
    requires PoolsOk(w) && 0 <= s < MaxCities && 0 <= d < MaxCities
    requires Coherent(w)
    ensures Coherent(DispatchRoute(w, day, now, s, d))
  {
    var b := PlannedBatch(w.parcels, s, d, day);
    if b.refs != [] && Ladder(b.load, PoolOf(w, s)).Some? {
      var v := Ladder(b.load, PoolOf(w, s)).value;
      PlannedAreWaiting(w.parcels, s, d, day);
      PlannedOnce(w.parcels, s, d, day);
      BoardKeepsConsistent(w.parcels, w.trips, Trip(s, d, v, RouteDist(s, d), now, false, b.refs), now);
    }
  }

  lemma PoolsShrinkTrans(u: World, v: World, w: World)
    requires PoolsOk(u) && PoolsOk(v) && PoolsOk(w)
    requires PoolsShrink(u, v) && PoolsShrink(v, w)
    ensures PoolsShrink(u, w)
  {
  }

  /** A run of dispatch steps from one city is a launch. */
  lemma {:induction false} RoutesFromLaunches(w: World, day: int, now: int, s: int, n: nat)
    requires PoolsOk(w) && 0 <= s < MaxCities && n <= MaxCities
    ensures var r := RoutesFrom(w, day, now, s, n);
      Launched(w.parcels, r.parcels, w.trips, r.trips, now)
  {
    hide DispatchRoute;
    if n == 0 {
      assert w.trips <= w.trips;
    } else {
      var m := RoutesFrom(w, day, now, s, n - 1);
      RoutesFromLaunches(w, day, now, s, n - 1);
      DispatchRouteLaunches(m, day, now, s, n - 1);
      var r := DispatchRoute(m, day, now, s, n - 1);
      LaunchedTrans(w.parcels, m.parcels, r.parcels, w.trips, m.trips, r.trips, now);
    }
  }

  /** A run of dispatch steps from one city grows no pool. */
  lemma {:induction false} RoutesFromPools(w: World, day: int, now: int, s: int, n: nat)
    requires PoolsOk(w) && 0 <= s < MaxCities && n <= MaxCities
    ensures PoolsShrink(w, RoutesFrom(w, day, now, s, n))
  {
    hide DispatchRoute;
    if n > 0 {
      var m := RoutesFrom(w, day, now, s, n - 1);
      RoutesFromPools(w, day, now, s, n - 1);
      DispatchRoutePools(m, day, now, s, n - 1);
      PoolsShrinkTrans(w, m, DispatchRoute(m, day, now, s, n - 1));
    }
  }

  /** A run of dispatch steps from one city keeps the trips consistent. */
  lemma {:induction false} RoutesFromConsistent(w: World, day: int, now: int, s: int, n: nat)
    requires PoolsOk(w) && 0 <= s < MaxCities && n <= MaxCities
    requires Coherent(w)
    ensures Coherent(RoutesFrom(w, day, now, s, n))
  {
    hide DispatchRoute;
    if n > 0 {
      var m := RoutesFrom(w, day, now, s, n - 1);
      RoutesFromConsistent(w, day, now, s, n - 1);
      DispatchRouteConsistent(m, day, now, s, n - 1);
    }
  }

  /** The whole daily dispatch is a launch: only Booked parcels change, and
      only to In Transit aboard new trips started now. */
  lemma {:induction false} AllRoutesLaunch(w: World, day: int, now: int, n: nat)
    requires PoolsOk(w) && n <= MaxCities
    ensures var r := AllRoutes(w, day, now, n);
      Launched(w.parcels, r.parcels, w.trips, r.trips, now)
  {
    hide RoutesFrom;
    hide DispatchRoute;
    if n == 0 {
      assert w.trips <= w.trips;
    } else {
      var m := AllRoutes(w, day, now, n - 1);
      AllRoutesLaunch(w, day, now, n - 1);
      RoutesFromLaunches(m, day, now, n - 1, MaxCities);
      var r := RoutesFrom(m, day, now, n - 1, MaxCities);
      LaunchedTrans(w.parcels, m.parcels, r.parcels, w.trips, m.trips, r.trips, now);
    }
  }

  /** The whole daily dispatch grows no pool. */
  lemma {:induction false} AllRoutesPools(w: World, day: int, now: int, n: nat)
    requires PoolsOk(w) && n <= MaxCities
    ensures PoolsShrink(w, AllRoutes(w, day, now, n))
  {
    hide RoutesFrom;
    hide DispatchRoute;
    if n > 0 {
      var m := AllRoutes(w, day, now, n - 1);
      AllRoutesPools(w, day, now, n - 1);
      RoutesFromPools(m, day, now, n - 1, MaxCities);
      PoolsShrinkTrans(w, m, RoutesFrom(m, day, now, n - 1, MaxCities));
    }
  }

  /** The whole daily dispatch keeps the trips consistent with the parcels. */
  lemma {:induction false} AllRoutesConsistent(w: World, day: int, now: int, n: nat)
    requires PoolsOk(w) && n <= MaxCities
    requires Coherent(w)
    ensures Coherent(AllRoutes(w, day, now, n))
  {
    hide RoutesFrom;
    hide DispatchRoute;
    if n > 0 {
      AllRoutesConsistent(w, day, now, n - 1);
      RoutesFromConsistent(AllRoutes(w, day, now, n - 1), day, now, n - 1, MaxCities);
    }
  }

  /** The allocation chain on one city's counts of 300 kg buses, 600 kg
      buses and trucks: the first class that fits, and the counts left. */
  method Choose(load: int, b3: nat, b6: nat, tr: nat) returns (v: Option<Vehicle>, left: Pools)
    ensures v == Ladder(load, Pools(b3, b6, tr))
    ensures left == if v.Some? then Take(Pools(b3, b6, tr), v.value) else Pools(b3, b6, tr)
    ensures PoolsWithin(left, Pools(b3, b6, tr))
  {
    if load <= 300 && b3 > 0 {
      v, left := Some(Bus300), Pools(b3 - 1, b6, tr);
    } else if load <= 600 && b6 > 0 {
      v, left := Some(Bus600), Pools(b3, b6 - 1, tr);
    } else if load <= 900 && b6 > 0 && b3 > 0 {
      v, left := Some(Bus600Plus300), Pools(b3 - 1, b6 - 1, tr);
    } else if load <= 1200 && b6 >= 2 {
      v, left := Some(TwoBus600), Pools(b3, b6 - 2, tr);
    } else if load <= 2000 && tr > 0 {
      v, left := Some(Truck), Pools(b3, b6, tr - 1);
    } else if tr > 0 {
      v, left := Some(TruckConvoy), Pools(b3, b6, tr - 1);
    } else {
      v, left := None, Pools(b3, b6, tr);
    }
  }

  class Engine {
    const graph: Graph
    /** The parcel collection, in booking order; trips and the directory
        refer to parcels by index. */
    var parcels: seq<Parcel>
    const parcelMap: ParcelHashTable
    var trips: seq<Trip>
    const bus300: array<int>
    const bus600: array<int>
    const truck2000: array<int>
    var day: int
    var second: int
    var totalSeconds: int
    var totalLost: int
    /** The three pool arrays, read city by city. */
    ghost var pools: seq<Pools>

    ghost predicate PoolsInRange()
      reads bus300, bus600, truck2000
    {
      && bus300.Length == MaxCities && bus600.Length == MaxCities && truck2000.Length == MaxCities
      && bus300 != bus600 && bus600 != truck2000 && bus300 != truck2000
      && forall c :: 0 <= c < MaxCities ==>
           0 <= bus300[c] <= Bus300Fleet && 0 <= bus600[c] <= Bus600Fleet && 0 <= truck2000[c] <= TruckFleet
    }

    ghost predicate Valid()
      reads this, graph, graph.adj, parcelMap, parcelMap.table, bus300, bus600, truck2000
    {
      && graph.Valid()
      && parcelMap.Valid()
      && Indexed(parcels, parcelMap.entries)
      && Mirrored()
      && 1 <= day <= DaysPerCycle && 0 <= second < SecondsPerDay
      && 0 <= totalSeconds && 0 <= totalLost
      && Consistent(parcels, trips)
    }

    /** The state the dispatch steps act on. */
    ghost function State(): World
      reads this
    {
      World(parcels, trips, pools)
    }

    /** The vehicles city `c` has left. */
    ghost function PoolsAt(c: int): Pools
      reads bus300, bus600, truck2000
      requires PoolsInRange() && 0 <= c < MaxCities
    {
      Pools(bus300[c], bus600[c], truck2000[c])
    }

    /** `pools` holds what the arrays hold. */
    ghost predicate Mirrored()
      reads this, bus300, bus600, truck2000
    {
      && PoolsInRange() && |pools| == MaxCities
      && forall c :: 0 <= c < MaxCities ==> pools[c] == PoolsAt(c)
    }

    ghost predicate FullPools()
      reads bus300, bus600, truck2000
      requires PoolsInRange()
    {
      forall c :: 0 <= c < MaxCities ==> PoolsAt(c) == Pools(Bus300Fleet, Bus600Fleet, TruckFleet)
    }

    /** Day 1, second 0, no parcels, no trips, full pools. */
    constructor ()
      ensures Valid() && FullPools()
      ensures day == 1 && second == 0 && totalSeconds == 0 && totalLost == 0
      ensures parcels == [] && trips == []
    {
      graph := new Graph();
      parcelMap := new ParcelHashTable();
      bus300 := new int[MaxCities];
      bus600 := new int[MaxCities];
      truck2000 := new int[MaxCities];
      parcels := [];
      trips := [];
      day := 1;
      second := 0;
      totalSeconds := 0;
      totalLost := 0;
      new;
      ResetVehicles();
    }

    /** Refills every city's pools to the daily fleet. */
    method ResetVehicles()
      requires bus300.Length == MaxCities && bus600.Length == MaxCities && truck2000.Length == MaxCities
      requires bus300 != bus600 && bus600 != truck2000 && bus300 != truck2000
      modifies this`pools, bus300, bus600, truck2000
      ensures Mirrored() && FullPools()
    {
      var i := 0;
      while i < MaxCities
        invariant 0 <= i <= MaxCities
        invariant forall c :: 0 <= c < i ==> bus300[c] == Bus300Fleet && bus600[c] == Bus600Fleet && truck2000[c] == TruckFleet
      {
        bus300[i] := Bus300Fleet;
        bus600[i] := Bus600Fleet;
        truck2000[i] := TruckFleet;
        i := i + 1;
      }
      pools := seq(MaxCities, c => Pools(Bus300Fleet, Bus600Fleet, TruckFleet));
    }

    /** Books a parcel under the tracking id `id` (drawn at random by the
        caller). A parcel whose source and destination offices coincide is
        refused and nothing changes; otherwise a new Booked parcel is added
        to the collection and to the directory. */
    method Book(sC: int, sO: int, dC: int, dO: int, w: int, p: int, id: string) returns (booked: bool)
      requires Valid()
      modifies this, parcelMap, parcelMap.table
      ensures Valid()
      ensures booked <==> !(sC == dC && sO == dO)
      ensures parcels == old(parcels) + (if booked then [NewParcel(id, sC, sO, dC, dO, w, p, day)] else [])
      ensures trips == old(trips) && day == old(day) && second == old(second)
      ensures totalSeconds == old(totalSeconds) && totalLost == old(totalLost)
    {
      if sC == dC && sO == dO {
        return false;
      }
      var newP := NewParcel(id, sC, sO, dC, dO, w, p, day);
      BookKeepsConsistent(parcels, trips, newP);
      parcelMap.Insert(Entry(id, |parcels|));
      parcels := parcels + [newP];
      booked := true;
    }

    /** Cancels the parcel the directory finds under `id` if it is still
        Booked; any other status, or an unknown id, changes nothing. */
    method Undo(id: string) returns (outcome: UndoOutcome)
      requires Valid()
      modifies this`parcels
      ensures Valid()
      ensures match FirstWithId(old(parcels), id)
        case None => outcome == UndoNotFound && parcels == old(parcels)
        case Some(r) =>
          if old(parcels)[r].status == Booked then
            outcome == UndoDone && parcels == old(parcels)[r := old(parcels)[r].(status := Cancelled)]
          else
            outcome == UndoRefused(old(parcels)[r].status) && parcels == old(parcels)
    {
      var found := parcelMap.Search(id);
      DirectoryFindsFirst(parcels, parcelMap.entries, id);
      if found.Some? {
        var r := found.value;
        if parcels[r].status == Booked {
          CancelKeepsConsistent(parcels, trips, r);
          parcels := parcels[r := parcels[r].(status := Cancelled)];
          outcome := UndoDone;
        } else {
          outcome := UndoRefused(parcels[r].status);
        }
        return;
      }
      outcome := UndoNotFound;
    }

    /** The rollover clean-up: drops the finished trips, keeping the
        others in order. */
    method CleanFinishedTrips()
      requires Valid()
      modifies this`trips
      ensures Valid()
      ensures trips == Unfinished(old(trips))
    {
      var nextDayList := new LinkedList<Trip>();
      var i := 0;
      while i < |trips|
        invariant 0 <= i <= |trips|
        invariant nextDayList.Valid() && nextDayList.items == Unfinished(trips[..i])
        modifies nextDayList
      {
        assert trips[..i + 1][..i] == trips[..i];
        var t := trips[i];
        if !t.finished {
          nextDayList.Append(t);
        }
        i := i + 1;
      }
      assert trips[..i] == trips;
      CleanKeepsConsistent(parcels, trips);
      trips := nextDayList.items;
    }

    /** The arrival check: every unfinished trip that is due is marked
        finished and its parcels land, each LOST when its reference is in
        `lost` (the source's 0.5% roll) and Delivered otherwise. */
    method UpdateTrips(lost: set<nat>)
      requires Valid()
      modifies this`trips, this`parcels, this`totalLost
      ensures Valid()
      ensures trips == AdvanceAll(old(trips), totalSeconds)
      ensures parcels == Land(old(parcels), Arrivals(old(trips), totalSeconds), lost)
      ensures totalLost == old(totalLost) + LostCount(Arrivals(old(trips), totalSeconds), lost)
      ensures Progressed(old(parcels), parcels)
    {
      ghost var ts := trips;
      trips := ArriveAll(trips, lost);
      LostCountBounded(Arrivals(ts, totalSeconds), lost);
      ArrivalKeepsConsistent(old(parcels), ts, totalSeconds, lost);
    }

    /** The loop of the arrival check: checks every trip in order and
        returns the list of trips it rebuilds. */
    method ArriveAll(ts: seq<Trip>, lost: set<nat>) returns (next: seq<Trip>)
      requires TripsPointInto(ts, |parcels|)
      modifies this`parcels, this`totalLost
      ensures next == AdvanceAll(ts, totalSeconds)
      ensures parcels == Land(old(parcels), Arrivals(ts, totalSeconds), lost)
      ensures totalLost == old(totalLost) + LostCount(Arrivals(ts, totalSeconds), lost)
    {
      var nextList := new LinkedList<Trip>();
      var i := 0;
      while i < |ts|
        invariant 0 <= i <= |ts|
        invariant nextList.Valid() && nextList.items == AdvanceAll(ts[..i], totalSeconds)
        invariant parcels == Land(old(parcels), Arrivals(ts[..i], totalSeconds), lost)
        invariant totalLost == old(totalLost) + LostCount(Arrivals(ts[..i], totalSeconds), lost)
        invariant |parcels| == |old(parcels)|
        modifies this`parcels, this`totalLost, nextList
      {
        assert ts[..i + 1][..i] == ts[..i];
        ghost var before := Arrivals(ts[..i], totalSeconds);
        ghost var landing := if !ts[i].finished && Due(ts[i], totalSeconds) then ts[i].parcels else [];
        assert Arrivals(ts[..i + 1], totalSeconds) == before + landing;
        LandConcat(old(parcels), before, landing, lost);
        var t := CheckTrip(ts[i], lost);
        nextList.Append(t);
        i := i + 1;
      }
      assert ts[..i] == ts;
      next := nextList.items;
    }

    /** The arrival check of one trip: a finished trip or one still on the
        road is kept as it is; a due one is marked finished and its parcels
        land. */
    method CheckTrip(t: Trip, lost: set<nat>) returns (t': Trip)
      requires forall r :: r in t.parcels ==> r < |parcels|
      modifies this`parcels, this`totalLost
      ensures t' == Advance(t, totalSeconds)
      ensures var landing := if !t.finished && Due(t, totalSeconds) then t.parcels else [];
        && parcels == Land(old(parcels), landing, lost)
        && totalLost == old(totalLost) + LostCount(landing, lost)
    {
      if t.finished {
        t' := t;
      } else if totalSeconds - t.startTime >= t.distance * SecondsPerNode {
        LandTrip(t.parcels, lost);
        t' := t.(finished := true);
      } else {
        t' := t;
      }
    }

    /** The inner loop of the arrival check: lands the parcels of one trip. */
    method LandTrip(refs: seq<nat>, lost: set<nat>)
      requires forall r :: r in refs ==> r < |parcels|
      modifies this`parcels, this`totalLost
      ensures parcels == Land(old(parcels), refs, lost)
      ensures totalLost == old(totalLost) + LostCount(refs, lost)
    {
      var k := 0;
      while k < |refs|
        invariant 0 <= k <= |refs|
        invariant parcels == Land(old(parcels), refs[..k], lost)
        invariant totalLost == old(totalLost) + LostCount(refs[..k], lost)
        invariant |parcels| == |old(parcels)|
      {
        assert refs[..k + 1][..k] == refs[..k];
        var r := refs[k];
        assert r in refs;
        if r in lost {
          parcels := parcels[r := parcels[r].(status := Lost)];
          totalLost := totalLost + 1;
        } else {
          parcels := parcels[r := parcels[r].(status := Delivered)];
        }
        k := k + 1;
      }
      assert refs[..k] == refs;
    }

    /** The route length of the dispatch step: 5 within a city, otherwise
        the shortest path over the network. The route always exists, and
        since the shortest path never exceeds the direct road the reroute
        tag is never raised. */
    method RouteDistance(s: int, d: int) returns (dist: int, reroute: bool)
      requires Valid() && 0 <= s < MaxCities && 0 <= d < MaxCities
      ensures RouteLength(s, d, dist) && 0 <= dist < IntMax
      ensures dist == RouteDist(s, d)
      ensures !reroute
    {
      reroute := false;
      if s == d {
        dist := LocalDistance;
      } else {
        dist := graph.GetShortestPath(s, d);
        ShortestNeverExceedsDirect(s, d, dist);
        RouteLengthUnique(s, d, dist, RouteDist(s, d));
        var directDist := Weight(s, d);
        if dist != -1 && directDist > 0 && dist > directDist {
          reroute := true;
        }
      }
    }

    /** The allocation ladder on city `s`'s pools: takes the first vehicle
        class that fits the load, or nothing when none does. */
    method Allocate(s: int, load: int) returns (v: Option<Vehicle>)
      requires Mirrored() && 0 <= s < MaxCities
      modifies this`pools, bus300, bus600, truck2000
      ensures Mirrored()
      ensures v == Ladder(load, old(pools[s]))
      ensures v.Some? ==> pools == old(pools)[s := Take(old(pools[s]), v.value)]
      ensures v.None? ==> pools == old(pools)
    {
      var left: Pools;
      v, left := Choose(load, bus300[s], bus600[s], truck2000[s]);
      bus300[s], bus600[s], truck2000[s] := left.bus300, left.bus600, left.truck;
      pools := pools[s := left];
    }

    /** Sends a trip: every parcel of the batch goes In Transit, stamped
        with the current tick and the route distance, and a new unfinished
        trip carrying them, in order, joins the active trips. */
    method Commit(s: int, d: int, v: Vehicle, dist: int, refs: seq<nat>)
      requires Valid() && forall r :: r in refs ==> r < |parcels| && parcels[r].status == Booked
      requires forall r: nat :: multiset(refs)[r] <= 1
      modifies this`parcels, this`trips
      ensures Valid()
      ensures parcels == Board(old(parcels), refs, totalSeconds, dist)
      ensures trips == old(trips) + [Trip(s, d, v, dist, totalSeconds, false, refs)]
      ensures State() == old(State()).(parcels := parcels, trips := trips)
    {
      BoardKeepsIds(parcels, refs, totalSeconds, dist);
      BoardKeepsConsistent(parcels, trips, Trip(s, d, v, dist, totalSeconds, false, refs), totalSeconds);
      var tripParcels := BoardAll(refs, dist);
      trips := trips + [Trip(s, d, v, dist, totalSeconds, false, tripParcels)];
    }

    /** The loop of sending a trip: boards the parcels one by one and
        returns the trip's parcel list it builds. */
    method BoardAll(refs: seq<nat>, dist: int) returns (tripParcels: seq<nat>)
      requires forall r :: r in refs ==> r < |parcels|
      modifies this`parcels
      ensures parcels == Board(old(parcels), refs, totalSeconds, dist)
      ensures tripParcels == refs
    {
      var list := new LinkedList<nat>();
      var k := 0;
      while k < |refs|
        invariant 0 <= k <= |refs|
        invariant parcels == Board(old(parcels), refs[..k], totalSeconds, dist)
        invariant list.Valid() && list.items == refs[..k]
        modifies this`parcels, list
      {
        assert refs[..k + 1][..k] == refs[..k];
        var r := refs[k];
        assert r in refs;
        parcels := parcels[r := parcels[r].(status := InTransit, dispatchTime := totalSeconds,
                                            totalRouteDistance := dist)];
        list.Append(r);
        k := k + 1;
      }
      assert refs[..k] == refs;
      tripParcels := list.items;
    }
  
    /** The dispatch step for the route from `s` to `d`: plans the batch;
        with an empty batch nothing happens; otherwise the route is
        measured, the ladder picks a vehicle from `s`'s pools, and the
        batch is sent on it, or deferred when no class fits. */
    method DispatchPair(s: int, d: int) returns (outcome: RouteOutcome)
      requires Valid() && 0 <= s < MaxCities && 0 <= d < MaxCities
      modifies this`parcels, this`trips, this`pools, bus300, bus600, truck2000
      ensures Valid()
      ensures State() == DispatchRoute(old(State()), day, totalSeconds, s, d)
      ensures Launched(old(parcels), parcels, old(trips), trips, totalSeconds)
      ensures var b := PlannedBatch(old(parcels), s, d, day);
        match outcome
        case NoBatch => b.refs == []
        case Deferred(load) => b.refs != [] && load == b.load && Ladder(load, old(PoolsAt(s))).None?
        case Dispatched(v, dist, load, reroute) =>
          && b.refs != [] && load == b.load && Ladder(load, old(PoolsAt(s))) == Some(v)
          && dist == RouteDist(s, d) && !reroute
      ensures forall c :: 0 <= c < MaxCities && c != s ==> PoolsAt(c) == old(PoolsAt(c))
    {
      ghost var w := State();
      DispatchRouteLaunches(w, day, totalSeconds, s, d);
      DispatchRoutePools(w, day, totalSeconds, s, d);
      var batch := PlanBatch(parcels, s, d, day);
      if batch.refs == [] {
        return NoBatch;
      }
      outcome := SendBatch(s, d, batch);
    }

    /** The second half of the dispatch step, for a non-empty planned
        batch: measures the route, runs the ladder, and sends the trip or
        defers the batch. */
    method SendBatch(s: int, d: int, batch: Batch) returns (outcome: RouteOutcome)
      requires Valid() && 0 <= s < MaxCities && 0 <= d < MaxCities
      requires batch == PlannedBatch(parcels, s, d, day) && batch.refs != []
      modifies this`parcels, this`trips, this`pools, bus300, bus600, truck2000
      ensures Valid()
      ensures State() == DispatchRoute(old(State()), day, totalSeconds, s, d)
      ensures match outcome
        case NoBatch => false
        case Deferred(load) => load == batch.load && Ladder(load, old(PoolsAt(s))).None?
        case Dispatched(v, dist, load, reroute) =>
          load == batch.load && Ladder(load, old(PoolsAt(s))) == Some(v) && dist == RouteDist(s, d) && !reroute
    {
      var dist, reroute := RouteDistance(s, d);
      ghost var w := State();
      assert PoolOf(w, s) == PoolsAt(s);
      var v := Allocate(s, batch.load);
      if v.None? {
        DispatchRouteDefers(w, day, totalSeconds, s, d, batch);
        return Deferred(batch.load);
      }
      Launch(s, d, v.value, dist, batch, w);
      outcome := Dispatched(v.value, dist, batch.load, reroute);
    }

    /** The sending half of the dispatch step, once the ladder has taken
        vehicle `v` from `s`'s pools of state `w`. */
    method Launch(s: int, d: int, v: Vehicle, dist: int, batch: Batch, ghost w: World)
      requires Valid() && 0 <= s < MaxCities && 0 <= d < MaxCities && PoolsOk(w)
      requires w.parcels == parcels && w.trips == trips
      requires batch == PlannedBatch(parcels, s, d, day) && batch.refs != []
      requires Ladder(batch.load, PoolOf(w, s)) == Some(v) && dist == RouteDist(s, d)
      requires State() == WithPool(w, s, Take(PoolOf(w, s), v))
      modifies this`parcels, this`trips
      ensures Valid()
      ensures State() == DispatchRoute(w, day, totalSeconds, s, d)
    {
      PlannedAreWaiting(parcels, s, d, day);
      PlannedOnce(parcels, s, d, day);
      DispatchRouteSends(w, day, totalSeconds, s, d, batch, v);
      Commit(s, d, v, dist, batch.refs);
    }
  
    /** The daily dispatch at second 150: every route, source city by
        source city and destination by destination, gets a dispatch step,
        each seeing the parcels and pools the earlier ones left. */
    method DispatchLogic()
      requires Valid()
      modifies this`parcels, this`trips, this`pools, bus300, bus600, truck2000
      ensures Valid()
      ensures State() == AllRoutes(old(State()), day, totalSeconds, MaxCities)
      ensures Launched(old(parcels), parcels, old(trips), trips, totalSeconds)
      ensures forall c :: 0 <= c < MaxCities ==> PoolsWithin(PoolsAt(c), old(PoolsAt(c)))
    {
      hide RoutesFrom;
      hide DispatchRoute;
      ghost var w := State();
      var s := 0;
      while s < MaxCities
        invariant 0 <= s <= MaxCities && Valid()
        invariant State() == AllRoutes(w, day, totalSeconds, s)
      {
        DispatchFrom(s);
        s := s + 1;
      }
      AllRoutesLaunch(w, day, totalSeconds, MaxCities);
      AllRoutesPools(w, day, totalSeconds, MaxCities);
      assert forall c :: 0 <= c < MaxCities ==> PoolOf(State(), c) == PoolsAt(c) && PoolOf(w, c) == old(PoolsAt(c));
    }

    /** The dispatch steps of every route leaving city `s`, destination by
        destination. */
    method DispatchFrom(s: int)
      requires Valid() && 0 <= s < MaxCities
      modifies this`parcels, this`trips, this`pools, bus300, bus600, truck2000
      ensures Valid()
      ensures State() == RoutesFrom(old(State()), day, totalSeconds, s, MaxCities)
    {
      // The loop only chains the steps: what one step does is not needed.
      hide DispatchRoute;
      hide PlannedBatch;
      hide Ladder;
      hide Launched;
      ghost var w := State();
      var d := 0;
      while d < MaxCities
        invariant 0 <= d <= MaxCities && Valid()
        invariant State() == RoutesFrom(w, day, totalSeconds, s, d)
      {
        var outcome := DispatchPair(s, d);
        RoutesFromStep(w, day, totalSeconds, s, d);
        d := d + 1;
      }
    }
  
    /** The trips the arrival check of the tick after this state sees: on
        the last second of a day the rollover first drops the finished
        trips. */
    ghost function TripsBeforeArrivals(): seq<Trip>
      reads this
    {
      if second + 1 >= SecondsPerDay then Unfinished(trips) else trips
    }

    /** One tick of the background loop, with `lost` the references the
        loss roll hits: the clock advances; past the last second of a day
        the next day starts (day 5 is followed by day 1), finished trips
        are dropped and the pools refilled; then the arrival check runs,
        and at second 150 the daily dispatch. */
    method Tick(lost: set<nat>)
      requires Valid()
      modifies this, bus300, bus600, truck2000
      ensures Valid()
      ensures totalSeconds == old(totalSeconds) + 1
      ensures old(second) + 1 >= SecondsPerDay ==>
        second == 0 && day == (if old(day) == DaysPerCycle then 1 else old(day) + 1) && FullPools()
      ensures old(second) + 1 < SecondsPerDay ==> second == old(second) + 1 && day == old(day)
      ensures var arrivals := Arrivals(old(TripsBeforeArrivals()), totalSeconds);
        var landed := Land(old(parcels), arrivals, lost);
        var advanced := AdvanceAll(old(TripsBeforeArrivals()), totalSeconds);
        && totalLost == old(totalLost) + LostCount(arrivals, lost)
        && (second == DispatchSecond ==>
              && State() == AllRoutes(World(landed, advanced, old(pools)), day, totalSeconds, MaxCities)
              && Launched(landed, parcels, advanced, trips, totalSeconds))
        && (second != DispatchSecond ==> parcels == landed && trips == advanced)
      ensures Progressed(old(parcels), parcels)
      ensures second == DispatchSecond ==>
        forall c :: 0 <= c < MaxCities ==> PoolsWithin(PoolsAt(c), old(PoolsAt(c)))
      ensures 0 < second != DispatchSecond ==>
        forall c :: 0 <= c < MaxCities ==> PoolsAt(c) == old(PoolsAt(c))
    {
      AdvanceClock();
      UpdateTrips(lost);
      if second == DispatchSecond {
        ghost var landed := parcels;
        DispatchLogic();
        ProgressedTrans(old(parcels), landed, parcels);
      }
    }

    /** The clock part of a tick: one more second; past the last second of
        a day the next day starts (day 5 is followed by day 1), finished
        trips are dropped and the pools refilled. */
    method AdvanceClock()
      requires Valid()
      modifies this, bus300, bus600, truck2000
      ensures Valid()
      ensures totalSeconds == old(totalSeconds) + 1
      ensures parcels == old(parcels) && totalLost == old(totalLost)
      ensures trips == old(TripsBeforeArrivals())
      ensures old(second) + 1 >= SecondsPerDay ==>
        second == 0 && day == (if old(day) == DaysPerCycle then 1 else old(day) + 1) && FullPools()
      ensures old(second) + 1 < SecondsPerDay ==>
        && second == old(second) + 1 && day == old(day) && pools == old(pools)
        && forall c :: 0 <= c < MaxCities ==> PoolsAt(c) == old(PoolsAt(c))
    {
      second := second + 1;
      totalSeconds := totalSeconds + 1;
      if second >= SecondsPerDay {
        second := 0;
        day := day + 1;
        if day > DaysPerCycle {
          day := 1;
        }
        CleanFinishedTrips();
        ResetVehicles();
      }
    }
  
    /** The parcel counts of the state snapshot: how many parcels are
        Booked and how many In Transit. */
    method Counts() returns (booked: nat, transit: nat)
      ensures booked == CountOf(parcels, Booked) && transit == CountOf(parcels, InTransit)
      ensures booked + transit <= |parcels|
    {
      booked, transit := 0, 0;
      var i := 0;
      while i < |parcels|
        invariant 0 <= i <= |parcels|
        invariant booked == CountOf(parcels[..i], Booked) && transit == CountOf(parcels[..i], InTransit)
      {
        assert parcels[..i + 1][..i] == parcels[..i];
        if parcels[i].status == Booked {
          booked := booked + 1;
        }
        if parcels[i].status == InTransit {
          transit := transit + 1;
        }
        i := i + 1;
      }
      assert parcels[..i] == parcels;
      CountsBounded(parcels);
    }
  }
}
