/** Entities of the dispatch engine: configuration constants, the parcel
    status machine, parcels, vehicle classes and trips. */
module Parcels {

  datatype Option<T> = None | Some(value: T)

  const MaxCities := 8
  const SecondsPerDay := 180
  const SecondsPerNode := 2
  const DaysPerCycle := 5
  const DispatchSecond := 150
  /** Route distance of a trip that stays inside one city. */
  const LocalDistance := 5

  /** The five status strings of the source: "Booked", "In Transit",
      "Delivered", "LOST", "Cancelled". */
  datatype Status = Booked | InTransit | Delivered | Lost | Cancelled

  /** One transition of the status machine. */
  predicate Step(a: Status, b: Status) {
    || (a == Booked && (b == Cancelled || b == InTransit))
    || (a == InTransit && (b == Delivered || b == Lost))
  }

  /** Position of a status along the machine; every step raises it. */
  function Rank(s: Status): (r: nat)
    ensures r <= 2
    ensures r == 0 <==> s == Booked
  {
    match s
    case Booked => 0
    case InTransit => 1
    case _ => 2
  }

  lemma StepRaisesRank(a: Status, b: Status)
    requires Step(a, b)
    ensures Rank(a) < Rank(b)
  {
  }

  /** `b` is reachable from `a` in zero or more steps. */
  predicate Succeeds(a: Status, b: Status) {
    a == b || Step(a, b) || (a == Booked && (b == Delivered || b == Lost))
  }

  /** A history of statuses where each entry is one step after the previous. */
  predicate IsTrace(h: seq<Status>) {
    forall i :: 0 < i < |h| ==> Step(h[i - 1], h[i])
  }

  /** Along a trace the rank strictly grows: no status ever comes back,
      so no transition moves a parcel backwards. */
  lemma {:induction false} TraceIsMonotonic(h: seq<Status>, i: nat, j: nat)
    requires IsTrace(h) && i < j < |h|
    ensures Rank(h[i]) < Rank(h[j]) && h[i] != h[j]
  {
    StepRaisesRank(h[j - 1], h[j]);
    if i < j - 1 {
      TraceIsMonotonic(h, i, j - 1);
    }
  }

  /** Every history has at most three entries, and its end is reachable
      from its start. */
  lemma {:induction false} TraceIsShortAndReachable(h: seq<Status>)
    requires IsTrace(h) && |h| > 0
    ensures |h| <= 3
    ensures Succeeds(h[0], h[|h| - 1])
  {
    if |h| > 3 {
      TraceIsMonotonic(h, 0, 1);
      TraceIsMonotonic(h, 1, 2);
      TraceIsMonotonic(h, 2, 3);
      assert false;
    }
    if |h| == 3 {
      assert Step(h[0], h[1]) && Step(h[1], h[2]);
    }
  }

  /** `Succeeds` is exactly reachability along the status machine: `b`
      succeeds `a` iff some history leads from `a` to `b`. */
  lemma SucceedsIsReachability(a: Status, b: Status)
    ensures Succeeds(a, b) <==> exists h :: IsTrace(h) && |h| > 0 && h[0] == a && h[|h| - 1] == b
  {
    if Succeeds(a, b) {
      var h := if a == b then [a] else if Step(a, b) then [a, b] else [a, InTransit, b];
      assert IsTrace(h) && |h| > 0 && h[0] == a && h[|h| - 1] == b;
    }
    forall h | IsTrace(h) && |h| > 0 && h[0] == a && h[|h| - 1] == b
      ensures Succeeds(a, b)
    {
      TraceIsShortAndReachable(h);
    }
  }

  /** `Succeeds` never relates two distinct statuses both ways. */
  lemma SucceedsIsAntisymmetric(a: Status, b: Status)
    requires Succeeds(a, b) && Succeeds(b, a)
    ensures a == b
  {
  }

  datatype Parcel = Parcel(
    id: string,
    srcCity: int, srcOffice: int,
    destCity: int, destOffice: int,
    weight: int,
    priority: int,            // 1 = overnight, 2 = two-day, 3 = normal
    status: Status,
    bookingDay: int,
    dispatchTime: int,        // absolute tick of dispatch, 0 before
    totalRouteDistance: int)  // route distance once dispatched, 0 before

  /** The Parcel constructor of the source: a new parcel is Booked with no
      dispatch time and no route distance. */
  function NewParcel(id: string, sC: int, sO: int, dC: int, dO: int, w: int, p: int, d: int): (r: Parcel)
    ensures r.status == Booked && r.dispatchTime == 0 && r.totalRouteDistance == 0
    ensures r.id == id && r.bookingDay == d && r.weight == w && r.priority == p
    ensures r.srcCity == sC && r.srcOffice == sO && r.destCity == dC && r.destOffice == dO
  {
    Parcel(id, sC, sO, dC, dO, w, p, Booked, d, 0, 0)
  }

  /** Vehicle classes, in the order of the allocation ladder. */
  datatype Vehicle = Bus300 | Bus600 | Bus600Plus300 | TwoBus600 | Truck | TruckConvoy {
    /** The vehicle label the source stores in a trip. */
    function Label(): string {
      match this
      case Bus300 => "Bus-300"
      case Bus600 => "Bus-600"
      case Bus600Plus300 => "Bus-600+300"
      case TwoBus600 => "2xBus-600"
      case Truck => "Truck"
      case TruckConvoy => "Truck+Convoy"
    }
  }

  /** A vehicle departure. `parcels` holds references (indices into the
      engine's parcel collection) in the order they were loaded. */
  datatype Trip = Trip(
    src: int, dest: int,
    vehicle: Vehicle,
    distance: int,
    startTime: int,
    finished: bool,
    parcels: seq<nat>)

  /** The arrival test of the trip advancement step. */
  predicate Due(t: Trip, now: int) {
    now - t.startTime >= t.distance * SecondsPerNode
  }

  function Abs(x: int): nat {
    if x < 0 then -x else x
  }

  /** Integer division truncating toward zero, as C++ `/` on `int` and a
      cast to int do: the remainder takes the sign of the dividend and is
      smaller than the divisor in magnitude. */
  function TruncDiv(a: int, b: int): (q: int)
    requires b != 0
    ensures a >= 0 ==> 0 <= a - q * b < Abs(b)
    ensures a < 0 ==> 0 <= q * b - a < Abs(b)
  {
    if a >= 0 && b > 0 then
      a / b
    else if a >= 0 then
      var n := a / -b;
      assert -n * b == n * -b by { NegateFactor(n, b); }
      -n
    else if b > 0 then
      var n := -a / b;
      assert -n * b == -(n * b) by { NegateFactor(n, b); }
      -n
    else
      var n := -a / -b;
      assert n * b == -(n * -b) by { NegateFactor(n, -b); }
      n
  }

  lemma NegateFactor(u: int, v: int)
    ensures -u * v == u * -v == -(u * v)
  {
  }

  /** On a dividend and divisor that are both positive, truncation and
      Dafny's division agree. */
  lemma TruncDivOfNatural(a: int, b: int)
    requires a >= 0 && b > 0
    ensures TruncDiv(a, b) == a / b
  {
  }

  /** Distance a trip has covered at tick `now`, as the snapshot writes it:
      half the elapsed ticks, clamped to the trip's distance, truncated. */
  function Traveled(t: Trip, now: int): int {
    var elapsed := now - t.startTime;
    if elapsed > t.distance * SecondsPerNode then t.distance
    else TruncDiv(elapsed, SecondsPerNode)
  }

  /** The covered distance of a started trip lies in [0, distance] and
      reaches the full distance exactly when the trip is due to arrive. */
  lemma TraveledBounds(t: Trip, now: int)
    requires t.startTime <= now && t.distance >= 0
    ensures 0 <= Traveled(t, now) <= t.distance
    ensures Traveled(t, now) == t.distance <==> Due(t, now)
  {
  }
}
