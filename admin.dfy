/** The monitoring side: the growable vector the admin panel is built on,
    the notification tail it shows, the progress bar of a trip and the
    trip lookup of a dashboard row. */
module Admin {
  import opened Parcels

  // ---------------------------------------------------------------------
  // The growable vector
  // ---------------------------------------------------------------------

  /** Capacity of a new vector. */
  const InitialCapacity := 10

  /** An array buffer of `capacity` slots of which the first `currentSize`
      are in use; a full buffer is replaced by one twice as large. */
  class Vector<T(0)> {
    var arr: array<T>
    var capacity: int
    var currentSize: int

    ghost predicate Valid()
      reads this
    {
      arr.Length == capacity && InitialCapacity <= capacity && 0 <= currentSize <= capacity
    }

    /** The elements in use, in index order. */
    ghost function Elements(): seq<T>
      reads this, arr
      requires Valid()
    {
      arr[..currentSize]
    }

    constructor ()
      ensures Valid() && fresh(arr)
      ensures capacity == InitialCapacity && Elements() == []
    {
      capacity := InitialCapacity;
      currentSize := 0;
      arr := new T[InitialCapacity];
    }

    /** The deep copy: a fresh buffer of the same capacity holding the same
        elements. */
    constructor Copy(other: Vector<T>)
      requires other.Valid()
      ensures Valid() && fresh(arr)
      ensures capacity == other.capacity && Elements() == other.Elements()
    {
      capacity := other.capacity;
      currentSize := other.currentSize;
      var a := new T[other.capacity];
      CopyPrefix(other.arr, a, other.currentSize);
      arr := a;
    }

    /** The copy loop shared by the deep copy, the assignment and the
        resize: the first `n` slots of `src` go to `dst`. */
    static method CopyPrefix(src: array<T>, dst: array<T>, n: int)
      requires 0 <= n <= src.Length && n <= dst.Length && src != dst
      modifies dst
      ensures dst[..n] == src[..n]
    {
      var i := 0;
      while i < n
        invariant 0 <= i <= n
        invariant dst[..i] == src[..i]
      {
        dst[i] := src[i];
        i := i + 1;
      }
    }

    /** The deep assignment: afterwards this vector holds `other`'s capacity
        and elements in a buffer of its own; assigning a vector to itself
        changes nothing. */
    method Assign(other: Vector<T>)
      requires Valid() && other.Valid()
      modifies this
      ensures Valid()
      ensures capacity == old(other.capacity) && Elements() == old(other.Elements())
      ensures other == this ==> arr == old(arr) && currentSize == old(currentSize)
      ensures other != this ==> fresh(arr)
    {
      if this != other {
        var a := new T[other.capacity];
        CopyPrefix(other.arr, a, other.currentSize);
        capacity := other.capacity;
        currentSize := other.currentSize;
        arr := a;
      }
    }

    /** Adds `val` after the last element, first doubling the capacity when
        the buffer is full. */
    method PushBack(val: T)
      requires Valid()
      modifies this, arr
      ensures Valid()
      ensures Elements() == old(Elements()) + [val]
      ensures arr == old(arr) || fresh(arr)
      ensures capacity == if old(currentSize) == old(capacity) then 2 * old(capacity) else old(capacity)
    {
      if currentSize == capacity {
        Resize();
      }
      arr[currentSize] := val;
      currentSize := currentSize + 1;
    }

    /** Doubles the capacity, keeping the elements. */
    method Resize()
      requires Valid()
      ensures Valid() && fresh(arr)
      modifies this
      ensures capacity == 2 * old(capacity) && Elements() == old(Elements())
    {
      var a := new T[2 * capacity];
      CopyPrefix(arr, a, currentSize);
      capacity := 2 * capacity;
      arr := a;
    }

    /** The element at `index`, which must be in use. */
    function Get(index: int): (r: T)
      reads this, arr
      requires Valid() && 0 <= index < currentSize
      ensures r == Elements()[index]
    {
      arr[index]
    }

    function Size(): (n: int)
      reads this, arr
      requires Valid()
      ensures n == |Elements()|
    {
      currentSize
    }

    function Empty(): (b: bool)
      reads this, arr
      requires Valid()
      ensures b <==> Elements() == []
    {
      currentSize == 0
    }
  }

  // ---------------------------------------------------------------------
  // The notification tail
  // ---------------------------------------------------------------------

  /** `pat` occurs in `line` at position `i`. */
  ghost predicate OccursAt(pat: string, line: string, i: int) {
    0 <= i && i + |pat| <= |line| && line[i..i + |pat|] == pat
  }

  /** The substring test the notification filter uses: whether `pat`
      occurs somewhere in `line` (an empty pattern occurs everywhere). */
  function Contains(pat: string, line: string): (b: bool)
    ensures b <==> exists i :: OccursAt(pat, line, i)
    decreases |line|
  {
    if |line| < |pat| then
      assert forall i :: !OccursAt(pat, line, i);
      false
    else if line[..|pat|] == pat then
      assert OccursAt(pat, line, 0);
      true
    else
      var b := Contains(pat, line[1..]);
      assert forall i :: OccursAt(pat, line[1..], i) <==> OccursAt(pat, line, i + 1) by {
        forall i
          ensures OccursAt(pat, line[1..], i) <==> OccursAt(pat, line, i + 1)
        {
          if 0 <= i && i + |pat| <= |line| - 1 {
            assert line[1..][i..i + |pat|] == line[i + 1..i + 1 + |pat|];
          }
        }
      }
      assert b ==> exists i :: OccursAt(pat, line, i) by {
        if b {
          var i :| OccursAt(pat, line[1..], i);
          assert OccursAt(pat, line, i + 1);
        }
      }
      assert (exists i :: OccursAt(pat, line, i)) ==> b by {
        if exists i :: OccursAt(pat, line, i) {
          var i :| OccursAt(pat, line, i);
          assert i != 0;
          assert OccursAt(pat, line[1..], i - 1);
        }
      }
      b
  }

  /** The tag a city's notifications carry. */
  function CityTag(city: string): string {
    "[" + city + "]"
  }

  /** A line the panel of `city` shows: tagged with the city or with the
      system tag. */
  predicate Relevant(line: string, city: string) {
    Contains(CityTag(city), line) || Contains("[SYSTEM]", line)
  }

  /** The relevant lines, in file order. */
  function Matching(lines: seq<string>, city: string): seq<string> {
    if lines == [] then []
    else
      var n := |lines| - 1;
      Matching(lines[..n], city) + (if Relevant(lines[n], city) then [lines[n]] else [])
  }

  /** The panel keeps exactly the relevant lines, and never more lines than
      the file has. */
  lemma {:induction false} MatchingSpec(lines: seq<string>, city: string)
    ensures forall x :: x in Matching(lines, city) <==> x in lines && Relevant(x, city)
    ensures |Matching(lines, city)| <= |lines|
  {
    if lines != [] {
      var n := |lines| - 1;
      MatchingSpec(lines[..n], city);
      assert lines == lines[..n] + [lines[n]];
    }
  }

  /** Matching is a filter: it distributes over the concatenation of two
      parts of the file. */
  lemma {:induction false} MatchingConcat(a: seq<string>, b: seq<string>, city: string)
    ensures Matching(a + b, city) == Matching(a, city) + Matching(b, city)
    decreases |b|
  {
    if b == [] {
      assert a + b == a;
    } else {
      var n := |b| - 1;
      assert (a + b)[..|a + b| - 1] == a + b[..n];
      MatchingConcat(a, b[..n], city);
    }
  }

  /** Matching is idempotent: filtering the kept lines again keeps them
      all. */
  lemma {:induction false} MatchingIdempotent(lines: seq<string>, city: string)
    ensures Matching(Matching(lines, city), city) == Matching(lines, city)
  {
    if lines != [] {
      var n := |lines| - 1;
      var m := Matching(lines[..n], city);
      MatchingIdempotent(lines[..n], city);
      var tail := if Relevant(lines[n], city) then [lines[n]] else [];
      MatchingConcat(m, tail, city);
      if Relevant(lines[n], city) {
        assert Matching(tail, city) == Matching([], city) + [lines[n]] by {
          assert tail[..0] == [];
        }
      }
    }
  }

  /** The number of lines the panel shows. */
  const TailLength := 5

  /** The last five lines, or all when there are fewer. */
  function LastFive(m: seq<string>): (r: seq<string>)
    ensures |r| == if |m| <= TailLength then |m| else TailLength
    ensures exists k :: 0 <= k <= |m| && r == m[k..]
  {
    if |m| <= TailLength then
      assert m == m[0..];
      m
    else m[|m| - TailLength..]
  }

  /** The notifications the panel of `city` shows, from the lines of the
      notification file (read by the caller): the relevant lines, and of
      those only the last five. */
  method GetLogs(file: seq<string>, city: string) returns (out: Vector<string>)
    ensures fresh(out) && out.Valid()
    ensures out.Elements() == LastFive(Matching(file, city))
  {
    var lines := CollectMatching(file, city);
    if lines.Size() <= TailLength {
      return lines;
    }
    out := CopyFrom(lines, lines.Size() - TailLength);
  }

  /** The filtering loop of the notification tail. */
  method CollectMatching(file: seq<string>, city: string) returns (lines: Vector<string>)
    ensures fresh(lines) && lines.Valid()
    ensures lines.Elements() == Matching(file, city)
  {
    lines := new Vector<string>();
    var tag := CityTag(city);
    var i := 0;
    while i < |file|
      invariant 0 <= i <= |file|
      invariant fresh(lines) && fresh(lines.arr) && lines.Valid()
      invariant lines.Elements() == Matching(file[..i], city)
    {
      assert file[..i + 1][..i] == file[..i];
      var line := file[i];
      if Contains(tag, line) || Contains("[SYSTEM]", line) {
        lines.PushBack(line);
      }
      i := i + 1;
    }
    assert file[..i] == file;
  }

  /** The slicing loop of the notification tail: a new vector holding the
      elements of `lines` from index `start` on. */
  method CopyFrom(lines: Vector<string>, start: int) returns (out: Vector<string>)
    requires lines.Valid() && 0 <= start <= lines.currentSize
    ensures fresh(out) && out.Valid()
    ensures out.Elements() == lines.Elements()[start..]
  {
    out := new Vector<string>();
    var j := start;
    while j < lines.Size()
      invariant start <= j <= lines.currentSize
      invariant fresh(out) && fresh(out.arr) && out.Valid()
      invariant out.Elements() == lines.Elements()[start..j]
    {
      out.PushBack(lines.Get(j));
      j := j + 1;
    }
  }

  // ---------------------------------------------------------------------
  // The progress bar
  // ---------------------------------------------------------------------

  /** Width of the bar in cells. */
  const BarCells := 10

  /** What a dashboard row shows for a trip: the arrived badge, or the
      percentage and the ten cells of the bar. */
  datatype Bar = Arrived | Moving(percent: int, cells: string)

  /** The bar for `current` km of `total`: a zero total counts as 1; at or
      past the total the trip shows as arrived; otherwise the integer
      percentage fills one `=` per full ten percent, then a `>`, then
      blanks. */
  function ProgressBar(current: int, total: int): (r: Bar)
    ensures var t := if total == 0 then 1 else total;
      r.Arrived? <==> current >= t
    ensures r.Moving? ==> |r.cells| == BarCells
  {
    var t := if total == 0 then 1 else total;
    if current >= t then Arrived
    else
      var percent := TruncDiv(current * 100, t);
      var bars := TruncDiv(percent, 10);
      Moving(percent, seq(BarCells, i => if i < bars then '=' else if i == bars then '>' else ' '))
  }

  /** For a trip under way (0 <= current < total) the percentage lies in
      [0, 100), the bar has exactly percent/10 `=` cells, followed by one
      `>` and then blanks. */
  lemma ProgressBarShape(current: int, total: int)
    requires 0 <= current < total
    ensures ProgressBar(current, total).Moving?
    ensures var r := ProgressBar(current, total);
      && 0 <= r.percent < 100
      && r.percent == current * 100 / total
      && forall i :: 0 <= i < BarCells ==>
           r.cells[i] == (if i < r.percent / 10 then '=' else if i == r.percent / 10 then '>' else ' ')
  {
    PercentBounds(current, total);
  }

  lemma PercentBounds(current: int, total: int)
    requires 0 <= current < total
    ensures TruncDiv(current * 100, total) == current * 100 / total
    ensures 0 <= current * 100 / total < 100
  {
    var a := current * 100;
    TruncDivOfNatural(a, total);
    MultiplyIsMonotonic(100, a / total, total);
  }

  /** The bar never moves backwards as a trip advances. */
  lemma ProgressIsMonotonic(c1: int, c2: int, total: int)
    requires 0 <= c1 <= c2 < total
    ensures ProgressBar(c1, total).percent <= ProgressBar(c2, total).percent
  {
    PercentBounds(c1, total);
    PercentBounds(c2, total);
    DivIsMonotonic(c1 * 100, c2 * 100, total);
  }

  lemma DivIsMonotonic(a: int, b: int, d: int)
    requires 0 <= a <= b && 0 < d
    ensures a / d <= b / d
  {
    var qa, qb := a / d, b / d;
    assert qa * d <= a && b < (qb + 1) * d;
    MultiplyIsMonotonic(qb + 1, qa, d);
  }

  lemma MultiplyIsMonotonic(x: int, y: int, d: int)
    requires 0 < d
    ensures x <= y ==> x * d <= y * d
  {
  }

  // ---------------------------------------------------------------------
  // The dashboard rows
  // ---------------------------------------------------------------------

  /** One trip line of the state snapshot. */
  datatype TripInfo = TripInfo(src: int, dest: int, vehicle: string, traveled: int, total: int)

  /** Trip `t` runs from `src` to `dest`. */
  predicate OnRoute(t: TripInfo, src: int, dest: int) {
    t.src == src && t.dest == dest
  }

  /** The trip the dashboard shows for the route from `src` to `dest`:
      the snapshot is scanned from the front and the scan stops at the
      first trip on the route. */
  function FindTrip(trips: seq<TripInfo>, src: int, dest: int): (r: Option<TripInfo>)
    ensures r.None? <==> forall t :: t in trips ==> !OnRoute(t, src, dest)
    ensures r.Some? ==> r.value in trips && OnRoute(r.value, src, dest)
  {
    if trips == [] then None
    else if OnRoute(trips[0], src, dest) then Some(trips[0])
    else
      assert forall t :: t in trips ==> t == trips[0] || t in trips[1..];
      FindTrip(trips[1..], src, dest)
  }

  /** The trip found is the first one on the route: every earlier trip
      runs elsewhere. */
  lemma {:induction false} FindTripIsFirst(trips: seq<TripInfo>, src: int, dest: int, k: nat)
    requires k < |trips| && OnRoute(trips[k], src, dest)
    requires forall j :: 0 <= j < k ==> !OnRoute(trips[j], src, dest)
    ensures FindTrip(trips, src, dest) == Some(trips[k])
  {
    if k > 0 {
      FindTripIsFirst(trips[1..], src, dest, k - 1);
    }
  }

  /** What a destination row of the dashboard shows. */
  datatype RouteView = Idle | Active(vehicle: string, bar: Bar)

  /** The row of destination `dest` on the panel of city `city`: the
      first matching trip with its bar, Idle when there is none. */
  function DestinationRow(trips: seq<TripInfo>, city: int, dest: int): (v: RouteView)
    ensures v.Idle? <==> forall t :: t in trips ==> !OnRoute(t, city, dest)
    ensures v.Active? ==>
      exists t :: t in trips && OnRoute(t, city, dest) && v == Active(t.vehicle, ProgressBar(t.traveled, t.total))
  {
    match FindTrip(trips, city, dest)
    case None => Idle
    case Some(t) => Active(t.vehicle, ProgressBar(t.traveled, t.total))
  }
}
