/** The trip multiplexer in its own form: trip records updated in place by loops, and completed trips
    erased while the loop walks on. Every method is proved to do what the function of Trips says;
    `restarted` tells whether it restarted the batch, which puts the modem's odometer back to zero.
 */
module TripAdapter {
  import opened OrderedMaps
  import opened Trips

  predicate DoneAt(m: TripMap, i: nat, odometer: uint32)
    requires i < |m|
  {
    IsDone(m[i].value, odometer)
  }

  /** The trip at `i` brought up to date: erased when it is done, replaced otherwise. */
  function AdvanceAt(b: Batching, i: nat, odometer: uint32): Batching
    requires i < |b.trips|
  {
    var e := b.trips[i];
    if DoneAt(b.trips, i, odometer) then
      b.(trips := b.trips[..i] + b.trips[i + 1..],
         intervalDropped := b.intervalDropped || e.value.interval == b.interval,
         distanceDropped := b.distanceDropped || e.value.distance == b.distance)
    else b.(trips := b.trips[i := Entry(e.key, e.value.(thisTrip := Travelled(e.value, odometer)))])
  }

  /** What the loop still has to do from position `i` on. */
  function Walk(b: Batching, i: nat, completed: seq<nat>, odometer: uint32): (Batching, seq<nat>)
    requires i <= |b.trips|
    decreases |b.trips| - i
  {
    if i == |b.trips| then (b, completed)
    else if DoneAt(b.trips, i, odometer)
    then Walk(AdvanceAt(b, i, odometer), i, completed + [b.trips[i].key], odometer)
    else Walk(AdvanceAt(b, i, odometer), i + 1, completed, odometer)
  }

  /** The loop after the first `n` trips: the survivors among them stay in front of the others. */
  function Past(was: Batching, n: nat, odometer: uint32): Batching
    requires n <= |was.trips|
  {
    Advanced(was.(trips := was.trips[..n]), odometer)
    .(trips := Survivors(was.trips[..n], odometer) + was.trips[n..])
  }

  /** Behind a prefix, an element is erased or replaced. */
  lemma EraseOrReplace(kept: TripMap, rest: TripMap, e: Entry<nat, Trip>)
    requires rest != []
    ensures (kept + rest)[|kept|] == rest[0]
    ensures (kept + rest)[..|kept|] + (kept + rest)[|kept| + 1..] == kept + rest[1..]
    ensures (kept + rest)[|kept| := e] == (kept + [e]) + rest[1..]
  {
  }

  lemma AdvancePast(was: Batching, n: nat, odometer: uint32)
    requires n < |was.trips|
    ensures var at := |Survivors(was.trips[..n], odometer)|;
            at < |Past(was, n, odometer).trips| && Past(was, n, odometer).trips[at] == was.trips[n]
            && AdvanceAt(Past(was, n, odometer), at, odometer) == Past(was, n + 1, odometer)
  {
    var e := was.trips[n];
    OneMore(was.trips, n, odometer);
    DropsOneMore(was.trips, n, odometer, was.interval, was.distance);
    EraseOrReplace(Survivors(was.trips[..n], odometer), was.trips[n..],
                   Entry(e.key, e.value.(thisTrip := Travelled(e.value, odometer))));
    assert was.trips[n..][1..] == was.trips[n + 1..];
  }

  lemma {:induction false} WalkAdvances(was: Batching, n: nat, odometer: uint32)
    requires n <= |was.trips|
    ensures Walk(Past(was, n, odometer), |Survivors(was.trips[..n], odometer)|,
                 Completed(was.trips[..n], odometer), odometer)
            == (Advanced(was, odometer), Completed(was.trips, odometer))
    decreases |was.trips| - n
  {
    if n < |was.trips| {
      AdvancePast(was, n, odometer);
      OneMore(was.trips, n, odometer);
      var found, more := Completed(was.trips[..n], odometer), Completed(was.trips[..n + 1], odometer);
      assert more == if IsDone(was.trips[n].value, odometer) then found + [was.trips[n].key] else found;
      WalkAdvances(was, n + 1, odometer);
    } else {
      assert was.trips[..n] == was.trips && was.trips[n..] == [];
      assert Past(was, n, odometer) == Advanced(was, odometer);
    }
  }

  lemma WalkFromStart(was: Batching, odometer: uint32)
    ensures Walk(was, 0, [], odometer) == (Advanced(was, odometer), Completed(was.trips, odometer))
  {
    WalkAdvances(was, 0, odometer);
    assert Past(was, 0, odometer) == was;
  }

  lemma OneMore(was: TripMap, seen: nat, odometer: uint32)
    requires seen < |was|
    ensures var t := was[seen].value.(thisTrip := Travelled(was[seen].value, odometer));
            Survivors(was[..seen + 1], odometer) == Survivors(was[..seen], odometer) +
              (if IsDone(was[seen].value, odometer) then [] else [Entry(was[seen].key, t)])
    ensures Completed(was[..seen + 1], odometer) == Completed(was[..seen], odometer) +
              (if IsDone(was[seen].value, odometer) then [was[seen].key] else [])
  {
    assert was[..seen + 1][..seen] == was[..seen];
  }

  lemma DropsOneMore(was: TripMap, seen: nat, odometer: uint32, interval: uint32, distance: uint32)
    requires seen < |was|
    ensures DropsInterval(was[..seen + 1], odometer, interval) <==>
            DropsInterval(was[..seen], odometer, interval) ||
            (IsDone(was[seen].value, odometer) && was[seen].value.interval == interval)
    ensures DropsDistance(was[..seen + 1], odometer, distance) <==>
            DropsDistance(was[..seen], odometer, distance) ||
            (IsDone(was[seen].value, odometer) && was[seen].value.distance == distance)
  {
    assert was[..seen + 1][seen] == was[seen];
    assert forall i :: 0 <= i < seen ==> was[..seen + 1][i] == was[..seen][i];
  }

  class BatchingAdapter {
    var trips: TripMap
    var saved: set<nat>
    var ongoingDistance: uint32
    var ongoingInterval: uint32
    var intervalDropped: bool
    var distanceDropped: bool

    function Value(): Batching
      reads this
    {
      Batching(trips, saved, ongoingDistance, ongoingInterval, intervalDropped, distanceDropped)
    }

    constructor ()
      ensures Value() == IDLE
    {
      trips, saved, ongoingDistance, ongoingInterval := [], {}, 0, 0;
      intervalDropped, distanceDropped := false, false;
    }

    /** The loop that brings every trip up to date, erasing and listing the completed ones. */
    method AdvanceTrips(odometer: uint32) returns (completed: seq<nat>)
      modifies this`trips, this`intervalDropped, this`distanceDropped
      ensures Value() == Advanced(old(Value()), odometer)
      ensures completed == Completed(old(trips), odometer)
    {
      completed := [];
      var i := 0;
      ghost var goal := Walk(Value(), 0, [], odometer);
      while i < |trips|
        invariant i <= |trips|
        invariant Walk(Value(), i, completed, odometer) == goal
        decreases |trips| - i
      {
        var e := trips[i];
        var trip := e.value.(thisTrip := Plus(e.value.onRestart, Minus(odometer, e.value.ongoingBatch)));
        if trip.distance <= trip.thisTrip {
          completed := completed + [e.key];
          trips := trips[..i] + trips[i + 1..];
          intervalDropped := intervalDropped || trip.interval == ongoingInterval;
          distanceDropped := distanceDropped || trip.distance == ongoingDistance;
        } else {
          trips := trips[i := Entry(e.key, trip)];
          i := i + 1;
        }
      }
      WalkFromStart(old(Value()), odometer);
    }

    method ReportCompletedTrips(odometer: uint32) returns (restarted: bool)
      modifies this
      ensures (Value(), restarted) == Handle(old(Value()), Report(odometer))
    {
      var completed := AdvanceTrips(odometer);
      restarted := false;
      if |completed| > 0 {
        restarted := RestartTripBatching(odometer);
      }
    }

    method FindLeast() returns (remaining: uint32, interval: uint32)
      ensures remaining == LeastRemaining(trips) && interval == LeastInterval(trips)
    {
      remaining, interval := 0, 0;
      for i := 0 to |trips|
        invariant remaining == LeastRemaining(trips[..i]) && interval == LeastInterval(trips[..i])
      {
        assert trips[..i + 1][..i] == trips[..i];
        var t := trips[i].value;
        if remaining == 0 || remaining > Minus(t.distance, t.thisTrip) {
          remaining := Minus(t.distance, t.thisTrip);
        }
        if interval == 0 || interval > t.interval {
          interval := t.interval;
        }
      }
      assert trips[..|trips|] == trips;
    }

    method SettleTrips(odometer: uint32)
      modifies this`trips
      ensures trips == SettleAll(old(trips), odometer)
    {
      for i := 0 to |trips|
        invariant |trips| == |old(trips)|
        invariant forall j :: 0 <= j < i ==> trips[j] == SettleAll(old(trips), odometer)[j]
        invariant forall j :: i <= j < |trips| ==> trips[j] == old(trips)[j]
      {
        var t := trips[i].value;
        var far := Plus(t.onRestart, Minus(odometer, t.ongoingBatch));
        trips := trips[i := Entry(trips[i].key, t.(thisTrip := far, ongoingBatch := 0, onRestart := far))];
      }
    }

    method FoldTrips()
      modifies this`trips
      ensures trips == FoldAll(old(trips))
    {
      for i := 0 to |trips|
        invariant |trips| == |old(trips)|
        invariant forall j :: 0 <= j < i ==> trips[j] == FoldAll(old(trips))[j]
        invariant forall j :: i <= j < |trips| ==> trips[j] == old(trips)[j]
      {
        var t := trips[i].value;
        trips := trips[i := Entry(trips[i].key, t.(ongoingBatch := 0, onRestart := t.thisTrip))];
      }
    }

    method RestartTripBatching(odometer: uint32) returns (restarted: bool)
      modifies this`trips, this`ongoingDistance, this`ongoingInterval
      ensures (Value(), restarted) == RestartTrips(old(Value()), odometer)
    {
      if trips == [] {
        ongoingDistance, ongoingInterval := 0, 0;
        return true;
      }
      var minRemaining, minInterval := FindLeast();
      var distance, interval := ongoingDistance, ongoingInterval;
      restarted := false;
      if !distanceDropped && Minus(distance, odometer) != 0 {
        if minRemaining < Minus(distance, odometer) {
          distance, restarted := minRemaining, true;
        }
      } else if minRemaining != 0 {
        distance, restarted := minRemaining, true;
      }
      if minInterval < interval || (minInterval != interval && intervalDropped) {
        interval, restarted := minInterval, true;
      }
      assert (distance, interval, restarted) == Plan(Value(), odometer);
      if restarted {
        SettleTrips(odometer);
        ongoingDistance, ongoingInterval := distance, interval;
      }
    }

    method StartTripBatchingMultiplex(id: nat, distance: uint32, interval: uint32, odometer: uint32)
      returns (restarted: bool)
      modifies this
      ensures (Value(), restarted) == Handle(old(Value()), Start(id, distance, interval, odometer))
    {
      if |trips| == 0 {
        saved := saved + {id};
        trips := Put(Smaller, trips, id, Trip(0, 0, 0, distance, interval));
        ongoingDistance, ongoingInterval := distance, interval;
        return true;
      }
      var newDistance, newInterval := ongoingDistance, ongoingInterval;
      restarted := false;
      if newInterval > interval {
        newInterval, restarted := interval, true;
      }
      var remaining := Minus(newDistance, odometer);
      if distance < remaining {
        newDistance, restarted := distance, true;
      } else if restarted {
        newDistance := remaining;
      }
      trips := Put(Smaller, trips, id, Trip(odometer, 0, 0, distance, interval));
      if restarted {
        ongoingDistance, ongoingInterval := newDistance, newInterval;
        FoldTrips();
      }
    }

    method StopBatching(id: nat, odometer: uint32) returns (restarted: bool)
      modifies this
      ensures (Value(), restarted) == Handle(old(Value()), Stop(id, odometer))
    {
      restarted := false;
      if id in saved {
        if Has(trips, id) {
          restarted := StopTripBatchingMultiplex(id, odometer);
        } else {
          saved := saved - {id};
        }
      }
    }

    method StopTripBatchingMultiplex(id: nat, odometer: uint32) returns (restarted: bool)
      requires Has(trips, id)
      modifies this
      ensures (Value(), restarted) == StopTrip(old(Value()), id, odometer)
    {
      var was := Lookup(trips, id);
      if was.interval == ongoingInterval {
        intervalDropped := true;
      }
      if was.distance == ongoingDistance {
        distanceDropped := true;
      }
      trips := Erase(trips, id);
      if |trips| == 0 {
        ongoingDistance, ongoingInterval := 0, 0;
        restarted := true;
      } else {
        restarted := RestartTripBatching(odometer);
      }
    }

    method RestartSessions() returns (restarted: bool)
      modifies this
      ensures (Value(), restarted) == Handle(old(Value()), EngineRestart)
    {
      restarted := false;
      if |trips| > 0 {
        ongoingDistance, ongoingInterval := 0, 0;
        for i := 0 to |trips|
          invariant Value() == old(Value()).(distance := ongoingDistance, interval := ongoingInterval)
          invariant i <= |trips|
          invariant ongoingDistance == LeastRemaining(trips[..i]) && ongoingInterval == LeastInterval(trips[..i])
        {
          assert trips[..i + 1][..i] == trips[..i];
          var copy := trips[i].value;
          if ongoingDistance == 0 || ongoingDistance > Minus(copy.distance, copy.thisTrip) {
            ongoingDistance := Minus(copy.distance, copy.thisTrip);
          }
          if ongoingInterval == 0 || ongoingInterval > copy.interval {
            ongoingInterval := copy.interval;
          }
          copy := copy.(ongoingBatch := 0);
        }
        assert trips[..|trips|] == trips;
        restarted := true;
      }
    }
  }
}
