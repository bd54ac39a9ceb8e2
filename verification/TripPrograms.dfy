/** What the modem is programmed with beside the reports: by a start, by a stop and by an engine restart, and
    whether any running trip would then be reported late.
 */
module TripPrograms {
  import opened OrderedMaps
  import opened Trips

  function Lesser(a: uint32, b: uint32): uint32 {
    if a < b then a else b
  }

  // ---------------------------------------------------------------- starts

  /** The first trip programs its own distance and interval. */
  lemma FirstStartPrograms(s: Batching, id: nat, distance: uint32, interval: uint32, odometer: uint32)
    requires s.trips == []
    ensures var (t, restarted) := Handle(s, Start(id, distance, interval, odometer));
            && restarted && t.distance == distance && t.interval == interval
            && t.trips == [Entry(id, Trip(0, 0, 0, distance, interval))]
  {
    assert Insert(Smaller, s.trips, id, Trip(0, 0, 0, distance, interval)) ==
           [Entry(id, Trip(0, 0, 0, distance, interval))];
  }

  /** A start beside running trips programs the lesser of the new trip's distance and what was left of the
      programmed one, and the lesser interval; if neither is less than what is programmed, it leaves the batch
      alone. */
  lemma StartProgramsTheLesser(s: Batching, id: nat, distance: uint32, interval: uint32, odometer: uint32)
    requires s.trips != []
    ensures var (t, restarted) := Handle(s, Start(id, distance, interval, odometer));
            var left := Minus(s.distance, odometer);
            && (restarted <==> distance < left || interval < s.interval)
            && t.distance == (if restarted then Lesser(distance, left) else s.distance)
            && t.interval == Lesser(interval, s.interval)
  {
  }

  /** The new trip is recorded as asked for, with nothing travelled when the modem goes on. */
  lemma StartEntersTheTrip(s: Batching, id: nat, distance: uint32, interval: uint32, odometer: uint32)
    ensures var (t, restarted) := Handle(s, Start(id, distance, interval, odometer));
            exists f: Trip :: Entry(id, f) in t.trips && f.distance == distance && f.interval == interval
                              && f.thisTrip == 0 && Travelled(f, if restarted then 0 else odometer) == 0
  {
    var (t, restarted) := Handle(s, Start(id, distance, interval, odometer));
    if s.trips == [] {
      FirstStartPrograms(s, id, distance, interval, odometer);
      assert t.trips[0] in t.trips;
    } else {
      var trip := Trip(odometer, 0, 0, distance, interval);
      var trips := Put(Smaller, s.trips, id, trip);
      PutMembers(Smaller, s.trips, id, trip);
      assert Entry(id, trip) in trips;
      var i :| 0 <= i < |trips| && trips[i] == Entry(id, trip);
      assert FoldAll(trips)[i] == Entry(id, Folded(trip));
      assert Entry(id, if restarted then Folded(trip) else trip) in t.trips;
    }
  }

  // ---------------------------------------------------------------- nobody is reported late

  /** What a trip has still to go. */
  function ToGo(t: Trip, odometer: uint32): int {
    t.distance - Travelled(t, odometer)
  }

  /** The programmed distance is reached no later than any trip is over. */
  ghost predicate OnTime(s: Batching, odometer: uint32) {
    forall e :: e in s.trips ==> s.distance - odometer <= ToGo(e.value, odometer)
  }

  /** The programmed distance is not used up, and every trip is under way with no more in its record than it has
      come. */
  ghost predicate UnderWay(s: Batching, odometer: uint32) {
    && odometer <= s.distance
    && forall e :: e in s.trips ==> e.value.thisTrip <= Travelled(e.value, odometer) < e.value.distance
  }

  /** A start keeps everybody on time, the new trip included. */
  lemma StartIsOnTime(s: Batching, id: nat, distance: uint32, interval: uint32, odometer: uint32)
    requires s.trips != [] ==> OnTime(s, odometer) && UnderWay(s, odometer)
    ensures var (t, restarted) := Handle(s, Start(id, distance, interval, odometer));
            OnTime(t, if restarted then 0 else odometer)
  {
    var (t, restarted) := Handle(s, Start(id, distance, interval, odometer));
    if s.trips == [] {
      FirstStartPrograms(s, id, distance, interval, odometer);
    } else {
      var trip := Trip(odometer, 0, 0, distance, interval);
      var trips := Put(Smaller, s.trips, id, trip);
      PutMembers(Smaller, s.trips, id, trip);
      StartProgramsTheLesser(s, id, distance, interval, odometer);
      forall e | e in t.trips ensures t.distance - (if restarted then 0 else odometer) <=
                                      ToGo(e.value, if restarted then 0 else odometer) {
        if restarted {
          var i :| 0 <= i < |t.trips| && t.trips[i] == e;
          assert e == Entry(trips[i].key, Folded(trips[i].value)) && trips[i] in trips;
        }
      }
    }
  }

  // ---------------------------------------------------------------- stops

  /** The trips that a stop leaves, and the flags it sets. */
  function Dropped(s: Batching, id: nat): Batching
    requires Has(s.trips, id)
  {
    s.(trips := Erase(s.trips, id),
       intervalDropped := s.intervalDropped || Lookup(s.trips, id).interval == s.interval,
       distanceDropped := s.distanceDropped || Lookup(s.trips, id).distance == s.distance)
  }

  /** The least distance that the records of the trips leave to go. */
  ghost predicate IsLeastRecorded(least: int, m: TripMap) {
    && (forall e :: e in m ==> least <= e.value.distance - e.value.thisTrip)
    && (exists e :: e in m && least == e.value.distance - e.value.thisTrip)
  }

  lemma LeastIsRecorded(m: TripMap)
    requires m != [] && forall e :: e in m ==> e.value.thisTrip < e.value.distance
    ensures LeastRemaining(m) > 0 && IsLeastRecorded(LeastRemaining(m), m)
  {
    LeastRemainingIsLeast(m);
  }

  /** The last stop leaves nothing programmed. */
  lemma LastStopEnds(s: Batching, id: nat, odometer: uint32)
    requires id in s.saved && Has(s.trips, id) && Erase(s.trips, id) == []
    ensures var (t, restarted) := Handle(s, Stop(id, odometer));
            restarted && t.trips == [] && t.distance == 0 && t.interval == 0
  {
  }

  /** A distance that no stop or completion has dropped is still being worked off. */
  predicate StillProgrammed(s: Batching, id: nat, odometer: uint32)
    requires Has(s.trips, id)
  {
    && !s.distanceDropped && Lookup(s.trips, id).distance != s.distance && odometer != s.distance
  }

  /** The others can do with a longer interval than the one programmed, which some trip that is gone had set. */
  predicate Slower(s: Batching, id: nat)
    requires Has(s.trips, id)
  {
    && LeastInterval(Erase(s.trips, id)) > s.interval
    && (s.intervalDropped || Lookup(s.trips, id).interval == s.interval)
  }

  /** The programmed distance is still being worked off and reached before the least that the records leave. */
  ghost predicate KeepsDistance(s: Batching, id: nat, odometer: uint32)
    requires Has(s.trips, id)
  {
    && StillProgrammed(s, id, odometer)
    && forall e :: e in Erase(s.trips, id) ==> Minus(s.distance, odometer) <= e.value.distance - e.value.thisTrip
  }

  /** What a stop programs. If the programmed distance was the stopped trip's, is used up or is more than the records
      leave to go, the batch is restarted with the least that they leave. Otherwise it is restarted only for a longer
      interval, and then with the same distance as before, from the beginning. */
  lemma StopPrograms(s: Batching, id: nat, odometer: uint32)
    requires id in s.saved && Has(s.trips, id) && Erase(s.trips, id) != []
    requires forall e :: e in Erase(s.trips, id) ==> e.value.thisTrip < e.value.distance
    requires s.interval <= LeastInterval(Erase(s.trips, id))
    ensures var (t, restarted) := Handle(s, Stop(id, odometer));
            && (restarted <==> !KeepsDistance(s, id, odometer) || Slower(s, id))
            && (if KeepsDistance(s, id, odometer) then t.distance == s.distance
                else IsLeastRecorded(t.distance, Erase(s.trips, id)))
            && t.interval == if Slower(s, id) then LeastInterval(Erase(s.trips, id)) else s.interval
  {
    LeastIsRecorded(Erase(s.trips, id));
  }

  /** While the others are on time, a distance that is still worked off is never more than the records leave. */
  lemma OnTimeKeepsDistance(s: Batching, id: nat, odometer: uint32)
    requires Has(s.trips, id) && OnTime(s, odometer) && UnderWay(s, odometer)
    ensures forall e :: e in Erase(s.trips, id) ==> e.value.thisTrip < e.value.distance
    ensures KeepsDistance(s, id, odometer) <==> StillProgrammed(s, id, odometer)
  {
    EraseMembers(s.trips, id);
    forall e | e in Erase(s.trips, id) ensures Minus(s.distance, odometer) <= e.value.distance - e.value.thisTrip {
      assert s.distance - odometer <= ToGo(e.value, odometer);
    }
  }

  lemma StopSettles(s: Batching, id: nat, odometer: uint32)
    requires id in s.saved && Has(s.trips, id)
    ensures var (t, restarted) := Handle(s, Stop(id, odometer));
            Carried(Erase(s.trips, id), odometer, t.trips, if restarted then 0 else odometer)
  {
    RestartCarries(Dropped(s, id), odometer);
  }

  lemma CarriedOnTime(m: TripMap, a: uint32, n: TripMap, b: uint32, distance: int)
    requires Carried(m, a, n, b)
    ensures (forall e :: e in n ==> distance <= ToGo(e.value, b)) <==>
            (forall e :: e in m ==> distance <= ToGo(e.value, a))
  {
    if forall e :: e in n ==> distance <= ToGo(e.value, b) {
      forall e | e in m ensures distance <= ToGo(e.value, a) {
        var i :| 0 <= i < |m| && m[i] == e;
        assert SameTrip(m[i], a, n[i], b) && n[i] in n;
      }
    }
    if forall e :: e in m ==> distance <= ToGo(e.value, a) {
      forall e | e in n ensures distance <= ToGo(e.value, b) {
        var i :| 0 <= i < |n| && n[i] == e;
        assert SameTrip(m[i], a, n[i], b) && m[i] in m;
      }
    }
  }

  /** Exactly when a stop keeps the others on time: if it leaves the batch alone, or if what it programs for the
      restart is no more than any of them has still to go. The records may be behind and the old distance is
      counted from the beginning again, so that neither need be the case. */
  lemma StopIsOnTimeExactly(s: Batching, id: nat, odometer: uint32, least: int)
    requires id in s.saved && Has(s.trips, id) && IsLeastRecorded(least, Erase(s.trips, id))
    requires OnTime(s, odometer) && UnderWay(s, odometer) && s.interval <= LeastInterval(Erase(s.trips, id))
    ensures var (t, restarted) := Handle(s, Stop(id, odometer));
            var still := StillProgrammed(s, id, odometer);
            OnTime(t, if restarted then 0 else odometer) <==>
            || (still && !Slower(s, id))
            || forall e :: e in Erase(s.trips, id) ==> (if still then s.distance else least) <= ToGo(e.value, odometer)
  {
    var (t, restarted) := Handle(s, Stop(id, odometer));
    EraseMembers(s.trips, id);
    OnTimeKeepsDistance(s, id, odometer);
    StopPrograms(s, id, odometer);
    StopSettles(s, id, odometer);
    CarriedOnTime(Erase(s.trips, id), odometer, t.trips, if restarted then 0 else odometer,
                  t.distance - if restarted then 0 else odometer);
  }

  /** Trips of 2000 m and 3000 m have come 400 m when the first one is stopped: 3000 m are programmed, although the
      second one has 2600 m to go. */
  lemma StopForgetsDistance()
    ensures var s := Run([Start(1, 2000, 5, 0), Start(2, 3000, 10, 0)]);
            var (t, restarted) := Handle(s, Stop(1, 400));
            && OnTime(s, 400) && restarted && t.distance == 3000
            && |t.trips| == 1 && t.trips[0].key == 2 && ToGo(t.trips[0].value, 0) == 2600
  {
    var msgs := [Start(1, 2000, 5, 0), Start(2, 3000, 10, 0)];
    var first, second := Trip(0, 0, 0, 2000, 5), Trip(0, 0, 0, 3000, 10);
    assert msgs[..1] == [Start(1, 2000, 5, 0)];
    FirstTrip(1, 2000, 5, 0);
    SecondTrip(Run(msgs[..1]), first, second);
    var s := Run(msgs);
    assert s == Batching([Entry(1, first), Entry(2, second)], {1}, 2000, 5, false, false);
    assert s.trips[0].key == 1;
    EraseTheFirst(s.trips, [Entry(2, second)]);
    assert [Entry(2, second)][..0] == [];
  }

  lemma EraseTheFirst(m: TripMap, rest: TripMap)
    requires |m| == 2 && rest == m[1..] && m[0].key == 1 && m[1].key != 1
    ensures Erase(m, 1) == rest
  {
    assert rest[1..] == [];
    assert Erase(rest, 1) == [rest[0]] + Erase(rest[1..], 1) == rest;
  }

  // ---------------------------------------------------------------- reports and engine restarts

  /** A report completes exactly the trips that have come their distance. */
  lemma {:induction false} CompletedExactly(m: TripMap, odometer: uint32, id: nat)
    ensures id in Completed(m, odometer) <==> exists e :: e in m && e.key == id && ToGo(e.value, odometer) <= 0
  {
    if m != [] {
      var n := |m| - 1;
      CompletedExactly(m[..n], odometer, id);
      assert m == m[..n] + [m[n]];
      assert m[n] in m;
    }
  }

  /** A report that completes no trip programs nothing, and one that completes the last leaves nothing
      programmed. */
  lemma ReportPrograms(s: Batching, odometer: uint32)
    ensures var (t, restarted) := Handle(s, Report(odometer));
            var done := Completed(s.trips, odometer);
            && (done == [] ==> !restarted && t.distance == s.distance && t.interval == s.interval)
            && (done != [] && t.trips == [] ==> restarted && t.distance == 0 && t.interval == 0)
  {
    SurvivorsAreRunning(s.trips, odometer);
  }

  /** The trip runs before the message and not after it. */
  predicate IsEnded(s: Batching, msg: Message, e: Entry<nat, Trip>) {
    e in s.trips && !Has(Handle(s, msg).0.trips, e.key)
  }

  lemma HasOfMembers(m: TripMap, id: nat)
    ensures Has(m, id) <==> exists e :: e in m && e.key == id
  {
    if i :| 0 <= i < |m| && m[i].key == id {
      assert m[i] in m;
    }
  }

  lemma KeyIsOne(m: TripMap, e: Entry<nat, Trip>, f: Entry<nat, Trip>)
    requires Distinct(m) && e in m && f in m && e.key == f.key
    ensures e == f
  {
    LookupFinds(m, e);
    LookupFinds(m, f);
  }

  lemma HasOfCarried(m: TripMap, a: uint32, n: TripMap, b: uint32, id: nat)
    requires Carried(m, a, n, b)
    ensures Has(n, id) <==> Has(m, id)
  {
    assert forall i :: 0 <= i < |m| ==> SameTrip(m[i], a, n[i], b);
    if i :| 0 <= i < |m| && m[i].key == id {
      assert n[i].key == id;
    }
    if i :| 0 <= i < |n| && n[i].key == id {
      assert m[i].key == id;
    }
  }

  /** A report ends exactly the trips that have come their distance. */
  lemma ReportEnds(s: Batching, odometer: uint32, e: Entry<nat, Trip>)
    requires Distinct(s.trips) && e in s.trips
    ensures IsEnded(s, Report(odometer), e) <==> IsDone(e.value, odometer)
  {
    var (t, restarted) := Handle(s, Report(odometer));
    var running := Running(s.trips, odometer);
    ReportConservesDistance(s, odometer);
    HasOfCarried(running, odometer, t.trips, if restarted then 0 else odometer, e.key);
    RunningMembers(s.trips, odometer);
    HasOfMembers(running, e.key);
    if f :| f in running && f.key == e.key {
      KeyIsOne(s.trips, e, f);
    }
  }

  /** A stop ends the one trip, if it started alone. */
  lemma StopEnds(s: Batching, id: nat, odometer: uint32, e: Entry<nat, Trip>)
    requires Distinct(s.trips) && e in s.trips
    ensures IsEnded(s, Stop(id, odometer), e) <==> id in s.saved && e.key == id
  {
    HasOfMembers(s.trips, e.key);
    if id in s.saved && Has(s.trips, id) {
      EraseMembers(s.trips, id);
      HasOfMembers(Erase(s.trips, id), e.key);
      StopSettles(s, id, odometer);
      var (t, restarted) := Handle(s, Stop(id, odometer));
      HasOfCarried(Erase(s.trips, id), odometer, t.trips, if restarted then 0 else odometer, e.key);
    }
  }

  lemma StartEndsNone(s: Batching, id: nat, distance: uint32, interval: uint32, odometer: uint32,
                      e: Entry<nat, Trip>)
    requires !Has(s.trips, id)
    ensures !IsEnded(s, Start(id, distance, interval, odometer), e)
  {
    if e in s.trips {
      StartConservesExactly(s, id, distance, interval, odometer, e);
      HasOfMembers(Handle(s, Start(id, distance, interval, odometer)).0.trips, e.key);
    }
  }

  /** Some trip that the message ends had the programmed distance. */
  ghost predicate EndsProgrammedDistance(s: Batching, msg: Message) {
    exists e :: IsEnded(s, msg, e) && e.value.distance == s.distance
  }

  ghost predicate EndsProgrammedInterval(s: Batching, msg: Message) {
    exists e :: IsEnded(s, msg, e) && e.value.interval == s.interval
  }

  lemma ReportDrops(s: Batching, odometer: uint32)
    requires Distinct(s.trips)
    ensures DropsDistance(s.trips, odometer, s.distance) <==> EndsProgrammedDistance(s, Report(odometer))
    ensures DropsInterval(s.trips, odometer, s.interval) <==> EndsProgrammedInterval(s, Report(odometer))
  {
    forall e | e in s.trips ensures IsEnded(s, Report(odometer), e) <==> IsDone(e.value, odometer) {
      ReportEnds(s, odometer, e);
    }
    forall i | 0 <= i < |s.trips| ensures s.trips[i] in s.trips {}
  }

  lemma StopDrops(s: Batching, id: nat, odometer: uint32)
    requires Distinct(s.trips) && id in s.saved && Has(s.trips, id)
    ensures Lookup(s.trips, id).distance == s.distance <==> EndsProgrammedDistance(s, Stop(id, odometer))
    ensures Lookup(s.trips, id).interval == s.interval <==> EndsProgrammedInterval(s, Stop(id, odometer))
  {
    var e := Entry(id, Lookup(s.trips, id));
    forall f | f in s.trips ensures IsEnded(s, Stop(id, odometer), f) <==> f.key == id {
      StopEnds(s, id, odometer, f);
    }
    forall f | f in s.trips && f.key == id ensures f == e {
      LookupFinds(s.trips, f);
    }
    HasOfMembers(s.trips, id);
  }

  /** The two flags record, for ever, that a trip was ended whose distance or interval was the programmed one. */
  lemma FlagsAreSetExactly(s: Batching, msg: Message)
    requires Distinct(s.trips) && (msg.Start? ==> !Has(s.trips, msg.id))
    ensures var t := Handle(s, msg).0;
            && (t.distanceDropped <==> s.distanceDropped || EndsProgrammedDistance(s, msg))
            && (t.intervalDropped <==> s.intervalDropped || EndsProgrammedInterval(s, msg))
  {
    match msg
    case Start(id, distance, interval, odometer) =>
      forall e ensures !IsEnded(s, msg, e) {
        StartEndsNone(s, id, distance, interval, odometer, e);
      }
    case Stop(id, odometer) =>
      if id in s.saved && Has(s.trips, id) {
        StopDrops(s, id, odometer);
      } else {
        forall e ensures !IsEnded(s, msg, e) {
          HasOfMembers(s.trips, e.key);
        }
      }
    case Report(odometer) => ReportDrops(s, odometer);
    case EngineRestart =>
      forall e ensures !IsEnded(s, msg, e) {
        HasOfMembers(s.trips, e.key);
      }
  }

  /** The least that the running trips have left to go is the least that the survivors' records leave. */
  lemma LeastSurvives(m: TripMap, odometer: uint32, least: int)
    requires IsLeastLeft(least, Running(m, odometer), odometer)
    ensures Survivors(m, odometer) != [] && LeastRemaining(Survivors(m, odometer)) == least > 0
  {
    var kept := Survivors(m, odometer);
    SurvivorsAreRunning(m, odometer);
    LeastRemainingIsLeastLeft(kept, odometer);
    CarriedLeast(least, Running(m, odometer), odometer, kept, odometer);
  }

  /** What a report programs that completes trips and leaves others, early or late: what was programmed, if that is
      still being worked off, no ended trip had it and it is reached no later than any trip is over; and otherwise
      exactly the least distance that any of them has left to go. */
  lemma ReportProgramsExactly(s: Batching, odometer: uint32, least: int)
    requires Completed(s.trips, odometer) != [] && IsLeastLeft(least, Running(s.trips, odometer), odometer)
    ensures var (t, restarted) := Handle(s, Report(odometer));
            var keeps := !t.distanceDropped && odometer != s.distance && Minus(s.distance, odometer) <= least;
            && t.distance == (if keeps then s.distance else least)
            && (!keeps ==> restarted)
  {
    LeastSurvives(s.trips, odometer, least);
  }

  /** A session is forgotten by the stop that finds no trip of it, and by nothing else; it is saved by the start that
      finds no trip at all. */
  lemma SavedFollows(s: Batching, msg: Message, id: nat)
    ensures id in Handle(s, msg).0.saved <==>
            if id in s.saved then !(msg.Stop? && msg.id == id && !Has(s.trips, id))
            else msg.Start? && msg.id == id && s.trips == []
  {
  }

  /** An engine restart programs the least distance that the records leave to go, and the least interval. */
  lemma EngineRestartPrograms(s: Batching)
    requires s.trips != [] && PositiveIntervals(s.trips)
    requires forall e :: e in s.trips ==> e.value.thisTrip < e.value.distance
    ensures var (t, restarted) := Handle(s, EngineRestart);
            && restarted && IsLeastRecorded(t.distance, s.trips)
            && (forall e :: e in s.trips ==> t.interval <= e.value.interval)
            && exists e :: e in s.trips && t.interval == e.value.interval
  {
    LeastIsRecorded(s.trips);
    LeastIntervalIsLeast(s.trips);
  }
}
