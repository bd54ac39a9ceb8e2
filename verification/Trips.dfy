/** Many outdoor trips, one modem odometer: the distance the modem has come since it was last (re)started,
    as it reports or answers it. Distances are 32-bit and wrap.
 */
module Trips {
  import opened OrderedMaps

  const WIDTH := 0x1_0000_0000

  type uint32 = x: nat | x < 0x1_0000_0000

  /** Unsigned 32-bit addition and subtraction: results wrap around the width. */
  function Plus(a: uint32, b: uint32): uint32 {
    if a + b < WIDTH then a + b else a + b - WIDTH
  }

  function Minus(a: uint32, b: uint32): uint32 {
    if a >= b then a - b else a + WIDTH - b
  }

  datatype Trip = Trip(ongoingBatch: uint32, thisTrip: uint32, onRestart: uint32, distance: uint32, interval: uint32)

  type TripMap = seq<Entry<nat, Trip>>

  /** `saved` are the trip sessions in the map of batching sessions, which commands look up first. */
  datatype Batching = Batching(
    trips: TripMap, saved: set<nat>, distance: uint32, interval: uint32,
    intervalDropped: bool, distanceDropped: bool)

  /** A message, with the odometer it reads. Modem calls succeed and are answered at once. */
  datatype Message =
    | Start(id: nat, distance: uint32, interval: uint32, odometer: uint32)
    | Stop(id: nat, odometer: uint32)
    | Report(odometer: uint32)
    | EngineRestart

  predicate Smaller(a: nat, b: nat) {
    a < b
  }

  /** How far a trip has come when the odometer shows this. */
  function Travelled(t: Trip, odometer: uint32): uint32 {
    Plus(t.onRestart, Minus(odometer, t.ongoingBatch))
  }

  predicate IsDone(t: Trip, odometer: uint32) {
    t.distance <= Travelled(t, odometer)
  }

  function Remaining(t: Trip): uint32 {
    Minus(t.distance, t.thisTrip)
  }

  // ---------------------------------------------------------------- loops over the trips

  function LeastRemaining(m: TripMap): uint32 {
    if m == [] then 0
    else
      var least := LeastRemaining(m[..|m|-1]);
      var r := Remaining(m[|m|-1].value);
      if least == 0 || least > r then r else least
  }

  function LeastInterval(m: TripMap): uint32 {
    if m == [] then 0
    else
      var least := LeastInterval(m[..|m|-1]);
      var i := m[|m|-1].value.interval;
      if least == 0 || least > i then i else least
  }

  /** The trips that a report leaves running, brought up to date. */
  function Survivors(m: TripMap, odometer: uint32): TripMap {
    if m == [] then []
    else
      var e := m[|m| - 1];
      var t := e.value.(thisTrip := Travelled(e.value, odometer));
      Survivors(m[..|m|-1], odometer) + (if IsDone(e.value, odometer) then [] else [Entry(e.key, t)])
  }

  function Completed(m: TripMap, odometer: uint32): seq<nat> {
    if m == [] then []
    else Completed(m[..|m|-1], odometer) + (if IsDone(m[|m|-1].value, odometer) then [m[|m|-1].key] else [])
  }

  predicate DropsInterval(m: TripMap, odometer: uint32, interval: uint32) {
    exists i :: 0 <= i < |m| && IsDone(m[i].value, odometer) && m[i].value.interval == interval
  }

  predicate DropsDistance(m: TripMap, odometer: uint32, distance: uint32) {
    exists i :: 0 <= i < |m| && IsDone(m[i].value, odometer) && m[i].value.distance == distance
  }

  function Settled(t: Trip, odometer: uint32): Trip {
    var far := Travelled(t, odometer);
    t.(thisTrip := far, ongoingBatch := 0, onRestart := far)
  }

  function SettleAll(m: TripMap, odometer: uint32): TripMap {
    seq(|m|, i requires 0 <= i < |m| => Entry(m[i].key, Settled(m[i].value, odometer)))
  }

  /** What the start of another trip does to the running ones when it restarts the batch. */
  function Folded(t: Trip): Trip {
    t.(ongoingBatch := 0, onRestart := t.thisTrip)
  }

  function FoldAll(m: TripMap): TripMap {
    seq(|m|, i requires 0 <= i < |m| => Entry(m[i].key, Folded(m[i].value)))
  }

  // ---------------------------------------------------------------- operations

  /** The distance and interval to program, and whether that calls for a restart of the batch. */
  function Plan(s: Batching, odometer: uint32): (uint32, uint32, bool) {
    var least := LeastRemaining(s.trips);
    var leastInterval := LeastInterval(s.trips);
    var ahead := Minus(s.distance, odometer);
    var underWay := !s.distanceDropped && ahead != 0;
    var farther := if underWay then least < ahead else least != 0;
    var faster := leastInterval < s.interval || (leastInterval != s.interval && s.intervalDropped);
    (if farther then least else s.distance, if faster then leastInterval else s.interval, farther || faster)
  }

  /** Each operation also says whether it restarted the batch, and with it the odometer. */
  function RestartTrips(s: Batching, odometer: uint32): (Batching, bool) {
    if s.trips == [] then (s.(distance := 0, interval := 0), true)
    else
      var (distance, interval, needed) := Plan(s, odometer);
      if needed
      then (s.(trips := SettleAll(s.trips, odometer), distance := distance, interval := interval), true)
      else (s, false)
  }

  /** The adapter after the loop of a report, before the batch is restarted. */
  function Advanced(s: Batching, odometer: uint32): Batching {
    s.(trips := Survivors(s.trips, odometer),
       intervalDropped := s.intervalDropped || DropsInterval(s.trips, odometer, s.interval),
       distanceDropped := s.distanceDropped || DropsDistance(s.trips, odometer, s.distance))
  }

  function HandleReport(s: Batching, odometer: uint32): (Batching, bool) {
    var t := Advanced(s, odometer);
    if Completed(s.trips, odometer) != [] then RestartTrips(t, odometer) else (t, false)
  }

  function HandleStart(s: Batching, id: nat, distance: uint32, interval: uint32, odometer: uint32): (Batching, bool) {
    if s.trips == [] then
      (s.(trips := Put(Smaller, s.trips, id, Trip(0, 0, 0, distance, interval)), saved := s.saved + {id},
          distance := distance, interval := interval), true)
    else
      var faster := s.interval > interval;
      var left := Minus(s.distance, odometer);
      var shorter := distance < left;
      var trips := Put(Smaller, s.trips, id, Trip(odometer, 0, 0, distance, interval));
      if shorter || faster
      then (s.(trips := FoldAll(trips), distance := if shorter then distance else left,
               interval := if faster then interval else s.interval), true)
      else (s.(trips := trips), false)
  }

  function StopTrip(s: Batching, id: nat, odometer: uint32): (Batching, bool)
    requires Has(s.trips, id)
  {
    var was := Lookup(s.trips, id);
    var t := s.(
      trips := Erase(s.trips, id),
      intervalDropped := s.intervalDropped || was.interval == s.interval,
      distanceDropped := s.distanceDropped || was.distance == s.distance);
    if t.trips == [] then (t.(distance := 0, interval := 0), true) else RestartTrips(t, odometer)
  }

  function HandleStop(s: Batching, id: nat, odometer: uint32): (Batching, bool) {
    if id !in s.saved then (s, false)
    else if Has(s.trips, id) then StopTrip(s, id, odometer)
    else (s.(saved := s.saved - {id}), false)
  }

  /** The loop of the engine restart resets a copy of each trip, so the trips stay as they were. */
  function HandleEngineRestart(s: Batching): (Batching, bool) {
    if s.trips == [] then (s, false)
    else (s.(distance := LeastRemaining(s.trips), interval := LeastInterval(s.trips)), true)
  }

  function Handle(s: Batching, msg: Message): (Batching, bool) {
    match msg
    case Start(id, distance, interval, odometer) => HandleStart(s, id, distance, interval, odometer)
    case Stop(id, odometer) => HandleStop(s, id, odometer)
    case Report(odometer) => HandleReport(s, odometer)
    case EngineRestart => HandleEngineRestart(s)
  }

  const IDLE := Batching([], {}, 0, 0, false, false)

  function Run(msgs: seq<Message>): Batching {
    if msgs == [] then IDLE else Handle(Run(msgs[..|msgs|-1]), msgs[|msgs|-1]).0
  }

  // ---------------------------------------------------------------- the least, with zero as "unset"

  lemma {:induction false} LeastRemainingIsLeast(m: TripMap)
    requires forall e :: e in m ==> Remaining(e.value) > 0
    ensures forall e :: e in m ==> LeastRemaining(m) <= Remaining(e.value)
    ensures m != [] ==> LeastRemaining(m) > 0 && exists e :: e in m && Remaining(e.value) == LeastRemaining(m)
  {
    if m != [] {
      var n := |m| - 1;
      LeastRemainingIsLeast(m[..n]);
      assert m == m[..n] + [m[n]];
      assert m[n] in m;
    }
  }

  ghost predicate PositiveIntervals(m: TripMap) {
    forall e :: e in m ==> e.value.interval > 0
  }

  lemma {:induction false} LeastIntervalIsLeast(m: TripMap)
    requires PositiveIntervals(m)
    ensures forall e :: e in m ==> LeastInterval(m) <= e.value.interval
    ensures m != [] ==> LeastInterval(m) > 0 && exists e :: e in m && e.value.interval == LeastInterval(m)
  {
    if m != [] {
      var n := |m| - 1;
      LeastIntervalIsLeast(m[..n]);
      assert m == m[..n] + [m[n]];
      assert m[n] in m;
    }
  }

  // ---------------------------------------------------------------- a completed-trips report

  /** The trips that are not complete at this odometer, as they are. */
  function Running(m: TripMap, odometer: uint32): TripMap {
    if m == [] then []
    else
      Running(m[..|m|-1], odometer) + (if IsDone(m[|m|-1].value, odometer) then [] else [m[|m|-1]])
  }

  lemma {:induction false} RunningMembers(m: TripMap, odometer: uint32)
    ensures forall e :: e in Running(m, odometer) <==> e in m && !IsDone(e.value, odometer)
  {
    if m != [] {
      var n := |m| - 1;
      RunningMembers(m[..n], odometer);
      assert m == m[..n] + [m[n]];
    }
  }

  /** The same trip, as far along at odometer `after` as it was at odometer `before`. */
  predicate SameTrip(e: Entry<nat, Trip>, before: uint32, f: Entry<nat, Trip>, after: uint32) {
    && e.key == f.key && e.value.distance == f.value.distance && e.value.interval == f.value.interval
    && Travelled(e.value, before) == Travelled(f.value, after)
  }

  /** Nothing gained, nothing lost: `m` at `before` and `n` at `after` hold the same trips. */
  ghost predicate Carried(m: TripMap, before: uint32, n: TripMap, after: uint32) {
    |m| == |n| && forall i :: 0 <= i < |m| ==> SameTrip(m[i], before, n[i], after)
  }

  /** A report brings its survivors up to date without moving them. */
  lemma {:induction false} SurvivorsAreRunning(m: TripMap, odometer: uint32)
    ensures Carried(Running(m, odometer), odometer, Survivors(m, odometer), odometer)
    ensures forall i :: 0 <= i < |Survivors(m, odometer)| ==>
      var t := Survivors(m, odometer)[i].value;
      t.thisTrip == Travelled(t, odometer) && t.thisTrip < t.distance
    ensures |Survivors(m, odometer)| + |Completed(m, odometer)| == |m|
  {
    if m != [] {
      SurvivorsAreRunning(m[..|m|-1], odometer);
    }
  }

  lemma SettleCarries(m: TripMap, odometer: uint32)
    ensures Carried(m, odometer, SettleAll(m, odometer), 0)
  {
  }

  /** Restarting the batch, or leaving it alone, keeps every trip as far along as it is. */
  lemma RestartCarries(s: Batching, odometer: uint32)
    ensures var (t, restarted) := RestartTrips(s, odometer);
            Carried(s.trips, odometer, t.trips, if restarted then 0 else odometer)
  {
    SettleCarries(s.trips, odometer);
  }

  lemma CarriedOn(m: TripMap, a: uint32, n: TripMap, b: uint32, k: TripMap, c: uint32)
    requires Carried(m, a, n, b) && Carried(n, b, k, c)
    ensures Carried(m, a, k, c)
  {
    forall i | 0 <= i < |m| ensures SameTrip(m[i], a, k[i], c) {
      assert SameTrip(m[i], a, n[i], b) && SameTrip(n[i], b, k[i], c);
    }
  }

  /** A report keeps exactly the trips it does not complete, each as far along as it was, whatever it
      does to the odometer. It holds for all 32-bit values. */
  lemma ReportConservesDistance(s: Batching, odometer: uint32)
    ensures var (t, restarted) := Handle(s, Report(odometer));
            Carried(Running(s.trips, odometer), odometer, t.trips, if restarted then 0 else odometer)
  {
    var (t, restarted) := Handle(s, Report(odometer));
    SurvivorsAreRunning(s.trips, odometer);
    RestartCarries(Advanced(s, odometer), odometer);
    var kept := Survivors(s.trips, odometer);
    if Completed(s.trips, odometer) != [] {
      CarriedOn(Running(s.trips, odometer), odometer, kept, odometer, t.trips, if restarted then 0 else odometer);
    }
  }

  /** The report arrived when the programmed distance was reached, and no distance overflows. */
  predicate IsTimely(s: Batching, odometer: uint32) {
    && s.distance <= odometer
    && forall i :: 0 <= i < |s.trips| ==> s.trips[i].value.distance + (odometer - s.distance) < WIDTH
  }

  ghost predicate IsLeastLeft(least: int, m: TripMap, odometer: uint32) {
    && (forall i :: 0 <= i < |m| ==> least <= m[i].value.distance - Travelled(m[i].value, odometer))
    && (exists i :: 0 <= i < |m| && least == m[i].value.distance - Travelled(m[i].value, odometer))
  }

  lemma LeastRemainingIsLeastLeft(m: TripMap, odometer: uint32)
    requires m != []
    requires forall i :: 0 <= i < |m| ==> m[i].value.thisTrip == Travelled(m[i].value, odometer) < m[i].value.distance
    ensures LeastRemaining(m) > 0 && IsLeastLeft(LeastRemaining(m), m, odometer)
  {
    forall e | e in m ensures Remaining(e.value) > 0 {
      var i :| 0 <= i < |m| && m[i] == e;
    }
    LeastRemainingIsLeast(m);
    forall i | 0 <= i < |m| ensures LeastRemaining(m) <= m[i].value.distance - Travelled(m[i].value, odometer) {
      assert m[i] in m;
    }
    var w :| w in m && Remaining(w.value) == LeastRemaining(m);
    var i :| 0 <= i < |m| && m[i] == w;
  }

  lemma CarriedLeast(least: int, m: TripMap, a: uint32, n: TripMap, b: uint32)
    requires Carried(m, a, n, b) && IsLeastLeft(least, m, a)
    ensures IsLeastLeft(least, n, b)
  {
    assert forall i :: 0 <= i < |m| ==> SameTrip(m[i], a, n[i], b);
    var i :| 0 <= i < |m| && least == m[i].value.distance - Travelled(m[i].value, a);
    assert least == n[i].value.distance - Travelled(n[i].value, b);
  }

  /** A least remaining distance survives the trip through the original list within its bounds. */
  lemma LeastFits(s: Batching, odometer: uint32, least: int)
    requires IsTimely(s, odometer)
    requires IsLeastLeft(least, Survivors(s.trips, odometer), odometer)
    ensures least + (odometer - s.distance) < WIDTH
  {
    var kept := Survivors(s.trips, odometer);
    SurvivorsAreRunning(s.trips, odometer);
    RunningMembers(s.trips, odometer);
    var i :| 0 <= i < |kept| && least == kept[i].value.distance - Travelled(kept[i].value, odometer);
    var e := Running(s.trips, odometer)[i];
    assert SameTrip(e, odometer, kept[i], odometer);
    assert e in s.trips;
  }

  /** When the programmed distance is used up, a restart programs the least remaining one. */
  lemma RestartProgramsTheLeast(s: Batching, odometer: uint32)
    requires s.trips != [] && s.distance <= odometer && LeastRemaining(s.trips) > 0
    requires LeastRemaining(s.trips) + (odometer - s.distance) < WIDTH
    ensures var (t, restarted) := RestartTrips(s, odometer);
            restarted && t.distance == LeastRemaining(s.trips) && t.trips == SettleAll(s.trips, odometer)
  {
  }

  /** A timely report that completes a trip restarts the batch with exactly the least distance that a
      surviving trip still has to go. */
  lemma ReportProgramsTheLeast(s: Batching, odometer: uint32)
    requires IsTimely(s, odometer)
    requires Completed(s.trips, odometer) != [] && Survivors(s.trips, odometer) != []
    ensures Handle(s, Report(odometer)).1
    ensures Handle(s, Report(odometer)).0.distance > 0
    ensures IsLeastLeft(Handle(s, Report(odometer)).0.distance, Handle(s, Report(odometer)).0.trips, 0)
  {
    var kept := Survivors(s.trips, odometer);
    SurvivorsAreRunning(s.trips, odometer);
    LeastRemainingIsLeastLeft(kept, odometer);
    LeastFits(s, odometer, LeastRemaining(kept));
    RestartProgramsTheLeast(Advanced(s, odometer), odometer);
    SettleCarries(kept, odometer);
    CarriedLeast(LeastRemaining(kept), kept, odometer, SettleAll(kept, odometer), 0);
  }

  // ---------------------------------------------------------------- starting another trip

  /** The odometer at which the distance recorded for the trip is its travelled distance. */
  function SeenAt(t: Trip): uint32 {
    Plus(t.ongoingBatch, Minus(t.thisTrip, t.onRestart))
  }

  /** The record of a trip is up to date at exactly one odometer. */
  lemma RecordIsCurrentExactly(t: Trip, odometer: uint32)
    ensures t.thisTrip == Travelled(t, odometer) <==> odometer == SeenAt(t)
  {
  }

  /** What a message makes of the record of a trip that runs after it. */
  predicate RecordAfter(s: Batching, msg: Message, restarted: bool, e: Entry<nat, Trip>) {
    if restarted && !msg.EngineRestart? then SeenAt(e.value) == 0
    else if msg.Report? then SeenAt(e.value) == msg.odometer
    else if msg.Start? && e.key == msg.id then SeenAt(e.value) == msg.odometer
    else e in s.trips
  }

  lemma RestartTakesRecords(s: Batching, odometer: uint32)
    ensures var (t, restarted) := RestartTrips(s, odometer);
            forall e :: e in t.trips ==> if restarted then SeenAt(e.value) == 0 else e in s.trips
  {
  }

  lemma StartTakesRecords(s: Batching, msg: Message)
    requires msg.Start? && !Has(s.trips, msg.id)
    ensures var (t, restarted) := Handle(s, msg); forall e :: e in t.trips ==> RecordAfter(s, msg, restarted, e)
  {
    var t := Trip(if s.trips == [] then 0 else msg.odometer, 0, 0, msg.distance, msg.interval);
    PutMembers(Smaller, s.trips, msg.id, t);
  }

  lemma ReportTakesRecords(s: Batching, msg: Message)
    requires msg.Report?
    ensures var (t, restarted) := Handle(s, msg); forall e :: e in t.trips ==> RecordAfter(s, msg, restarted, e)
  {
    var kept := Survivors(s.trips, msg.odometer);
    SurvivorsAreRunning(s.trips, msg.odometer);
    forall e | e in kept ensures SeenAt(e.value) == msg.odometer {
      var i :| 0 <= i < |kept| && kept[i] == e;
      RecordIsCurrentExactly(e.value, msg.odometer);
    }
    RestartTakesRecords(Advanced(s, msg.odometer), msg.odometer);
  }

  lemma StopTakesRecords(s: Batching, msg: Message)
    requires msg.Stop?
    ensures var (t, restarted) := Handle(s, msg); forall e :: e in t.trips ==> RecordAfter(s, msg, restarted, e)
  {
    if Has(s.trips, msg.id) {
      var was := Lookup(s.trips, msg.id);
      EraseMembers(s.trips, msg.id);
      RestartTakesRecords(s.(
        trips := Erase(s.trips, msg.id),
        intervalDropped := s.intervalDropped || was.interval == s.interval,
        distanceDropped := s.distanceDropped || was.distance == s.distance), msg.odometer);
    }
  }

  /** At which odometer the records are up to date after each message: a report takes every record, and so does a
      restart of the batch by a report, a stop or a start; a start without one takes only its own trip's, and
      otherwise the records stay as they were. */
  lemma RecordsAreTaken(s: Batching, msg: Message)
    requires msg.Start? ==> !Has(s.trips, msg.id)
    ensures var (t, restarted) := Handle(s, msg); forall e :: e in t.trips ==> RecordAfter(s, msg, restarted, e)
  {
    match msg
    case Start(_, _, _, _) => StartTakesRecords(s, msg);
    case Stop(_, _) => StopTakesRecords(s, msg);
    case Report(_) => ReportTakesRecords(s, msg);
    case EngineRestart =>
  }

  /** The guards under which a start restarts the batch: the first trip, or one that is over sooner or wants
      batches more often than what is programmed. */
  predicate StartRestarts(s: Batching, distance: uint32, interval: uint32, odometer: uint32) {
    s.trips == [] || distance < Minus(s.distance, odometer) || interval < s.interval
  }

  /** A start that restarts the batch folds in the distance each running trip had in its record: a trip keeps its
      progress exactly if the batch is not restarted or the odometer has not moved since the record was taken. */
  lemma StartConservesExactly(s: Batching, id: nat, distance: uint32, interval: uint32, odometer: uint32,
                              e: Entry<nat, Trip>)
    requires e in s.trips && !Has(s.trips, id)
    ensures var (t, restarted) := Handle(s, Start(id, distance, interval, odometer));
            var f := if restarted then Entry(e.key, Folded(e.value)) else e;
            && f in t.trips
            && (restarted <==> StartRestarts(s, distance, interval, odometer))
            && (SameTrip(e, odometer, f, if restarted then 0 else odometer) <==>
                !StartRestarts(s, distance, interval, odometer) || odometer == SeenAt(e.value))
  {
    var trips := Put(Smaller, s.trips, id, Trip(odometer, 0, 0, distance, interval));
    PutMembers(Smaller, s.trips, id, Trip(odometer, 0, 0, distance, interval));
    assert Has(s.trips, e.key);
    RecordIsCurrentExactly(e.value, odometer);
    var i :| 0 <= i < |trips| && trips[i] == e;
    assert FoldAll(trips)[i] == Entry(e.key, Folded(e.value));
  }

  /** A trip of 1000 m has come 600 m when a second one asks for a shorter interval: the restart of
      the batch takes the first one back to the beginning. */
  lemma StartForgetsDistance()
    ensures var s := Run([Start(1, 1000, 10, 0)]);
            var (t, restarted) := Handle(s, Start(2, 500, 5, 600));
            && s.trips == [Entry(1, Trip(0, 0, 0, 1000, 10))] && Travelled(s.trips[0].value, 600) == 600
            && restarted && t.trips[0].key == 1 && Travelled(t.trips[0].value, 0) == 0
  {
    FirstTrip(1, 1000, 10, 0);
    SecondTrip(Run([Start(1, 1000, 10, 0)]), Trip(0, 0, 0, 1000, 10), Trip(600, 0, 0, 500, 5));
  }

  lemma FirstTrip(id: nat, distance: uint32, interval: uint32, odometer: uint32)
    ensures Run([Start(id, distance, interval, odometer)]) ==
            Batching([Entry(id, Trip(0, 0, 0, distance, interval))], {id}, distance, interval, false, false)
  {
    var first := [Start(id, distance, interval, odometer)];
    var none: TripMap := [];
    assert first[..0] == [] && Run(first) == Handle(IDLE, first[0]).0;
    assert Put(Smaller, none, id, Trip(0, 0, 0, distance, interval)) == [Entry(id, Trip(0, 0, 0, distance, interval))];
    assert {} + {id} == {id};
  }

  lemma SecondTrip(s: Batching, first: Trip, second: Trip)
    requires s.trips == [Entry(1, first)]
    ensures Put(Smaller, s.trips, 2, second) == [Entry(1, first), Entry(2, second)]
  {
    assert Insert(Smaller, s.trips[1..], 2, second) == [Entry(2, second)];
  }

  // ---------------------------------------------------------------- engine restart

  /** After an engine restart the odometer counts from zero again, but no trip was rebased: a trip
      keeps its progress exactly when the lost odometer showed nothing. */
  lemma EngineRestartConservesExactly(s: Batching, e: Entry<nat, Trip>, odometer: uint32)
    ensures Handle(s, EngineRestart).0.trips == s.trips
    ensures SameTrip(e, odometer, e, 0) <==> odometer == 0
  {
  }

  /** A trip of 1000 m has come 600 m when the engine restarts: it is back at the beginning, and 1000 m are
      programmed again. */
  lemma EngineRestartForgetsDistance()
    ensures var s := Run([Start(1, 1000, 10, 0)]);
            var (t, restarted) := Handle(s, EngineRestart);
            && s.trips == [Entry(1, Trip(0, 0, 0, 1000, 10))] && Travelled(s.trips[0].value, 600) == 600
            && restarted && t.trips == s.trips && Travelled(t.trips[0].value, 0) == 0 && t.distance == 1000
  {
    FirstTrip(1, 1000, 10, 0);
    var s := Run([Start(1, 1000, 10, 0)]);
    assert s.trips[..0] == [];
  }

  // ---------------------------------------------------------------- the interval of every run

  /** The programmed interval is the least of all running trips, and zero when there are none. */
  ghost predicate IntervalIsLeast(s: Batching) {
    && Distinct(s.trips)
    && PositiveIntervals(s.trips)
    && s.interval == LeastInterval(s.trips)
  }

  /** The least interval is the one that bounds all and is attained. */
  lemma IsLeastInterval(m: TripMap, interval: uint32)
    requires PositiveIntervals(m)
    requires forall e :: e in m ==> interval <= e.value.interval
    requires exists e :: e in m && e.value.interval == interval
    ensures LeastInterval(m) == interval
  {
    LeastIntervalIsLeast(m);
  }

  lemma {:induction false} SettlingKeepsIntervals(m: TripMap, n: TripMap)
    requires |m| == |n|
    requires forall i :: 0 <= i < |m| ==> m[i].key == n[i].key && m[i].value.interval == n[i].value.interval
    ensures LeastInterval(n) == LeastInterval(m)
    ensures PositiveIntervals(m) ==> PositiveIntervals(n)
    ensures Distinct(m) ==> Distinct(n)
  {
    if m != [] {
      SettlingKeepsIntervals(m[..|m|-1], n[..|n|-1]);
      forall f | f in n && PositiveIntervals(m) ensures f.value.interval > 0 {
        var i :| 0 <= i < |n| && n[i] == f;
        assert m[i] in m;
      }
    }
  }

  /** If dropping trips raised the least interval, the flag was set, and a restart catches up. */
  lemma RestartKeepsInterval(s: Batching, odometer: uint32)
    requires Distinct(s.trips) && PositiveIntervals(s.trips)
    requires s.trips != [] ==> s.interval <= LeastInterval(s.trips)
    requires s.trips != [] && s.interval != LeastInterval(s.trips) ==> s.intervalDropped
    ensures IntervalIsLeast(RestartTrips(s, odometer).0)
  {
    SettlingKeepsIntervals(s.trips, SettleAll(s.trips, odometer));
  }

  lemma {:induction false} SurvivorsAreDistinct(m: TripMap, odometer: uint32)
    requires Distinct(m)
    ensures Distinct(Survivors(m, odometer))
    ensures forall f :: f in Survivors(m, odometer) ==>
      exists e :: e in m && e.key == f.key && e.value.interval == f.value.interval && !IsDone(e.value, odometer)
  {
    if m != [] {
      var n := |m| - 1;
      SurvivorsAreDistinct(m[..n], odometer);
      var before := Survivors(m[..n], odometer);
      assert m == m[..n] + [m[n]];
      assert m[n] in m;
      forall i | 0 <= i < |before| ensures before[i].key != m[n].key {
        assert before[i] in before;
        var e :| e in m[..n] && e.key == before[i].key;
        var j :| 0 <= j < n && m[j] == e;
      }
    }
  }

  lemma {:induction false} RunningSurvives(m: TripMap, odometer: uint32, e: Entry<nat, Trip>)
    requires e in m && !IsDone(e.value, odometer)
    ensures exists f :: f in Survivors(m, odometer) && f.value.interval == e.value.interval
  {
    var n := |m| - 1;
    if m[n] != e {
      assert m == m[..n] + [m[n]];
      RunningSurvives(m[..n], odometer, e);
      var f :| f in Survivors(m[..n], odometer) && f.value.interval == e.value.interval;
      assert f in Survivors(m, odometer);
    } else {
      var f := Entry(e.key, e.value.(thisTrip := Travelled(e.value, odometer)));
      assert f in Survivors(m, odometer);
    }
  }

  lemma {:induction false} DoneIsCompleted(m: TripMap, odometer: uint32, i: nat)
    requires i < |m| && IsDone(m[i].value, odometer)
    ensures m[i].key in Completed(m, odometer)
  {
    if i < |m| - 1 {
      DoneIsCompleted(m[..|m|-1], odometer, i);
    }
  }

  /** If the survivors' least interval is another one, the trip that set it was completed. */
  lemma RaisedIntervalWasDropped(m: TripMap, odometer: uint32)
    requires PositiveIntervals(m) && Survivors(m, odometer) != []
    requires PositiveIntervals(Survivors(m, odometer))
    requires forall f :: f in Survivors(m, odometer) ==> LeastInterval(m) <= f.value.interval
    ensures LeastInterval(Survivors(m, odometer)) == LeastInterval(m) ||
            (DropsInterval(m, odometer, LeastInterval(m)) && Completed(m, odometer) != [])
  {
    SurvivorsAreRunning(m, odometer);
    LeastIntervalIsLeast(m);
    var w :| w in m && w.value.interval == LeastInterval(m);
    if !IsDone(w.value, odometer) {
      RunningSurvives(m, odometer, w);
      IsLeastInterval(Survivors(m, odometer), LeastInterval(m));
    } else {
      var i :| 0 <= i < |m| && m[i] == w;
      DoneIsCompleted(m, odometer, i);
    }
  }

  lemma SurvivorsIntervals(m: TripMap, odometer: uint32)
    requires Distinct(m) && PositiveIntervals(m)
    ensures var kept := Survivors(m, odometer);
            Distinct(kept) && PositiveIntervals(kept) && forall f :: f in kept ==> LeastInterval(m) <= f.value.interval
  {
    SurvivorsAreDistinct(m, odometer);
    LeastIntervalIsLeast(m);
    forall f | f in Survivors(m, odometer) ensures LeastInterval(m) <= f.value.interval && f.value.interval > 0 {
      var e :| e in m && e.key == f.key && e.value.interval == f.value.interval;
    }
  }

  lemma AdvancedInterval(s: Batching, odometer: uint32)
    requires IntervalIsLeast(s) && Survivors(s.trips, odometer) != []
    ensures s.interval <= LeastInterval(Survivors(s.trips, odometer))
    ensures s.interval != LeastInterval(Survivors(s.trips, odometer)) ==>
              Advanced(s, odometer).intervalDropped && Completed(s.trips, odometer) != []
  {
    SurvivorsIntervals(s.trips, odometer);
    LeastIntervalIsLeast(Survivors(s.trips, odometer));
    RaisedIntervalWasDropped(s.trips, odometer);
  }

  lemma ReportKeepsInterval(s: Batching, odometer: uint32)
    requires IntervalIsLeast(s)
    ensures IntervalIsLeast(Handle(s, Report(odometer)).0)
  {
    SurvivorsIntervals(s.trips, odometer);
    if Survivors(s.trips, odometer) != [] {
      AdvancedInterval(s, odometer);
    }
    if Completed(s.trips, odometer) != [] {
      RestartKeepsInterval(Advanced(s, odometer), odometer);
    } else {
      SurvivorsAreRunning(s.trips, odometer);
    }
  }

  lemma JoinedInterval(m: TripMap, id: nat, t: Trip)
    requires Distinct(m) && PositiveIntervals(m) && t.interval > 0 && !Has(m, id)
    ensures var trips := Put(Smaller, m, id, t);
            && Distinct(trips) && PositiveIntervals(trips)
            && LeastInterval(trips) ==
               if m != [] && LeastInterval(m) <= t.interval then LeastInterval(m) else t.interval
  {
    var trips := Put(Smaller, m, id, t);
    PutMembers(Smaller, m, id, t);
    PutIsDistinct(Smaller, m, id, t);
    assert forall e :: e in m ==> e.key != id;
    LeastIntervalIsLeast(m);
    assert Entry(id, t) in trips;
    if m != [] && LeastInterval(m) <= t.interval {
      var w :| w in m && w.value.interval == LeastInterval(m);
      assert w in trips;
      IsLeastInterval(trips, LeastInterval(m));
    } else {
      IsLeastInterval(trips, t.interval);
    }
  }

  lemma StartKeepsInterval(s: Batching, id: nat, distance: uint32, interval: uint32, odometer: uint32)
    requires IntervalIsLeast(s) && interval > 0 && !Has(s.trips, id)
    ensures IntervalIsLeast(Handle(s, Start(id, distance, interval, odometer)).0)
  {
    var t := if s.trips == [] then Trip(0, 0, 0, distance, interval) else Trip(odometer, 0, 0, distance, interval);
    JoinedInterval(s.trips, id, t);
    var trips := Put(Smaller, s.trips, id, t);
    SettlingKeepsIntervals(trips, FoldAll(trips));
  }

  lemma StopKeepsInterval(s: Batching, id: nat, odometer: uint32)
    requires IntervalIsLeast(s)
    ensures IntervalIsLeast(Handle(s, Stop(id, odometer)).0)
  {
    if Has(s.trips, id) {
      var left := Erase(s.trips, id);
      EraseMembers(s.trips, id);
      EraseIsDistinct(s.trips, id);
      LeastIntervalIsLeast(s.trips);
      LeastIntervalIsLeast(left);
      if left != [] {
        var was := Lookup(s.trips, id);
        if was.interval != s.interval {
          var w :| w in s.trips && w.value.interval == s.interval;
          LookupFinds(s.trips, w);
          assert w in left;
          IsLeastInterval(left, s.interval);
        }
        RestartKeepsInterval(s.(trips := left,
          intervalDropped := s.intervalDropped || was.interval == s.interval,
          distanceDropped := s.distanceDropped || was.distance == s.distance), odometer);
      }
    }
  }

  /** Session ids are generated and intervals are positive. */
  predicate IsOrdinary(s: Batching, msg: Message) {
    msg.Start? ==> msg.interval > 0 && !Has(s.trips, msg.id)
  }

  lemma StepKeepsInterval(s: Batching, msg: Message)
    requires IntervalIsLeast(s) && IsOrdinary(s, msg)
    ensures IntervalIsLeast(Handle(s, msg).0)
  {
    match msg
    case Start(id, distance, interval, odometer) => StartKeepsInterval(s, id, distance, interval, odometer);
    case Stop(id, odometer) => StopKeepsInterval(s, id, odometer);
    case Report(odometer) => ReportKeepsInterval(s, odometer);
    case EngineRestart =>
  }

  /** Over every run of starts, stops, reports and engine restarts, the interval the modem batches at
      is the least that any running trip asked for, and zero when no trip runs. */
  lemma {:induction false} EveryRunHasLeastInterval(msgs: seq<Message>)
    requires forall i :: 0 <= i < |msgs| ==> IsOrdinary(Run(msgs[..i]), msgs[i])
    ensures IntervalIsLeast(Run(msgs))
  {
    if msgs != [] {
      var n := |msgs| - 1;
      assert forall i :: 0 <= i < n ==> msgs[..n][..i] == msgs[..i] && msgs[..n][i] == msgs[i];
      EveryRunHasLeastInterval(msgs[..n]);
      StepKeepsInterval(Run(msgs[..n]), msgs[n]);
    }
  }

  // ---------------------------------------------------------------- trips that cannot be stopped

  /** Messages about other trips. */
  predicate SparesTrip(msg: Message, id: nat) {
    !(msg.Start? && msg.id == id) && !(msg.Stop? && msg.id == id)
  }

  lemma HandleSpares(s: Batching, msg: Message, id: nat)
    requires SparesTrip(msg, id)
    ensures id in Handle(s, msg).0.saved <==> id in s.saved
  {
  }

  function RunFrom(s: Batching, msgs: seq<Message>): Batching {
    if msgs == [] then s else Handle(RunFrom(s, msgs[..|msgs|-1]), msgs[|msgs|-1]).0
  }

  /** A trip is saved as a session that can be stopped exactly if no other trip was running when it started, and
      stays so through all messages about others. */
  lemma {:induction false} SavedExactlyAlone(s: Batching, id: nat, distance: uint32, interval: uint32,
                                             odometer: uint32, msgs: seq<Message>)
    requires id !in s.saved
    requires forall i :: 0 <= i < |msgs| ==> SparesTrip(msgs[i], id)
    ensures id in RunFrom(Handle(s, Start(id, distance, interval, odometer)).0, msgs).saved <==> s.trips == []
  {
    if msgs != [] {
      var n := |msgs| - 1;
      SavedExactlyAlone(s, id, distance, interval, odometer, msgs[..n]);
      HandleSpares(RunFrom(Handle(s, Start(id, distance, interval, odometer)).0, msgs[..n]), msgs[n], id);
    }
  }

  /** Restarting the batch or not, no trip joins or leaves. */
  lemma RestartKeepsKeys(s: Batching, odometer: uint32, id: nat)
    ensures Has(RestartTrips(s, odometer).0.trips, id) <==> Has(s.trips, id)
  {
    RestartCarries(s, odometer);
    var t := RestartTrips(s, odometer).0;
    if i :| 0 <= i < |s.trips| && s.trips[i].key == id {
      assert t.trips[i].key == id;
    }
    if i :| 0 <= i < |t.trips| && t.trips[i].key == id {
      assert s.trips[i].key == id;
    }
  }

  lemma StopEndsTheSaved(s: Batching, id: nat, later: uint32)
    requires Has(s.trips, id)
    ensures Has(Handle(s, Stop(id, later)).0.trips, id) <==> id !in s.saved
    ensures id !in s.saved ==> Handle(s, Stop(id, later)) == (s, false)
  {
    if id in s.saved {
      var was := Lookup(s.trips, id);
      var t := s.(
        trips := Erase(s.trips, id),
        intervalDropped := s.intervalDropped || was.interval == s.interval,
        distanceDropped := s.distanceDropped || was.distance == s.distance);
      EraseMembers(s.trips, id);
      assert !Has(t.trips, id) by {
        forall i | 0 <= i < |t.trips| ensures t.trips[i].key != id {
          assert t.trips[i] in t.trips;
        }
      }
      RestartKeepsKeys(t, later, id);
    }
  }

  /** Exactly when a trip can be stopped: if it is still running after any messages about others, a stop ends it
      if and only if no other trip was running when it started. Otherwise only its completion ends it. */
  lemma TripStopsExactly(s: Batching, id: nat, distance: uint32, interval: uint32, odometer: uint32,
                         msgs: seq<Message>, later: uint32)
    requires id !in s.saved
    requires forall i :: 0 <= i < |msgs| ==> SparesTrip(msgs[i], id)
    requires Has(RunFrom(Handle(s, Start(id, distance, interval, odometer)).0, msgs).trips, id)
    ensures var t := RunFrom(Handle(s, Start(id, distance, interval, odometer)).0, msgs);
            && (!Has(Handle(t, Stop(id, later)).0.trips, id) <==> s.trips == [])
            && (s.trips != [] ==> Handle(t, Stop(id, later)) == (t, false))
  {
    SavedExactlyAlone(s, id, distance, interval, odometer, msgs);
    StopEndsTheSaved(RunFrom(Handle(s, Start(id, distance, interval, odometer)).0, msgs), id, later);
  }

  /** Two trips are started and the second one is stopped: it runs on. */
  lemma SecondTripRunsOn()
    ensures var s := Run([Start(1, 1000, 10, 0), Start(2, 2000, 20, 100)]);
            Has(s.trips, 2) && Handle(s, Stop(2, 300)) == (s, false)
  {
    var msgs := [Start(1, 1000, 10, 0), Start(2, 2000, 20, 100)];
    assert msgs[..1] == [Start(1, 1000, 10, 0)];
    FirstTrip(1, 1000, 10, 0);
    SecondTrip(Run(msgs[..1]), Trip(0, 0, 0, 1000, 10), Trip(100, 0, 0, 2000, 20));
    assert Run(msgs).trips[1].key == 2;
  }
}
