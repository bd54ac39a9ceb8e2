/** Many tracking sessions, one engine: the time-based session multiplexer of the GNSS adapter, one
    function per message, and what every run of it promises about the engine.
 */
module Tracking {
  import opened Wrappers
  import opened OrderedMaps

  const MIN_INTERVAL := 100
  const TBM_THRESHOLD := 480000
  const OPTIONS_SIZE := 32
  const POWER_INVALID := 0
  const POWER_M2 := 2
  const POWER_M4 := 4

  datatype Key = Key(client: int, id: nat)

  /** `size` is zero until the options have been set. */
  datatype Options = Options(size: nat, minInterval: nat, minDistance: nat, power: nat, tbm: nat)

  type Sessions = seq<Entry<Key, Options>>

  /** `engine` holds the options the modem was last started with, or nothing when it was stopped. */
  datatype Adapter = Adapter(
    sessions: Sessions, distance: Sessions, engine: Option<Options>,
    nHzNeeded: bool, atHighest: bool, distanceSupported: bool)

  datatype Message =
    | Start(key: Key, options: Options)
    | Update(key: Key, options: Options)
    | Stop(key: Key)
    | RemoveClient(client: int)
    | SuspendRestart
    | ModemRestart
    | NHzChanged(needed: bool)

  predicate Before(a: Key, b: Key) {
    a.id < b.id || (a.id == b.id && a.client < b.client)
  }

  // ---------------------------------------------------------------- choosing what to run

  /** The running choice of the loops over all sessions: the options with the smallest interval so
      far, and the smallest power mode so far, each with its own "unset" sentinel. */
  datatype Choice = Choice(options: Options, power: nat)

  const UNSET := Choice(Options(0, 0, 0, 0, 0), POWER_INVALID)

  function Consider(c: Choice, o: Options): Choice {
    Choice(
      if c.options.size == 0 || o.minInterval < c.options.minInterval then o else c.options,
      if c.power == POWER_INVALID || o.power < c.power then o.power else c.power)
  }

  function Fastest(m: Sessions, skip: Option<Key>): Choice {
    if m == [] then UNSET
    else
      var last := m[|m| - 1];
      var c := Fastest(m[..|m|-1], skip);
      if skip == Some(last.key) then c else Consider(c, last.value)
  }

  function HighestPower(m: Sessions): Options {
    if m == [] then UNSET.options
    else
      var o := m[|m| - 1].value;
      var best := HighestPower(m[..|m|-1]);
      if best.size == 0 || (o.power != POWER_INVALID && o.power < best.power) then o else best
  }

  // ---------------------------------------------------------------- driving the engine

  /** With an nHz need the engine runs at the highest rate, and is not restarted while it does. */
  function StartEngine(a: Adapter, o: Options): Adapter {
    if !a.nHzNeeded then a.(engine := Some(o))
    else if a.atHighest then a
    else if o.minInterval > MIN_INTERVAL then a.(engine := Some(o.(minInterval := MIN_INTERVAL)), atHighest := true)
    else a.(engine := Some(o))
  }

  function StopEngine(a: Adapter): Adapter {
    a.(engine := None, atHighest := false)
  }

  function Merge(c: Choice, o: Options): (Options, bool) {
    var faster := o.minInterval < c.options.minInterval;
    var stronger := o.power < c.power;
    var first := if faster then c.options.(minInterval := o.minInterval) else c.options;
    (if stronger then first.(power := o.power) else first, faster || stronger)
  }

  function StartMultiplex(a: Adapter, o: Options): Adapter {
    if a.sessions == [] then StartEngine(a, o)
    else
      var (merged, changed) := Merge(Fastest(a.sessions, None), o);
      if changed then StartEngine(a, merged) else a
  }

  function UpdateMultiplex(a: Adapter, key: Key, o: Options): Adapter
    requires Has(a.sessions, key)
  {
    var was := Lookup(a.sessions, key);
    if was.minInterval == o.minInterval && was.power == o.power then a
    else if |a.sessions| == 1 then StartEngine(a, o)
    else
      var (merged, changed) := Merge(Fastest(a.sessions, Some(key)), o);
      if changed then StartEngine(a, merged) else a
  }

  function StopMultiplex(a: Adapter, key: Key): Adapter
    requires Has(a.sessions, key)
  {
    if |a.sessions| == 1 then StopEngine(a)
    else
      var was := Lookup(a.sessions, key);
      var c := Fastest(a.sessions, Some(key));
      if was.minInterval < c.options.minInterval || was.power < c.power
      then StartEngine(a, c.options.(power := c.power)) else a
  }

  function Restart(a: Adapter): Adapter {
    var b := a.(atHighest := false);
    if a.sessions == [] then b
    else
      var fastest := Fastest(a.sessions, None).options;
      StartEngine(b, HighestPower(a.sessions).(
        size := OPTIONS_SIZE, minInterval := fastest.minInterval, minDistance := fastest.minDistance))
  }

  // ---------------------------------------------------------------- messages

  function Save(a: Adapter, key: Key, o: Options): Adapter {
    if o.minDistance > 0 && a.distanceSupported then a.(distance := Put(Before, a.distance, key, o))
    else a.(sessions := Put(Before, a.sessions, key, o))
  }

  function Drop(a: Adapter, key: Key): Adapter {
    if Has(a.sessions, key) then a.(sessions := Erase(a.sessions, key))
    else a.(distance := Erase(a.distance, key))
  }

  function Clamp(o: Options): Options {
    if o.minInterval < MIN_INTERVAL then o.(minInterval := MIN_INTERVAL) else o
  }

  function Fallback(o: Options): Options {
    if o.power == POWER_M4 && o.tbm > TBM_THRESHOLD then o.(power := POWER_M2) else o
  }

  function HandleStart(a: Adapter, key: Key, options: Options): Adapter {
    var o := Clamp(options);
    if options.size == 0 then a
    else if o.minDistance > 0 && a.distanceSupported then Save(a, key, o)
    else Save(StartMultiplex(a, Fallback(o)), key, Fallback(o))
  }

  function HandleUpdate(a: Adapter, key: Key, options: Options): Adapter {
    var o := Clamp(Fallback(options));
    var timeBased := Has(a.sessions, key);
    if options.size == 0 || !(timeBased || Has(a.distance, key)) then a
    else if timeBased && o.minDistance > 0 then Save(Drop(StopMultiplex(a, key), key), key, o)
    else if Has(a.distance, key) && o.minDistance == 0 then
      var b := Drop(a, key);
      Save(StartMultiplex(b, o), key, o)
    else if timeBased then Save(UpdateMultiplex(a, key, o), key, o)
    else Save(a, key, o)
  }

  function StopTimeBased(a: Adapter, key: Key): Adapter {
    if Has(a.sessions, key) then Drop(StopMultiplex(a, key), key) else a
  }

  function HandleStop(a: Adapter, key: Key): Adapter {
    if Has(a.sessions, key) then StopTimeBased(a, key) else Drop(a, key)
  }

  function KeysOf(m: Sessions, client: int): seq<Key> {
    if m == [] then []
    else KeysOf(m[..|m|-1], client) + (if m[|m|-1].key.client == client then [m[|m|-1].key] else [])
  }

  function StopAll(a: Adapter, keys: seq<Key>): Adapter {
    if keys == [] then a else StopTimeBased(StopAll(a, keys[..|keys|-1]), keys[|keys|-1])
  }

  function EraseClient(m: Sessions, client: int): Sessions {
    if m == [] then []
    else (if m[0].key.client == client then [] else [m[0]]) + EraseClient(m[1..], client)
  }

  function HandleRemoveClient(a: Adapter, client: int): Adapter {
    var b := StopAll(a, KeysOf(a.sessions, client));
    b.(distance := EraseClient(b.distance, client))
  }

  function Handle(a: Adapter, msg: Message): Adapter {
    match msg
    case Start(key, o) => HandleStart(a, key, o)
    case Update(key, o) => HandleUpdate(a, key, o)
    case Stop(key) => HandleStop(a, key)
    case RemoveClient(client) => HandleRemoveClient(a, client)
    case SuspendRestart => Restart(if a.sessions == [] then a else StopEngine(a))
    case ModemRestart => Restart(a.(engine := None))
    case NHzChanged(needed) =>
      if a.nHzNeeded == needed then a else Restart(a.(nHzNeeded := needed))
  }

  function Idle(distanceSupported: bool): Adapter {
    Adapter([], [], None, false, false, distanceSupported)
  }

  function Run(distanceSupported: bool, msgs: seq<Message>): Adapter {
    if msgs == [] then Idle(distanceSupported)
    else Handle(Run(distanceSupported, msgs[..|msgs|-1]), msgs[|msgs|-1])
  }

  // ---------------------------------------------------------------- what the engine owes the sessions

  /** Every saved time-based session has been set, at a legal interval. */
  ghost predicate WellSaved(m: Sessions) {
    && Distinct(m)
    && forall e :: e in m ==> e.value.size > 0 && e.value.minInterval >= MIN_INTERVAL
  }

  /** The nHz bookkeeping tells the truth about the engine. */
  ghost predicate HighestIsHonest(a: Adapter) {
    && (a.atHighest ==> a.nHzNeeded && a.engine.Some?)
    && (a.nHzNeeded && a.engine.Some? ==> a.engine.value.minInterval == MIN_INTERVAL)
  }

  /** The engine runs exactly when there is a session, and fast enough for each of them. */
  ghost predicate Serves(engine: Option<Options>, m: Sessions) {
    && (engine.Some? <==> m != [])
    && (engine.Some? ==> forall e :: e in m ==> engine.value.minInterval <= e.value.minInterval)
  }

  ghost predicate Healthy(a: Adapter) {
    WellSaved(a.sessions) && HighestIsHonest(a) && Serves(a.engine, a.sessions)
  }

  /** Some session needs the engine to be as fast as it is. */
  ghost predicate Tight(engine: Option<Options>, m: Sessions) {
    engine.Some? ==> exists e :: e in m && e.value.minInterval == engine.value.minInterval
  }

  // ---------------------------------------------------------------- the choice is the least

  /** The sentinel loops find the smallest interval among the sessions not skipped. */
  lemma {:induction false} FastestIsLeast(m: Sessions, skip: Option<Key>)
    requires forall e :: e in m ==> e.value.size > 0
    ensures var c := Fastest(m, skip).options;
            && (c.size == 0 ==> c == UNSET.options)
            && (c.size == 0 <==> forall e :: e in m ==> skip == Some(e.key))
            && (forall e :: e in m && skip != Some(e.key) ==> c.minInterval <= e.value.minInterval)
            && (c.size > 0 ==> exists e :: e in m && skip != Some(e.key) && e.value == c)
  {
    if m != [] {
      var n := |m| - 1;
      FastestIsLeast(m[..n], skip);
      assert m == m[..n] + [m[n]];
      assert m[n] in m;
    }
  }

  // ---------------------------------------------------------------- one operation

  /** Every way of starting the engine leaves it at the wanted interval, or at the highest rate when
      nHz measurements are needed. */
  lemma StartEngineRuns(a: Adapter, o: Options)
    requires o.minInterval >= MIN_INTERVAL
    requires a.atHighest ==> a.nHzNeeded && a.engine.Some? && a.engine.value.minInterval == MIN_INTERVAL
    ensures var b := StartEngine(a, o);
            && HighestIsHonest(b) && b.engine.Some?
            && b.engine.value.minInterval == (if a.nHzNeeded then MIN_INTERVAL else o.minInterval)
            && b == a.(engine := b.engine, atHighest := b.atHighest)
  {
  }

  lemma SaveServes(a: Adapter, key: Key, o: Options)
    requires WellSaved(a.sessions) && HighestIsHonest(a) && o.size > 0 && o.minInterval >= MIN_INTERVAL
    requires a.engine.Some? && a.engine.value.minInterval <= o.minInterval
    requires forall e :: e in a.sessions && e.key != key ==> a.engine.value.minInterval <= e.value.minInterval
    ensures Healthy(a.(sessions := Put(Before, a.sessions, key, o)))
  {
    PutMembers(Before, a.sessions, key, o);
    PutIsDistinct(Before, a.sessions, key, o);
    assert Entry(key, o) in Put(Before, a.sessions, key, o);
  }

  lemma StartMultiplexServes(a: Adapter, o: Options)
    requires WellSaved(a.sessions) && HighestIsHonest(a) && o.minInterval >= MIN_INTERVAL
    requires a.sessions != [] ==> Serves(a.engine, a.sessions)
    ensures var b := StartMultiplex(a, o);
            && HighestIsHonest(b) && b.engine.Some?
            && b == a.(engine := b.engine, atHighest := b.atHighest)
            && b.engine.value.minInterval <= o.minInterval
            && (forall e :: e in a.sessions ==> b.engine.value.minInterval <= e.value.minInterval)
  {
    FastestIsLeast(a.sessions, None);
    if a.sessions == [] {
      StartEngineRuns(a, o);
    } else {
      assert a.sessions[0] in a.sessions;
      var (merged, changed) := Merge(Fastest(a.sessions, None), o);
      StartEngineRuns(a, merged);
    }
  }

  lemma StartSaves(a: Adapter, key: Key, o: Options)
    requires WellSaved(a.sessions) && HighestIsHonest(a)
    requires a.sessions != [] ==> Serves(a.engine, a.sessions)
    requires o.size > 0 && o.minInterval >= MIN_INTERVAL
    requires !(o.minDistance > 0 && a.distanceSupported)
    ensures Healthy(Save(StartMultiplex(a, o), key, o))
  {
    StartMultiplexServes(a, o);
    SaveServes(StartMultiplex(a, o), key, o);
  }

  /** With another session beside the skipped one, the choice among the others is a real one. */
  lemma OthersAreServed(a: Adapter, key: Key)
    requires Healthy(a) && Has(a.sessions, key) && |a.sessions| != 1
    ensures var c := Fastest(a.sessions, Some(key)).options;
            && c.size > 0 && c.minInterval >= MIN_INTERVAL
            && (forall e :: e in a.sessions && e.key != key ==> c.minInterval <= e.value.minInterval)
            && (exists e :: e in a.sessions && e.key != key && e.value == c)
  {
    FastestIsLeast(a.sessions, Some(key));
    assert a.sessions[0].key != a.sessions[1].key;
    assert a.sessions[0] in a.sessions && a.sessions[1] in a.sessions;
  }

  lemma UpdateMultiplexServes(a: Adapter, key: Key, o: Options)
    requires Healthy(a) && Has(a.sessions, key) && o.minInterval >= MIN_INTERVAL
    ensures var b := UpdateMultiplex(a, key, o);
            && HighestIsHonest(b) && b.engine.Some?
            && b == a.(engine := b.engine, atHighest := b.atHighest)
            && b.engine.value.minInterval <= o.minInterval
            && (forall e :: e in a.sessions && e.key != key ==> b.engine.value.minInterval <= e.value.minInterval)
  {
    var was := Lookup(a.sessions, key);
    assert Entry(key, was) in a.sessions;
    if |a.sessions| == 1 {
      assert a.sessions == [Entry(key, was)];
      StartEngineRuns(a, o);
    } else {
      OthersAreServed(a, key);
      var (merged, changed) := Merge(Fastest(a.sessions, Some(key)), o);
      StartEngineRuns(a, merged);
    }
  }

  lemma StopMultiplexServes(a: Adapter, key: Key)
    requires Healthy(a) && Has(a.sessions, key) && |a.sessions| > 1
    ensures var b := StopMultiplex(a, key);
            && HighestIsHonest(b) && b.engine.Some?
            && b == a.(engine := b.engine, atHighest := b.atHighest)
            && (forall e :: e in a.sessions && e.key != key ==> b.engine.value.minInterval <= e.value.minInterval)
  {
    OthersAreServed(a, key);
    var c := Fastest(a.sessions, Some(key));
    StartEngineRuns(a, c.options.(power := c.power));
  }

  lemma StopTimeBasedServes(a: Adapter, key: Key)
    requires Healthy(a)
    ensures Healthy(StopTimeBased(a, key))
    ensures StopTimeBased(a, key).distance == a.distance
    ensures StopTimeBased(a, key).distanceSupported == a.distanceSupported
  {
    if Has(a.sessions, key) {
      EraseMembers(a.sessions, key);
      EraseIsDistinct(a.sessions, key);
      if |a.sessions| > 1 {
        StopMultiplexServes(a, key);
      }
    }
  }

  lemma {:induction false} StopAllServes(a: Adapter, keys: seq<Key>)
    requires Healthy(a)
    ensures Healthy(StopAll(a, keys))
    ensures StopAll(a, keys).distanceSupported == a.distanceSupported
  {
    if keys != [] {
      StopAllServes(a, keys[..|keys|-1]);
      StopTimeBasedServes(StopAll(a, keys[..|keys|-1]), keys[|keys|-1]);
    }
  }

  /** A restart puts the engine at exactly the least interval, whatever it was doing before. */
  lemma RestartIsTight(a: Adapter)
    requires WellSaved(a.sessions) && (a.sessions == [] ==> a.engine.None?)
    ensures Healthy(Restart(a))
    ensures !a.nHzNeeded ==> Tight(Restart(a).engine, a.sessions)
    ensures Restart(a).sessions == a.sessions
  {
    if a.sessions != [] {
      FastestIsLeast(a.sessions, None);
      assert a.sessions[0] in a.sessions;
      var fastest := Fastest(a.sessions, None).options;
      StartEngineRuns(a.(atHighest := false), HighestPower(a.sessions).(
        size := OPTIONS_SIZE, minInterval := fastest.minInterval, minDistance := fastest.minDistance));
    }
  }

  // ---------------------------------------------------------------- every run

  /** The one message outside the promise: moving a time-based session to distance-based tracking on
      a modem that does not track by distance. */
  predicate MovesToUnsupported(a: Adapter, msg: Message) {
    && !a.distanceSupported && msg.Update? && msg.options.size > 0 && msg.options.minDistance > 0
    && (Has(a.sessions, msg.key) || Has(a.distance, msg.key))
  }

  lemma UpdateStaysHealthy(a: Adapter, key: Key, options: Options)
    requires Healthy(a) && !MovesToUnsupported(a, Update(key, options))
    ensures Healthy(HandleUpdate(a, key, options))
  {
    var o := Clamp(Fallback(options));
    if options.size > 0 && (Has(a.sessions, key) || Has(a.distance, key)) {
      if Has(a.sessions, key) && o.minDistance > 0 {
        StopTimeBasedServes(a, key);
      } else if Has(a.distance, key) && o.minDistance == 0 {
        EraseMembers(a.sessions, key);
        EraseIsDistinct(a.sessions, key);
        StartSaves(Drop(a, key), key, o);
      } else if Has(a.sessions, key) {
        UpdateMultiplexServes(a, key, o);
        SaveServes(UpdateMultiplex(a, key, o), key, o);
      }
    }
  }

  lemma StaysHealthy(a: Adapter, msg: Message)
    requires Healthy(a) && !MovesToUnsupported(a, msg)
    ensures Healthy(Handle(a, msg))
  {
    match msg
    case Start(key, options) =>
      if options.size > 0 && !(options.minDistance > 0 && a.distanceSupported) {
        StartSaves(a, key, Fallback(Clamp(options)));
      }
    case Update(key, options) => UpdateStaysHealthy(a, key, options);
    case Stop(key) => StopTimeBasedServes(a, key);
    case RemoveClient(client) => StopAllServes(a, KeysOf(a.sessions, client));
    case SuspendRestart => RestartIsTight(if a.sessions == [] then a else StopEngine(a));
    case ModemRestart => RestartIsTight(a.(engine := None));
    case NHzChanged(needed) => RestartIsTight(a.(nHzNeeded := needed));
  }

  /** Over every run of messages: the engine runs exactly while a time-based session exists, at least
      as fast as every session asks; and with an nHz need it runs at the highest rate. */
  lemma {:induction false} EveryRunIsHealthy(distanceSupported: bool, msgs: seq<Message>)
    requires forall i :: 0 <= i < |msgs| ==> !MovesToUnsupported(Run(distanceSupported, msgs[..i]), msgs[i])
    ensures Healthy(Run(distanceSupported, msgs))
  {
    if msgs != [] {
      var n := |msgs| - 1;
      forall i | 0 <= i < n
        ensures !MovesToUnsupported(Run(distanceSupported, msgs[..n][..i]), msgs[..n][i])
      {
        assert msgs[..n][..i] == msgs[..i];
      }
      EveryRunIsHealthy(distanceSupported, msgs[..n]);
      StaysHealthy(Run(distanceSupported, msgs[..n]), msgs[n]);
    }
  }

  // ---------------------------------------------------------------- how tight the engine is

  /** Options of a time-based session that is updated in place. */
  predicate UpdatesInPlace(a: Adapter, msg: Message) {
    msg.Update? && msg.options.size > 0 && Has(a.sessions, msg.key) && msg.options.minDistance == 0
  }

  /** Session ids are generated, so a start brings a new key. */
  predicate IsFresh(a: Adapter, msg: Message) {
    msg.Start? ==> !Has(a.sessions, msg.key)
  }

  lemma StartIsTight(a: Adapter, key: Key, o: Options)
    requires Healthy(a) && Tight(a.engine, a.sessions) && !a.nHzNeeded && !Has(a.sessions, key)
    requires o.size > 0 && o.minInterval >= MIN_INTERVAL && !(o.minDistance > 0 && a.distanceSupported)
    ensures var b := Save(StartMultiplex(a, o), key, o); Tight(b.engine, b.sessions)
  {
    var b := Save(StartMultiplex(a, o), key, o);
    PutMembers(Before, a.sessions, key, o);
    FastestIsLeast(a.sessions, None);
    assert Entry(key, o) in b.sessions;
    assert forall e :: e in a.sessions ==> e.key != key;
    if a.sessions != [] {
      assert a.sessions[0] in a.sessions;
      var w :| w in a.sessions && w.value == Fastest(a.sessions, None).options;
      assert w in b.sessions;
      var v :| v in a.sessions && v.value.minInterval == a.engine.value.minInterval;
      assert v in b.sessions;
    }
  }

  /** The session that the engine is switched to survives the stop. */
  lemma ChosenSurvives(a: Adapter, key: Key) returns (w: Entry<Key, Options>)
    requires Healthy(a) && Has(a.sessions, key) && |a.sessions| != 1
    ensures w in Erase(a.sessions, key) && w.value == Fastest(a.sessions, Some(key)).options
  {
    OthersAreServed(a, key);
    EraseMembers(a.sessions, key);
    w :| w in a.sessions && w.key != key && w.value == Fastest(a.sessions, Some(key)).options;
  }

  lemma StopIsTight(a: Adapter, key: Key)
    requires Healthy(a) && Tight(a.engine, a.sessions) && !a.nHzNeeded
    ensures var b := StopTimeBased(a, key); Tight(b.engine, b.sessions)
    ensures StopTimeBased(a, key).nHzNeeded == a.nHzNeeded
  {
    if Has(a.sessions, key) && |a.sessions| != 1 {
      var b := StopTimeBased(a, key);
      var w := ChosenSurvives(a, key);
      assert w in b.sessions;
      StopErases(a, key);
      if a.engine.Some? {
        var v :| v in a.sessions && v.value.minInterval == a.engine.value.minInterval;
        if v.key != key {
          assert v in b.sessions;
        } else {
          LookupFinds(a.sessions, v);
        }
      }
    }
  }

  lemma {:induction false} StopAllIsTight(a: Adapter, keys: seq<Key>)
    requires Healthy(a) && Tight(a.engine, a.sessions) && !a.nHzNeeded
    ensures var b := StopAll(a, keys); Tight(b.engine, b.sessions) && !b.nHzNeeded
  {
    if keys != [] {
      StopAllIsTight(a, keys[..|keys|-1]);
      StopAllServes(a, keys[..|keys|-1]);
      StopIsTight(StopAll(a, keys[..|keys|-1]), keys[|keys|-1]);
    }
  }

  lemma StaysTight(a: Adapter, msg: Message)
    requires Healthy(a) && Tight(a.engine, a.sessions) && !a.nHzNeeded && msg != NHzChanged(true)
    requires !MovesToUnsupported(a, msg) && !UpdatesInPlace(a, msg) && IsFresh(a, msg)
    ensures var b := Handle(a, msg); Tight(b.engine, b.sessions) && !b.nHzNeeded
  {
    match msg
    case Start(key, options) =>
      var o := Fallback(Clamp(options));
      if options.size > 0 && !(o.minDistance > 0 && a.distanceSupported) {
        StartIsTight(a, key, o);
      }
    case Update(key, options) =>
      if options.size > 0 && Has(a.sessions, key) {
        StopIsTight(a, key);
      } else if options.size > 0 && Has(a.distance, key) && options.minDistance == 0 {
        StartIsTight(Drop(a, key), key, Clamp(Fallback(options)));
      }
    case Stop(key) => StopIsTight(a, key);
    case RemoveClient(client) => StopAllIsTight(a, KeysOf(a.sessions, client));
    case SuspendRestart => RestartIsTight(if a.sessions == [] then a else StopEngine(a));
    case ModemRestart => RestartIsTight(a.(engine := None));
    case NHzChanged(needed) =>
  }

  /** Without nHz need and without in-place updates the engine runs at exactly the least interval. */
  lemma {:induction false} EveryRunIsTight(distanceSupported: bool, msgs: seq<Message>)
    requires forall i :: 0 <= i < |msgs| ==>
      var a := Run(distanceSupported, msgs[..i]);
      && !MovesToUnsupported(a, msgs[i]) && !UpdatesInPlace(a, msgs[i]) && IsFresh(a, msgs[i])
      && msgs[i] != NHzChanged(true)
    ensures var a := Run(distanceSupported, msgs); Healthy(a) && Tight(a.engine, a.sessions) && !a.nHzNeeded
  {
    if msgs != [] {
      var n := |msgs| - 1;
      assert forall i :: 0 <= i < n ==> msgs[..n][..i] == msgs[..i] && msgs[..n][i] == msgs[i];
      EveryRunIsTight(distanceSupported, msgs[..n]);
      StaysHealthy(Run(distanceSupported, msgs[..n]), msgs[n]);
      StaysTight(Run(distanceSupported, msgs[..n]), msgs[n]);
    }
  }

  /** The session that set the pace slows down to the others or below, and asks for no stronger power
      mode than they do: the engine is then left running as before. */
  predicate LeavesEngineFast(a: Adapter, key: Key, o: Options)
    requires Has(a.sessions, key)
  {
    var others := Fastest(a.sessions, Some(key));
    && |a.sessions| > 1
    && Lookup(a.sessions, key).minInterval < others.options.minInterval <= o.minInterval
    && o.power >= others.power
  }

  /** The interval an in-place update leaves the engine at, with other sessions around. */
  lemma UpdateEngine(a: Adapter, key: Key, o: Options)
    requires Healthy(a) && !a.nHzNeeded && Has(a.sessions, key) && |a.sessions| > 1
    ensures var others := Fastest(a.sessions, Some(key));
            var was := Lookup(a.sessions, key);
            var b := UpdateMultiplex(a, key, o);
            b.engine.Some? && b.engine.value.minInterval ==
              if was.minInterval == o.minInterval && was.power == o.power then a.engine.value.minInterval
              else if o.minInterval < others.options.minInterval then o.minInterval
              else if o.power < others.power then others.options.minInterval
              else a.engine.value.minInterval
  {
  }

  /** After the update, the engine is tight when it runs at the new interval of the session or at
      the least of the others, and only then. */
  lemma TightAfterPut(a: Adapter, key: Key, o: Options, engine: Options)
    requires Healthy(a) && Has(a.sessions, key) && |a.sessions| > 1
    requires forall e :: e in a.sessions && e.key != key ==> engine.minInterval <= e.value.minInterval
    ensures Tight(Some(engine), Put(Before, a.sessions, key, o)) <==>
            engine.minInterval == o.minInterval ||
            engine.minInterval == Fastest(a.sessions, Some(key)).options.minInterval
  {
    OthersAreServed(a, key);
    PutMembers(Before, a.sessions, key, o);
    assert Entry(key, o) in Put(Before, a.sessions, key, o);
    var w :| w in a.sessions && w.key != key && w.value == Fastest(a.sessions, Some(key)).options;
    assert w in Put(Before, a.sessions, key, o);
  }

  /** An in-place update keeps a tight engine tight exactly when it does not leave it fast. */
  lemma UpdateIsTightExactly(a: Adapter, key: Key, options: Options)
    requires Healthy(a) && Tight(a.engine, a.sessions) && !a.nHzNeeded
    requires UpdatesInPlace(a, Update(key, options)) && !Has(a.distance, key)
    ensures var b := Handle(a, Update(key, options));
            Tight(b.engine, b.sessions) <==> !LeavesEngineFast(a, key, Clamp(Fallback(options)))
  {
    var o := Clamp(Fallback(options));
    var was := Lookup(a.sessions, key);
    assert Entry(key, was) in a.sessions;
    if |a.sessions| == 1 {
      assert a.sessions == [Entry(key, was)];
      PutMembers(Before, a.sessions, key, o);
      assert Entry(key, o) in Put(Before, a.sessions, key, o);
    } else {
      UpdateMultiplexServes(a, key, o);
      UpdateEngine(a, key, o);
      TightAfterPut(a, key, o, UpdateMultiplex(a, key, o).engine.value);
      TightBefore(a, key);
    }
  }

  /** A tight engine is paced by the session itself or by the others. */
  lemma TightBefore(a: Adapter, key: Key)
    requires Healthy(a) && Tight(a.engine, a.sessions) && Has(a.sessions, key) && |a.sessions| > 1
    ensures var others := Fastest(a.sessions, Some(key)).options;
            && a.engine.value.minInterval <= others.minInterval
            && a.engine.value.minInterval <= Lookup(a.sessions, key).minInterval
            && (a.engine.value.minInterval == others.minInterval
                || a.engine.value.minInterval == Lookup(a.sessions, key).minInterval)
  {
    OthersAreServed(a, key);
    var v :| v in a.sessions && v.value.minInterval == a.engine.value.minInterval;
    LookupFinds(a.sessions, v);
  }

  lemma FirstSession(distanceSupported: bool, key: Key, o: Options)
    requires o.size > 0 && o.minInterval >= MIN_INTERVAL && o.minDistance == 0 && o.power == 2
    ensures Run(distanceSupported, [Start(key, o)]) ==
            Adapter([Entry(key, o)], [], Some(o), false, false, distanceSupported)
  {
    var none: Sessions := [];
    var msgs := [Start(key, o)];
    assert msgs[..0] == [];
    assert Run(distanceSupported, msgs) == Handle(Idle(distanceSupported), msgs[0]);
    assert Insert(Before, none, key, o) == [Entry(key, o)];
  }

  lemma TwoSessions(o1: Options, o2: Options)
    requires o1.size > 0 && o2.size > 0 && o1.power == o2.power == 2
    requires MIN_INTERVAL <= o1.minInterval <= o2.minInterval && o1.minDistance == o2.minDistance == 0
    ensures Run(true, [Start(Key(1, 1), o1), Start(Key(2, 2), o2)]) ==
            Adapter([Entry(Key(1, 1), o1), Entry(Key(2, 2), o2)], [], Some(o1), false, false, true)
  {
    var msgs := [Start(Key(1, 1), o1), Start(Key(2, 2), o2)];
    var e1: Entry<Key, Options> := Entry(Key(1, 1), o1);
    var e2: Entry<Key, Options> := Entry(Key(2, 2), o2);
    assert msgs[..1] == [Start(Key(1, 1), o1)];
    FirstSession(true, Key(1, 1), o1);
    assert Insert(Before, [e1][1..], Key(2, 2), o2) == [e2];
    assert Fastest([e1], None) == Choice(o1, 2) by {
      assert [e1][..0] == [];
    }
  }

  /** The first of two sessions slows down past the second one without a change of its power mode. */
  lemma PaceSetterSlowsDown(o1: Options, o2: Options, o: Options)
    requires o1.size > 0 && o2.size > 0 && o.size > 0 && o1.power == o2.power == o.power == 2
    requires MIN_INTERVAL <= o1.minInterval < o2.minInterval <= o.minInterval
    requires o1.minDistance == o2.minDistance == o.minDistance == 0
    ensures var a := Adapter([Entry(Key(1, 1), o1), Entry(Key(2, 2), o2)], [], Some(o1), false, false, true);
            && Has(a.sessions, Key(1, 1))
            && LeavesEngineFast(a, Key(1, 1), o)
            && Handle(a, Update(Key(1, 1), o)) == a.(sessions := [Entry(Key(1, 1), o), Entry(Key(2, 2), o2)])
  {
    var e1: Entry<Key, Options> := Entry(Key(1, 1), o1);
    var e2: Entry<Key, Options> := Entry(Key(2, 2), o2);
    var a := Adapter([e1, e2], [], Some(o1), false, false, true);
    assert a.sessions[0].key == Key(1, 1);
    assert [e1, e2][..1] == [e1] && [e1][..0] == [];
    assert Fastest([e1], Some(Key(1, 1))) == UNSET;
    assert Fastest([e1, e2], Some(Key(1, 1))) == Choice(o2, 2);
    assert UpdateMultiplex(a, Key(1, 1), o) == a;
    assert [e1, e2][1..] == [e2] && [e2][1..] == [];
    assert Replace([e2], Key(1, 1), o) == [e2];
    assert Put(Before, a.sessions, Key(1, 1), o) == [Entry(Key(1, 1), o), e2];
  }

  /** One client at 100 ms and one at 1000 ms: when the first slows down to 5000 ms, the engine stays at 100 ms
      although every session is content with 1000 ms or more. */
  lemma UpdateLeavesEngineFast()
    ensures var a := Run(true, [Start(Key(1, 1), Options(OPTIONS_SIZE, 100, 0, 2, 0)),
                                Start(Key(2, 2), Options(OPTIONS_SIZE, 1000, 0, 2, 0))]);
            var b := Handle(a, Update(Key(1, 1), Options(OPTIONS_SIZE, 5000, 0, 2, 0)));
            && Tight(a.engine, a.sessions)
            && b.engine.Some? && b.engine.value.minInterval == 100
            && forall e :: e in b.sessions ==> e.value.minInterval >= 1000
  {
    var o1, o2 := Options(OPTIONS_SIZE, 100, 0, 2, 0), Options(OPTIONS_SIZE, 1000, 0, 2, 0);
    TwoSessions(o1, o2);
    PaceSetterSlowsDown(o1, o2, Options(OPTIONS_SIZE, 5000, 0, 2, 0));
    var e1: Entry<Key, Options> := Entry(Key(1, 1), o1);
    var a := Run(true, [Start(Key(1, 1), o1), Start(Key(2, 2), o2)]);
    assert a.sessions[0] == e1 && e1 in a.sessions;
  }

  // ---------------------------------------------------------------- the unsupported move

  /** The interval that the engine is left with when one of several sessions stops, with nHz need out of play. */
  function PaceWithout(a: Adapter, key: Key): nat
    requires a.engine.Some? && Has(a.sessions, key)
  {
    var was, others := Lookup(a.sessions, key), Fastest(a.sessions, Some(key));
    if was.minInterval < others.options.minInterval || was.power < others.power then others.options.minInterval
    else a.engine.value.minInterval
  }

  /** Without distance tracking, the move stops the session's engine use and then saves it as a time-based session
      again, without starting anything: the session is served exactly if there are others and either the highest
      rate is needed anyway, or the pace they are left with is fast enough for its new interval. */
  lemma UnsupportedMoveExactly(a: Adapter, key: Key, options: Options)
    requires Healthy(a) && MovesToUnsupported(a, Update(key, options)) && Has(a.sessions, key)
    ensures Healthy(Handle(a, Update(key, options))) <==>
            |a.sessions| > 1 && (a.nHzNeeded || PaceWithout(a, key) <= Clamp(options).minInterval)
  {
    var o := Clamp(Fallback(options));
    var b := StopTimeBased(a, key);
    StopTimeBasedServes(a, key);
    EraseIsDistinct(a.sessions, key);
    PutMembers(Before, b.sessions, key, o);
    assert Entry(key, o) in Put(Before, b.sessions, key, o);
    if |a.sessions| > 1 {
      StoppedPace(a, key);
      if b.engine.value.minInterval <= o.minInterval {
        SaveServes(b, key, o);
      }
    }
  }

  lemma StoppedPace(a: Adapter, key: Key)
    requires Healthy(a) && Has(a.sessions, key) && |a.sessions| > 1
    ensures StopTimeBased(a, key).engine.Some?
    ensures StopTimeBased(a, key).engine.value.minInterval == if a.nHzNeeded then MIN_INTERVAL else PaceWithout(a, key)
  {
    OthersAreServed(a, key);
    var c := Fastest(a.sessions, Some(key));
    StartEngineRuns(a, c.options.(power := c.power));
  }

  /** The only session moves to distance tracking on a modem that lacks it: it is kept as a time-based one, and
      the engine is off. */
  lemma UnsupportedMoveStopsEngine()
    ensures var a := Run(false, [Start(Key(1, 1), Options(OPTIONS_SIZE, 1000, 0, 2, 0))]);
            var b := Handle(a, Update(Key(1, 1), Options(OPTIONS_SIZE, 1000, 50, 2, 0)));
            && Healthy(a) && a.engine.Some?
            && b.sessions == [Entry(Key(1, 1), Options(OPTIONS_SIZE, 1000, 50, 2, 0))] && b.engine.None? && !Healthy(b)
  {
    var o, moved := Options(OPTIONS_SIZE, 1000, 0, 2, 0), Options(OPTIONS_SIZE, 1000, 50, 2, 0);
    FirstSession(false, Key(1, 1), o);
    var a := Run(false, [Start(Key(1, 1), o)]);
    assert a.sessions[0].key == Key(1, 1);
    var none: Sessions := [];
    assert a.sessions[1..] == none && Erase(a.sessions, Key(1, 1)) == none;
    assert Put(Before, none, Key(1, 1), moved) == [Entry(Key(1, 1), moved)];
  }

  // ---------------------------------------------------------------- client removal

  lemma {:induction false} KeysOfFacts(m: Sessions, client: int)
    ensures forall k :: k in KeysOf(m, client) <==> k.client == client && Has(m, k)
  {
    if m != [] {
      var n := |m| - 1;
      KeysOfFacts(m[..n], client);
      forall k ensures Has(m, k) <==> Has(m[..n], k) || m[n].key == k {
        if i :| 0 <= i < |m| && m[i].key == k {
          assert i < n ==> m[..n][i].key == k;
        }
        if i :| 0 <= i < n && m[..n][i].key == k {
          assert m[i].key == k;
        }
      }
    }
  }

  lemma StopErases(a: Adapter, key: Key)
    ensures forall e :: e in StopTimeBased(a, key).sessions <==> e in a.sessions && e.key != key
  {
    EraseMembers(a.sessions, key);
    assert forall e :: e in a.sessions && e.key == key ==> Has(a.sessions, key);
  }

  lemma {:induction false} StopAllErases(a: Adapter, keys: seq<Key>)
    ensures forall e :: e in StopAll(a, keys).sessions <==> e in a.sessions && e.key !in keys
  {
    if keys != [] {
      var n := |keys| - 1;
      StopAllErases(a, keys[..n]);
      StopErases(StopAll(a, keys[..n]), keys[n]);
      assert forall k :: k in keys <==> k in keys[..n] || k == keys[n] by {
        assert keys == keys[..n] + [keys[n]];
      }
    }
  }

  lemma {:induction false} EraseClientMembers(m: Sessions, client: int)
    ensures forall e :: e in EraseClient(m, client) <==> e in m && e.key.client != client
  {
    if m != [] {
      EraseClientMembers(m[1..], client);
      assert m == [m[0]] + m[1..];
    }
  }

  lemma {:induction false} StopAllKeepsDistance(a: Adapter, keys: seq<Key>)
    ensures StopAll(a, keys).distance == a.distance
  {
    if keys != [] {
      StopAllKeepsDistance(a, keys[..|keys|-1]);
    }
  }

  /** Removing a client removes exactly its sessions, time-based and distance-based. */
  lemma RemoveClientIsExact(a: Adapter, client: int)
    ensures var b := Handle(a, RemoveClient(client));
            && (forall e :: e in b.sessions <==> e in a.sessions && e.key.client != client)
            && (forall e :: e in b.distance <==> e in a.distance && e.key.client != client)
  {
    KeysOfFacts(a.sessions, client);
    StopAllErases(a, KeysOf(a.sessions, client));
    assert forall e :: e in a.sessions ==> Has(a.sessions, e.key);
    StopAllKeepsDistance(a, KeysOf(a.sessions, client));
    EraseClientMembers(a.distance, client);
  }
}
