/** Which sessions the adapter keeps, in which map and with which options, told by the messages alone; and what
    becomes of the engine at the messages that only concern it.
 */
module TrackingMaps {
  import opened Wrappers
  import opened OrderedMaps
  import opened Tracking

  /** The options a session runs with: no interval below 100 ms, and no deep power mode for a time between
      measurements beyond its threshold, unless the session starts out as a distance-based one. */
  predicate Granted(asked: Options, starts: bool, byDistance: bool, o: Options) {
    && o.minInterval == (if asked.minInterval < 100 then 100 else asked.minInterval)
    && o.power == (if asked.power == POWER_M4 && asked.tbm > 480000 && !(starts && byDistance) then POWER_M2
                   else asked.power)
    && o.size == asked.size && o.minDistance == asked.minDistance && o.tbm == asked.tbm
  }

  /** What a session last asked for, and whether that was at its start. */
  datatype Wish = Wish(asked: Options, atStart: bool)

  predicate ByDistance(asked: Options, supported: bool) {
    asked.minDistance > 0 && supported
  }

  /** The options of a session in one map, if it is there. */
  function In(m: Sessions, key: Key): Option<Options> {
    if Has(m, key) then Some(Lookup(m, key)) else None
  }

  /** Without a wish a session is in neither map; with one it is in the map that fits it, as granted, and not in
      the other. */
  predicate Filed(a: Adapter, key: Key, wish: Option<Wish>) {
    if wish.None? then In(a.sessions, key).None? && In(a.distance, key).None?
    else if ByDistance(wish.value.asked, a.distanceSupported) then
      && In(a.sessions, key).None? && In(a.distance, key).Some?
      && Granted(wish.value.asked, wish.value.atStart, true, In(a.distance, key).value)
    else
      && In(a.distance, key).None? && In(a.sessions, key).Some?
      && Granted(wish.value.asked, wish.value.atStart, false, In(a.sessions, key).value)
  }

  ghost predicate Ordered(a: Adapter) {
    Distinct(a.sessions) && Distinct(a.distance)
  }

  // ---------------------------------------------------------------- the maps

  lemma HasOfMembers(m: Sessions, key: Key)
    ensures Has(m, key) <==> exists e :: e in m && e.key == key
  {
    if i :| 0 <= i < |m| && m[i].key == key {
      assert m[i] in m;
    }
  }

  /** What is in a map is told by its entries. */
  lemma InOfMembers(m: Sessions, key: Key, o: Options)
    requires Distinct(m)
    ensures In(m, key) == Some(o) <==> Entry(key, o) in m
  {
    if Entry(key, o) in m {
      LookupFinds(m, Entry(key, o));
    }
  }

  lemma SameOption(a: Option<Options>, b: Option<Options>)
    requires forall o :: a == Some(o) <==> b == Some(o)
    ensures a == b
  {
    if a.Some? {
      assert a == Some(a.value);
    } else if b.Some? {
      assert b == Some(b.value);
    }
  }

  lemma PutFiles(m: Sessions, key: Key, o: Options, k: Key)
    requires Distinct(m)
    ensures Distinct(Put(Before, m, key, o))
    ensures In(Put(Before, m, key, o), k) == if k == key then Some(o) else In(m, k)
  {
    var n := Put(Before, m, key, o);
    PutMembers(Before, m, key, o);
    PutIsDistinct(Before, m, key, o);
    forall p ensures In(n, k) == Some(p) <==> (if k == key then Some(o) else In(m, k)) == Some(p) {
      InOfMembers(m, k, p);
      InOfMembers(n, k, p);
    }
    SameOption(In(n, k), if k == key then Some(o) else In(m, k));
  }

  lemma EraseFiles(m: Sessions, key: Key, k: Key)
    requires Distinct(m)
    ensures Distinct(Erase(m, key))
    ensures In(Erase(m, key), k) == if k == key then None else In(m, k)
  {
    var n := Erase(m, key);
    EraseMembers(m, key);
    EraseIsDistinct(m, key);
    forall p ensures In(n, k) == Some(p) <==> (if k == key then None else In(m, k)) == Some(p) {
      InOfMembers(m, k, p);
      InOfMembers(n, k, p);
    }
    SameOption(In(n, k), if k == key then None else In(m, k));
  }

  lemma {:induction false} EraseClientIsDistinct(m: Sessions, client: int)
    requires Distinct(m)
    ensures Distinct(EraseClient(m, client))
  {
    if m != [] {
      DistinctTail(m);
      EraseClientIsDistinct(m[1..], client);
      if m[0].key.client != client {
        EraseClientMembers(m[1..], client);
        DistinctCons(m[0], EraseClient(m[1..], client));
      }
    }
  }

  lemma {:induction false} StopAllIsOrdered(a: Adapter, keys: seq<Key>)
    requires Ordered(a)
    ensures Ordered(StopAll(a, keys)) && StopAll(a, keys).distanceSupported == a.distanceSupported
  {
    StopAllKeepsDistance(a, keys);
    if keys != [] {
      StopAllIsOrdered(a, keys[..|keys|-1]);
      EraseIsDistinct(StopAll(a, keys[..|keys|-1]).sessions, keys[|keys|-1]);
    }
  }

  lemma RemovalFiles(a: Adapter, client: int, k: Key)
    requires Ordered(a)
    ensures var b := Handle(a, RemoveClient(client));
            && Ordered(b) && b.distanceSupported == a.distanceSupported
            && In(b.sessions, k) == (if k.client == client then None else In(a.sessions, k))
            && In(b.distance, k) == (if k.client == client then None else In(a.distance, k))
  {
    var b := Handle(a, RemoveClient(client));
    StopAllIsOrdered(a, KeysOf(a.sessions, client));
    StopAllKeepsDistance(a, KeysOf(a.sessions, client));
    EraseClientIsDistinct(a.distance, client);
    RemoveClientIsExact(a, client);
    forall p
      ensures In(b.sessions, k) == Some(p) <==> (if k.client == client then None else In(a.sessions, k)) == Some(p)
      ensures In(b.distance, k) == Some(p) <==> (if k.client == client then None else In(a.distance, k)) == Some(p)
    {
      InOfMembers(a.sessions, k, p);
      InOfMembers(b.sessions, k, p);
      InOfMembers(a.distance, k, p);
      InOfMembers(b.distance, k, p);
    }
    SameOption(In(b.sessions, k), if k.client == client then None else In(a.sessions, k));
    SameOption(In(b.distance, k), if k.client == client then None else In(a.distance, k));
  }

  // ---------------------------------------------------------------- one message

  /** The wish after one more message. */
  function NextWish(wish: Option<Wish>, key: Key, msg: Message): Option<Wish> {
    match msg
    case Start(k, o) => if k == key && o.size > 0 then Some(Wish(o, true)) else wish
    case Update(k, o) => if k == key && o.size > 0 && wish.Some? then Some(Wish(o, false)) else wish
    case Stop(k) => if k == key then None else wish
    case RemoveClient(client) => if key.client == client then None else wish
    case SuspendRestart => wish
    case ModemRestart => wish
    case NHzChanged(_) => wish
  }

  /** The same maps, and the same modem. */
  predicate SameMaps(a: Adapter, b: Adapter) {
    && a.sessions == b.sessions && a.distance == b.distance && a.distanceSupported == b.distanceSupported
    && a.nHzNeeded == b.nHzNeeded
  }

  /** Driving the engine touches no map. */
  lemma EngineKeepsMaps(a: Adapter, key: Key, o: Options)
    ensures SameMaps(a, StartMultiplex(a, o)) && SameMaps(a, Restart(a))
    ensures Has(a.sessions, key) ==> SameMaps(a, UpdateMultiplex(a, key, o)) && SameMaps(a, StopMultiplex(a, key))
  {
  }

  lemma SaveFiles(a: Adapter, key: Key, o: Options, k: Key)
    requires Ordered(a)
    ensures var b, byDistance := Save(a, key, o), ByDistance(o, a.distanceSupported);
            && Ordered(b) && b.distanceSupported == a.distanceSupported
            && In(b.sessions, k) == (if k == key && !byDistance then Some(o) else In(a.sessions, k))
            && In(b.distance, k) == (if k == key && byDistance then Some(o) else In(a.distance, k))
  {
    PutFiles(a.sessions, key, o, k);
    PutFiles(a.distance, key, o, k);
  }

  lemma DropFiles(a: Adapter, key: Key, k: Key)
    requires Ordered(a)
    ensures var b := Drop(a, key);
            && Ordered(b) && b.distanceSupported == a.distanceSupported
            && In(b.sessions, k) == (if k == key then None else In(a.sessions, k))
            && In(b.distance, k) ==
               (if k == key && In(a.sessions, key).None? then None else In(a.distance, k))
  {
    EraseFiles(a.sessions, key, k);
    EraseFiles(a.distance, key, k);
  }

  lemma ClampGrants(o: Options, starts: bool, byDistance: bool)
    ensures Granted(o, starts, byDistance, if starts && byDistance then Clamp(o) else Fallback(Clamp(o)))
    ensures Clamp(Fallback(o)) == Fallback(Clamp(o))
    ensures Clamp(o).minDistance == Fallback(Clamp(o)).minDistance == o.minDistance
  {
  }

  lemma StartFiles(a: Adapter, key: Key, o: Options, k: Key, wish: Option<Wish>)
    requires Ordered(a) && Filed(a, k, wish) && (k == key ==> wish.None?)
    ensures var b := Handle(a, Start(key, o));
            Ordered(b) && b.distanceSupported == a.distanceSupported && Filed(b, k, NextWish(wish, k, Start(key, o)))
  {
    var c := Clamp(o);
    ClampGrants(o, true, ByDistance(o, a.distanceSupported));
    if o.size > 0 && ByDistance(o, a.distanceSupported) {
      SaveFiles(a, key, c, k);
    } else if o.size > 0 {
      EngineKeepsMaps(a, key, Fallback(c));
      SaveFiles(StartMultiplex(a, Fallback(c)), key, Fallback(c), k);
    }
  }

  lemma StopFiles(a: Adapter, key: Key, k: Key, wish: Option<Wish>)
    requires Ordered(a) && Filed(a, k, wish)
    requires In(a.sessions, key).Some? ==> In(a.distance, key).None?
    ensures var b := Handle(a, Stop(key));
            Ordered(b) && b.distanceSupported == a.distanceSupported && Filed(b, k, NextWish(wish, k, Stop(key)))
  {
    if Has(a.sessions, key) {
      EngineKeepsMaps(a, key, UNSET.options);
      DropFiles(StopMultiplex(a, key), key, k);
    } else {
      DropFiles(a, key, k);
    }
  }

  /** Where an update files its session: in the map that fits it now, and in no other. */
  lemma UpdateSaves(a: Adapter, key: Key, o: Options, k: Key)
    requires Ordered(a) && o.size > 0
    requires In(a.sessions, key).Some? != In(a.distance, key).Some?
    requires In(a.distance, key).Some? ==> a.distanceSupported
    ensures var b, byDistance := Handle(a, Update(key, o)), ByDistance(o, a.distanceSupported);
            && Ordered(b) && b.distanceSupported == a.distanceSupported
            && In(b.sessions, k) ==
               (if k != key then In(a.sessions, k) else if byDistance then None else Some(Fallback(Clamp(o))))
            && In(b.distance, k) ==
               (if k != key then In(a.distance, k) else if byDistance then Some(Fallback(Clamp(o))) else None)
  {
    var c := Fallback(Clamp(o));
    ClampGrants(o, false, false);
    EngineKeepsMaps(a, key, c);
    if Has(a.sessions, key) && o.minDistance > 0 {
      var stopped := StopMultiplex(a, key);
      DropFiles(stopped, key, k);
      SaveFiles(Drop(stopped, key), key, c, k);
    } else if Has(a.sessions, key) {
      SaveFiles(UpdateMultiplex(a, key, c), key, c, k);
    } else if o.minDistance == 0 {
      var dropped := Drop(a, key);
      DropFiles(a, key, k);
      EngineKeepsMaps(dropped, key, c);
      SaveFiles(StartMultiplex(dropped, c), key, c, k);
    } else {
      SaveFiles(a, key, c, k);
    }
  }

  lemma UpdateFiles(a: Adapter, key: Key, o: Options, k: Key, wish: Option<Wish>, other: Option<Wish>)
    requires Ordered(a) && Filed(a, k, wish) && Filed(a, key, other) && (k == key ==> wish == other)
    ensures var b := Handle(a, Update(key, o));
            Ordered(b) && b.distanceSupported == a.distanceSupported && Filed(b, k, NextWish(wish, k, Update(key, o)))
  {
    if o.size > 0 && other.Some? {
      UpdateSaves(a, key, o, k);
      ClampGrants(o, false, ByDistance(o, a.distanceSupported));
    }
  }

  lemma StepFiles(a: Adapter, msg: Message, key: Key, wish: Option<Wish>, other: Option<Wish>)
    requires Ordered(a) && Filed(a, key, wish)
    requires msg.Start? && msg.key == key ==> wish.None?
    requires msg.Update? || msg.Stop? ==> Filed(a, msg.key, other) && (msg.key == key ==> wish == other)
    ensures var b := Handle(a, msg);
            Ordered(b) && b.distanceSupported == a.distanceSupported && Filed(b, key, NextWish(wish, key, msg))
  {
    match msg
    case Start(k, o) => StartFiles(a, k, o, key, wish);
    case Update(k, o) => UpdateFiles(a, k, o, key, wish, other);
    case Stop(k) => StopFiles(a, k, key, wish);
    case RemoveClient(client) => RemovalFiles(a, client, key);
    case SuspendRestart => EngineKeepsMaps(if a.sessions == [] then a else StopEngine(a), key, UNSET.options);
    case ModemRestart => EngineKeepsMaps(a.(engine := None), key, UNSET.options);
    case NHzChanged(needed) => EngineKeepsMaps(a.(nHzNeeded := needed), key, UNSET.options);
  }

  // ---------------------------------------------------------------- every run

  /** The wish that a session still has: asked for by its start or a later update with options that are set, and
      neither stopped nor removed with its client since. */
  function WishOf(msgs: seq<Message>, key: Key): Option<Wish> {
    if msgs == [] then None else NextWish(WishOf(msgs[..|msgs|-1], key), key, msgs[|msgs|-1])
  }

  /** Session ids are generated, so that no running session is started again. */
  predicate StartsAreNew(msgs: seq<Message>) {
    msgs == []
    || (var before, msg := msgs[..|msgs|-1], msgs[|msgs|-1];
        StartsAreNew(before) && (msg.Start? ==> WishOf(before, msg.key).None?))
  }

  /** Over every run, every session is filed as its own messages say: in the one map that fits what it last asked
      for, with the options granted for that, and in none once it was stopped or its client was removed. */
  lemma {:induction false} EverySessionIsFiled(distanceSupported: bool, msgs: seq<Message>, key: Key)
    requires StartsAreNew(msgs)
    ensures var a := Run(distanceSupported, msgs);
            Ordered(a) && a.distanceSupported == distanceSupported && Filed(a, key, WishOf(msgs, key))
    decreases |msgs|
  {
    if msgs != [] {
      var before, msg := msgs[..|msgs|-1], msgs[|msgs|-1];
      EverySessionIsFiled(distanceSupported, before, key);
      var other := key;
      if msg.Update? || msg.Stop? {
        other := msg.key;
        EverySessionIsFiled(distanceSupported, before, msg.key);
      }
      StepFiles(Run(distanceSupported, before), msg, key, WishOf(before, key), WishOf(before, other));
    }
  }

  /** A session that asks for a time-based one, or one on a modem without distance tracking. */
  predicate WantsEngine(distanceSupported: bool, msgs: seq<Message>, key: Key) {
    var wish := WishOf(msgs, key);
    wish.Some? && !ByDistance(wish.value.asked, distanceSupported)
  }

  lemma WantedIsTimeBased(distanceSupported: bool, msgs: seq<Message>, key: Key)
    requires StartsAreNew(msgs)
    ensures var m := Run(distanceSupported, msgs).sessions;
            && (WantsEngine(distanceSupported, msgs, key) <==> Has(m, key))
            && (Has(m, key) ==>
                  var asked := WishOf(msgs, key).value.asked;
                  Entry(key, Lookup(m, key)) in m
                  && Lookup(m, key).minInterval == if asked.minInterval < 100 then 100 else asked.minInterval)
  {
    EverySessionIsFiled(distanceSupported, msgs, key);
  }

  /** The engine is fast enough for what a session asked for, as far as it can be. */
  predicate FastEnough(engine: Option<Options>, asked: Options) {
    engine.Some? && engine.value.minInterval <= if asked.minInterval < 100 then 100 else asked.minInterval
  }

  lemma RunningIsWanted(distanceSupported: bool, msgs: seq<Message>) returns (key: Key)
    requires StartsAreNew(msgs) && Run(distanceSupported, msgs).sessions != []
    ensures WantsEngine(distanceSupported, msgs, key)
  {
    var m := Run(distanceSupported, msgs).sessions;
    key := m[0].key;
    assert Has(m, key);
    WantedIsTimeBased(distanceSupported, msgs, key);
  }

  /** Over every run of supported messages, the engine runs exactly while some session that was started and not
      stopped wants it, and fast enough for each of them. */
  lemma EngineServesTheWishes(distanceSupported: bool, msgs: seq<Message>)
    requires StartsAreNew(msgs)
    requires forall i :: 0 <= i < |msgs| ==> !MovesToUnsupported(Run(distanceSupported, msgs[..i]), msgs[i])
    ensures var engine := Run(distanceSupported, msgs).engine;
            && (engine.Some? <==> exists key :: WantsEngine(distanceSupported, msgs, key))
            && forall key :: WantsEngine(distanceSupported, msgs, key) ==>
                 FastEnough(engine, WishOf(msgs, key).value.asked)
  {
    var a := Run(distanceSupported, msgs);
    EveryRunIsHealthy(distanceSupported, msgs);
    forall key | WantsEngine(distanceSupported, msgs, key) ensures FastEnough(a.engine, WishOf(msgs, key).value.asked) {
      WantedIsTimeBased(distanceSupported, msgs, key);
      assert Entry(key, Lookup(a.sessions, key)) in a.sessions;
    }
    if a.sessions != [] {
      var key := RunningIsWanted(distanceSupported, msgs);
    }
  }

  // ---------------------------------------------------------------- messages about the engine alone

  /** Whatever the engine was left at, a suspension, a modem restart or the end of an nHz need puts it back at
      exactly the least interval. */
  lemma RestartsTighten(a: Adapter, msg: Message)
    requires Healthy(a)
    requires msg.SuspendRestart? || msg.ModemRestart? || (msg == NHzChanged(false) && a.nHzNeeded)
    ensures var b := Handle(a, msg);
            && Healthy(b) && b.sessions == a.sessions && b.distance == a.distance
            && (!b.nHzNeeded ==> Tight(b.engine, b.sessions))
  {
    match msg
    case SuspendRestart => RestartIsTight(if a.sessions == [] then a else StopEngine(a));
    case ModemRestart => RestartIsTight(a.(engine := None));
    case NHzChanged(needed) => RestartIsTight(a.(nHzNeeded := needed));
  }

  function LastNHz(msgs: seq<Message>): bool {
    msgs != [] && (if msgs[|msgs|-1].NHzChanged? then msgs[|msgs|-1].needed else LastNHz(msgs[..|msgs|-1]))
  }

  lemma {:induction false} StopAllKeepsNHz(a: Adapter, keys: seq<Key>)
    ensures StopAll(a, keys).nHzNeeded == a.nHzNeeded
  {
    if keys != [] {
      StopAllKeepsNHz(a, keys[..|keys|-1]);
    }
  }

  lemma StepKeepsNHz(a: Adapter, msg: Message)
    ensures Handle(a, msg).nHzNeeded == if msg.NHzChanged? then msg.needed else a.nHzNeeded
  {
    match msg
    case Start(key, o) => EngineKeepsMaps(a, key, Fallback(Clamp(o)));
    case Update(key, o) => UpdateKeepsNHz(a, key, o);
    case Stop(key) => EngineKeepsMaps(a, key, UNSET.options);
    case RemoveClient(client) => StopAllKeepsNHz(a, KeysOf(a.sessions, client));
    case SuspendRestart =>
    case ModemRestart =>
    case NHzChanged(_) =>
  }

  lemma UpdateKeepsNHz(a: Adapter, key: Key, o: Options)
    ensures Handle(a, Update(key, o)).nHzNeeded == a.nHzNeeded
  {
    EngineKeepsMaps(a, key, Clamp(Fallback(o)));
    EngineKeepsMaps(Drop(a, key), key, Clamp(Fallback(o)));
  }

  /** Over every run the nHz need is the one last announced. */
  lemma {:induction false} NHzNeedIsTheLast(distanceSupported: bool, msgs: seq<Message>)
    ensures Run(distanceSupported, msgs).nHzNeeded == LastNHz(msgs)
  {
    if msgs != [] {
      var before := msgs[..|msgs|-1];
      NHzNeedIsTheLast(distanceSupported, before);
      StepKeepsNHz(Run(distanceSupported, before), msgs[|msgs|-1]);
    }
  }
}
