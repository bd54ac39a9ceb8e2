/** The power mode of the engine: lower is stronger, and the engine should be as strong as the strongest session.
    Starts and updates that are faster than all others fall short of it, and this says exactly when.
 */
module TrackingPower {
  import opened Wrappers
  import opened OrderedMaps
  import opened Tracking
  import opened TrackingMaps

  ghost predicate PowersSet(m: Sessions) {
    forall e :: e in m ==> e.value.size > 0 && e.value.power != POWER_INVALID
  }

  /** No session asks for a stronger mode than the engine runs in. */
  ghost predicate IsStrong(engine: Option<Options>, m: Sessions) {
    engine.Some? ==> forall e :: e in m ==> engine.value.power <= e.value.power
  }

  predicate IsOther(e: Entry<Key, Options>, skip: Option<Key>) {
    skip != Some(e.key)
  }

  /** With modes that are set, the loops find the strongest. */
  lemma {:induction false} StrongestPower(m: Sessions, skip: Option<Key>)
    requires PowersSet(m)
    ensures forall e :: e in m && IsOther(e, skip) ==> Fastest(m, skip).power <= e.value.power
    ensures Fastest(m, skip).power == POWER_INVALID <==> forall e :: e in m ==> !IsOther(e, skip)
    ensures Fastest(m, skip).power != POWER_INVALID ==>
              exists e :: e in m && IsOther(e, skip) && e.value.power == Fastest(m, skip).power
  {
    if m != [] {
      var n := |m| - 1;
      StrongestPower(m[..n], skip);
      assert m == m[..n] + [m[n]];
      assert m[n] in m;
    }
  }

  lemma {:induction false} HighestIsStrongest(m: Sessions)
    requires PowersSet(m)
    ensures forall e :: e in m ==> HighestPower(m).power <= e.value.power
    ensures m != [] ==> HighestPower(m).size > 0 && exists e :: e in m && e.value.power == HighestPower(m).power
  {
    if m != [] {
      var n := |m| - 1;
      HighestIsStrongest(m[..n]);
      assert m == m[..n] + [m[n]];
      assert m[n] in m;
    }
  }

  // ---------------------------------------------------------------- starts and updates

  /** Options that are faster than all other sessions but not the strongest, while the one that set their pace is
      not the strongest of them either: the engine is then run in the mode of that one. */
  ghost predicate Weakens(m: Sessions, skip: Option<Key>, o: Options) {
    && (forall e :: e in m && IsOther(e, skip) ==> o.minInterval < e.value.minInterval)
    && (exists e :: e in m && IsOther(e, skip) && e.value.power <= o.power)
    && (exists e :: e in m && IsOther(e, skip) && e.value.power < Fastest(m, skip).options.power)
  }

  lemma MergeIsStrongExactly(m: Sessions, skip: Option<Key>, o: Options)
    requires PowersSet(m) && exists e :: e in m && IsOther(e, skip)
    ensures var (merged, changed) := Merge(Fastest(m, skip), o);
            && (changed ==> (merged.power <= o.power && IsStrongFor(merged, m, skip) <==> !Weakens(m, skip, o)))
            && (!changed ==> !Weakens(m, skip, o) && Fastest(m, skip).power <= o.power)
  {
    StrongestPower(m, skip);
    FastestIsLeast(m, skip);
  }

  ghost predicate IsStrongFor(engine: Options, m: Sessions, skip: Option<Key>) {
    forall e :: e in m && IsOther(e, skip) ==> engine.power <= e.value.power
  }

  /** An engine at the highest rate for an nHz need is left alone, in its mode. */
  ghost predicate StartWeakens(a: Adapter, o: Options) {
    if a.nHzNeeded && a.atHighest then a.engine.Some? && o.power < a.engine.value.power
    else Weakens(a.sessions, None, o)
  }

  lemma StrongAfterPut(m: Sessions, key: Key, o: Options, engine: Options)
    ensures IsStrong(Some(engine), Put(Before, m, key, o)) <==>
            engine.power <= o.power && IsStrongFor(engine, m, Some(key))
    ensures PowersSet(m) && o.size > 0 && o.power != POWER_INVALID ==> PowersSet(Put(Before, m, key, o))
  {
    PutMembers(Before, m, key, o);
    assert Entry(key, o) in Put(Before, m, key, o);
  }

  lemma StartedIsStrongExactly(a: Adapter, o: Options)
    requires Healthy(a) && PowersSet(a.sessions) && IsStrong(a.engine, a.sessions) && o.power != POWER_INVALID
    ensures var engine := StartMultiplex(a, o).engine;
            && engine.Some?
            && (engine.value.power <= o.power && IsStrongFor(engine.value, a.sessions, None) <==> !StartWeakens(a, o))
  {
    if a.sessions != [] {
      assert IsOther(a.sessions[0], None) && a.sessions[0] in a.sessions;
      MergeIsStrongExactly(a.sessions, None, o);
      StrongestPower(a.sessions, None);
    }
  }

  lemma StartIsStrongExactly(a: Adapter, key: Key, o: Options)
    requires Healthy(a) && PowersSet(a.sessions) && IsStrong(a.engine, a.sessions) && !Has(a.sessions, key)
    requires o.size > 0 && o.power != POWER_INVALID && !ByDistance(o, a.distanceSupported)
    ensures var b := Save(StartMultiplex(a, o), key, o);
            PowersSet(b.sessions) && (IsStrong(b.engine, b.sessions) <==> !StartWeakens(a, o))
  {
    var started := StartMultiplex(a, o);
    StartedIsStrongExactly(a, o);
    EngineKeepsMaps(a, key, o);
    StrongAfterPut(a.sessions, key, o, started.engine.value);
    assert forall e :: e in a.sessions ==> e.key != key;
  }

  /** With another session around, an in-place update weakens the engine like a start beside the others. */
  ghost predicate UpdateWeakens(a: Adapter, key: Key, o: Options)
    requires Has(a.sessions, key)
  {
    var was := Lookup(a.sessions, key);
    && (was.minInterval != o.minInterval || was.power != o.power)
    && if a.nHzNeeded && a.atHighest then a.engine.Some? && o.power < a.engine.value.power
       else |a.sessions| > 1 && Weakens(a.sessions, Some(key), o)
  }

  lemma AloneOrNot(a: Adapter, key: Key)
    requires Healthy(a) && Has(a.sessions, key)
    ensures Entry(key, Lookup(a.sessions, key)) in a.sessions
    ensures |a.sessions| > 1 <==> exists e :: e in a.sessions && IsOther(e, Some(key))
  {
    if |a.sessions| > 1 {
      assert a.sessions[0].key != a.sessions[1].key;
      assert a.sessions[0] in a.sessions && a.sessions[1] in a.sessions;
    }
  }

  lemma UpdateIsStrongExactly(a: Adapter, key: Key, o: Options)
    requires Healthy(a) && PowersSet(a.sessions) && IsStrong(a.engine, a.sessions) && Has(a.sessions, key)
    requires o.size > 0 && o.power != POWER_INVALID && o.minDistance == 0
    ensures var b := Save(UpdateMultiplex(a, key, o), key, o);
            PowersSet(b.sessions) && (IsStrong(b.engine, b.sessions) <==> !UpdateWeakens(a, key, o))
  {
    var engine := UpdateMultiplex(a, key, o).engine;
    AloneOrNot(a, key);
    StrongAfterPut(a.sessions, key, o, engine.value);
    if |a.sessions| > 1 {
      MergeIsStrongExactly(a.sessions, Some(key), o);
      StrongestPower(a.sessions, Some(key));
    }
  }

  // ---------------------------------------------------------------- stops and restarts

  lemma StopIsStrong(a: Adapter, key: Key)
    requires Healthy(a) && PowersSet(a.sessions) && IsStrong(a.engine, a.sessions)
    ensures var b := StopTimeBased(a, key); PowersSet(b.sessions) && IsStrong(b.engine, b.sessions)
  {
    if Has(a.sessions, key) {
      EraseMembers(a.sessions, key);
      AloneOrNot(a, key);
      StrongestPower(a.sessions, Some(key));
    }
  }

  lemma {:induction false} StopAllIsStrong(a: Adapter, keys: seq<Key>)
    requires Healthy(a) && PowersSet(a.sessions) && IsStrong(a.engine, a.sessions)
    ensures var b := StopAll(a, keys); PowersSet(b.sessions) && IsStrong(b.engine, b.sessions)
  {
    if keys != [] {
      StopAllIsStrong(a, keys[..|keys|-1]);
      StopAllServes(a, keys[..|keys|-1]);
      StopIsStrong(StopAll(a, keys[..|keys|-1]), keys[|keys|-1]);
    }
  }

  /** A restart runs the engine in the strongest power mode of the sessions, and, without an nHz need, with the
      interval and the distance of the fastest of them. With one, it remembers exactly if that raised the rate. */
  lemma RestartIsStrongest(a: Adapter)
    requires PowersSet(a.sessions) && a.sessions != []
    ensures var engine := Restart(a).engine;
            && engine.Some? && IsStrong(engine, a.sessions)
            && (exists e :: e in a.sessions && e.value.power == engine.value.power)
            && engine.value.size == OPTIONS_SIZE
            && (!a.nHzNeeded ==> exists e :: e in a.sessions && e.value.minInterval == engine.value.minInterval
                                             && e.value.minDistance == engine.value.minDistance)
            && (Restart(a).atHighest <==> a.nHzNeeded && forall e :: e in a.sessions ==> e.value.minInterval > 100)
  {
    HighestIsStrongest(a.sessions);
    FastestIsLeast(a.sessions, None);
    assert a.sessions[0] in a.sessions;
  }

  /** An engine at the highest rate for an nHz need is left running by starts, by in-place updates and by stops
      that leave a session. */
  lemma HighestIsLeftAlone(a: Adapter, msg: Message)
    requires a.nHzNeeded && a.atHighest && a.sessions != []
    requires msg.Start? || (UpdatesInPlace(a, msg) && !Has(a.distance, msg.key)) || (msg.Stop? && |a.sessions| > 1)
    ensures Handle(a, msg).engine == a.engine && Handle(a, msg).atHighest
  {
  }

  // ---------------------------------------------------------------- every message

  predicate SetsPower(msg: Message) {
    msg.Start? || msg.Update? ==> msg.options.power != POWER_INVALID
  }

  /** A start or an update to a time-based session that leaves the engine weaker than some session asks. */
  ghost predicate WeakensPower(a: Adapter, msg: Message) {
    && (msg.Start? || msg.Update?) && msg.options.size > 0
    && var o := Clamp(Fallback(msg.options));
       if msg.Start? then !ByDistance(o, a.distanceSupported) && StartWeakens(a, o)
       else
         && o.minDistance == 0
         && if Has(a.sessions, msg.key) then UpdateWeakens(a, msg.key, o)
            else Has(a.distance, msg.key) && StartWeakens(a, o)
  }

  ghost predicate InOneMap(a: Adapter, msg: Message) {
    && (msg.Start? ==> !Has(a.sessions, msg.key))
    && (msg.Update? ==> !(Has(a.sessions, msg.key) && Has(a.distance, msg.key)))
  }

  lemma UpdateStepIsStrongExactly(a: Adapter, key: Key, options: Options)
    requires Healthy(a) && PowersSet(a.sessions) && IsStrong(a.engine, a.sessions)
    requires var msg := Update(key, options); SetsPower(msg) && InOneMap(a, msg) && !MovesToUnsupported(a, msg)
    ensures var b := Handle(a, Update(key, options));
            PowersSet(b.sessions) && (IsStrong(b.engine, b.sessions) <==> !WeakensPower(a, Update(key, options)))
  {
    var o := Clamp(Fallback(options));
    if options.size > 0 && Has(a.sessions, key) {
      if options.minDistance > 0 {
        StopIsStrong(a, key);
      } else {
        UpdateIsStrongExactly(a, key, o);
      }
    } else if options.size > 0 && Has(a.distance, key) && options.minDistance == 0 {
      StartIsStrongExactly(Drop(a, key), key, o);
    }
  }

  lemma StepIsStrongExactly(a: Adapter, msg: Message)
    requires Healthy(a) && PowersSet(a.sessions) && IsStrong(a.engine, a.sessions)
    requires SetsPower(msg) && InOneMap(a, msg) && !MovesToUnsupported(a, msg)
    ensures var b := Handle(a, msg);
            PowersSet(b.sessions) && (IsStrong(b.engine, b.sessions) <==> !WeakensPower(a, msg))
  {
    match msg
    case Start(key, options) =>
      var o := Clamp(Fallback(options));
      ClampGrants(options, true, false);
      if options.size > 0 && !ByDistance(o, a.distanceSupported) {
        StartIsStrongExactly(a, key, o);
      }
    case Update(key, options) => UpdateStepIsStrongExactly(a, key, options);
    case Stop(key) => StopIsStrong(a, key);
    case RemoveClient(client) => StopAllIsStrong(a, KeysOf(a.sessions, client));
    case SuspendRestart =>
      if a.sessions != [] {
        RestartIsStrongest(StopEngine(a));
      }
    case ModemRestart =>
      if a.sessions != [] {
        RestartIsStrongest(a.(engine := None));
      }
    case NHzChanged(needed) =>
      if a.sessions != [] {
        RestartIsStrongest(a.(nHzNeeded := needed));
      }
  }

  // ---------------------------------------------------------------- every run

  ghost predicate StrongAllAlong(distanceSupported: bool, msgs: seq<Message>) {
    && IsStrong(Run(distanceSupported, msgs).engine, Run(distanceSupported, msgs).sessions)
    && (msgs == [] || StrongAllAlong(distanceSupported, msgs[..|msgs|-1]))
  }

  ghost predicate NoneWeakens(distanceSupported: bool, msgs: seq<Message>) {
    msgs == []
    || (NoneWeakens(distanceSupported, msgs[..|msgs|-1])
        && !WeakensPower(Run(distanceSupported, msgs[..|msgs|-1]), msgs[|msgs|-1]))
  }

  /** Over every run of supported messages with power modes that are set, the engine is as strong as every session
      asks at every moment exactly if no start or update weakens it in the way named. */
  lemma {:induction false} EveryRunIsStrongExactly(distanceSupported: bool, msgs: seq<Message>)
    requires StartsAreNew(msgs)
    requires forall i :: 0 <= i < |msgs| ==>
               SetsPower(msgs[i]) && !MovesToUnsupported(Run(distanceSupported, msgs[..i]), msgs[i])
    ensures StrongAllAlong(distanceSupported, msgs) <==> NoneWeakens(distanceSupported, msgs)
    ensures StrongAllAlong(distanceSupported, msgs) ==> PowersSet(Run(distanceSupported, msgs).sessions)
  {
    if msgs != [] {
      var n := |msgs| - 1;
      var before, msg := msgs[..n], msgs[n];
      assert forall i :: 0 <= i < n ==> before[..i] == msgs[..i] && before[i] == msgs[i];
      EveryRunIsStrongExactly(distanceSupported, before);
      EveryRunIsHealthy(distanceSupported, before);
      if msg.Start? || msg.Update? {
        EverySessionIsFiled(distanceSupported, before, msg.key);
      }
      if StrongAllAlong(distanceSupported, before) {
        StepIsStrongExactly(Run(distanceSupported, before), msg);
      }
    }
  }

  /** Sessions of 1000 ms in mode 4 and of 2000 ms in mode 1 run the engine in mode 1. A third one of 500 ms in
      mode 3 turns it down to mode 4. */
  lemma FasterStartWeakensPower()
    ensures var msgs := [Start(Key(1, 1), Options(32, 1000, 0, 4, 0))] + [Start(Key(1, 2), Options(32, 2000, 0, 1, 0))]
                        + [Start(Key(1, 3), Options(32, 500, 0, 3, 0))];
            && Run(false, msgs[..2]).engine == Some(Options(32, 1000, 0, 1, 0))
            && Run(false, msgs).engine == Some(Options(32, 500, 0, 4, 0))
  {
    var first, second, third := Options(32, 1000, 0, 4, 0), Options(32, 2000, 0, 1, 0), Options(32, 500, 0, 3, 0);
    var one := [Start(Key(1, 1), first)];
    var two := one + [Start(Key(1, 2), second)];
    var three := two + [Start(Key(1, 3), third)];
    assert three[..2] == two && two[..1] == one && one[..0] == [];
    var m1 := [Entry(Key(1, 1), first)];
    var m2 := m1 + [Entry(Key(1, 2), second)];
    assert m2[..1] == m1 && m1[..0] == [];
    assert Run(false, one).sessions == m1;
    assert Fastest(m1, None) == Choice(first, 4);
    assert m1[1..] == [] && m1[0].key == Key(1, 1);
    assert Insert(Before, m1, Key(1, 2), second) == m2;
    assert Run(false, two).sessions == m2;
    assert Fastest(m2, None) == Choice(first, 1);
  }
}
