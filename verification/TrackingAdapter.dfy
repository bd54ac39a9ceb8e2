/** The session multiplexer in its own form: a GNSS adapter whose session maps, engine and flags are
    updated in place. Every method is proved to do what the function of Tracking says.
 */
module TrackingAdapter {
  import opened Wrappers
  import opened OrderedMaps
  import opened Tracking

  class GnssAdapter {
    var timeBased: Sessions
    var distanceBased: Sessions
    var engine: Option<Options>
    var nHzNeeded: bool
    var speAtHighestInterval: bool
    const distanceSupported: bool

    function Value(): Adapter
      reads this
    {
      Adapter(timeBased, distanceBased, engine, nHzNeeded, speAtHighestInterval, distanceSupported)
    }

    constructor (distanceSupported: bool)
      ensures Value() == Idle(distanceSupported)
    {
      timeBased, distanceBased, engine, nHzNeeded, speAtHighestInterval := [], [], None, false, false;
      this.distanceSupported := distanceSupported;
    }

    /** Whether the engine already runs at the highest rate for an nHz need; otherwise `out` are the
        options to start it with. */
    method CheckAndSetSPEToRunForNHz(options: Options) returns (already: bool, out: Options)
      modifies this`speAtHighestInterval
      ensures already ==> Value() == old(Value()) && StartEngine(old(Value()), options) == old(Value())
      ensures !already ==> Value().(engine := Some(out)) == StartEngine(old(Value()), options)
    {
      already, out := false, options;
      if !nHzNeeded {
      } else if speAtHighestInterval {
        already := true;
      } else if out.minInterval > MIN_INTERVAL {
        out := out.(minInterval := MIN_INTERVAL);
        speAtHighestInterval := true;
      }
    }

    method StartTimeBasedTracking(options: Options)
      modifies this`speAtHighestInterval, this`engine
      ensures Value() == StartEngine(old(Value()), options)
    {
      var already, out := CheckAndSetSPEToRunForNHz(options);
      if !already {
        engine := Some(out);
      }
    }

    method StopTracking()
      modifies this`speAtHighestInterval, this`engine
      ensures Value() == StopEngine(old(Value()))
    {
      engine := None;
      speAtHighestInterval := false;
    }

    /** The loop that every multiplexer runs over the sessions, skipping the one it is about. */
    method FindFastest(skip: Option<Key>) returns (options: Options, power: nat)
      ensures Choice(options, power) == Fastest(timeBased, skip)
    {
      options, power := UNSET.options, POWER_INVALID;
      for i := 0 to |timeBased|
        invariant Choice(options, power) == Fastest(timeBased[..i], skip)
      {
        assert timeBased[..i + 1][..i] == timeBased[..i];
        var e := timeBased[i];
        if skip != Some(e.key) && (options.size == 0 || e.value.minInterval < options.minInterval) {
          options := e.value;
        }
        if skip != Some(e.key) && (power == POWER_INVALID || e.value.power < power) {
          power := e.value.power;
        }
      }
      assert timeBased[..|timeBased|] == timeBased;
    }

    method StartTimeBasedTrackingMultiplex(options: Options)
      modifies this`speAtHighestInterval, this`engine
      ensures Value() == StartMultiplex(old(Value()), options)
    {
      if timeBased == [] {
        StartTimeBasedTracking(options);
        return;
      }
      var multiplexed, power := FindFastest(None);
      var update := false;
      if options.minInterval < multiplexed.minInterval {
        multiplexed := multiplexed.(minInterval := options.minInterval);
        update := true;
      }
      if options.power < power {
        multiplexed := multiplexed.(power := options.power);
        update := true;
      }
      if update {
        StartTimeBasedTracking(multiplexed);
      }
    }

    method UpdateTrackingMultiplex(key: Key, options: Options)
      requires Has(timeBased, key)
      modifies this`speAtHighestInterval, this`engine
      ensures Value() == UpdateMultiplex(old(Value()), key, options)
    {
      var was := Lookup(timeBased, key);
      if was.minInterval != options.minInterval || was.power != options.power {
        var multiplexed, power := FindFastest(Some(key));
        var update := false;
        if options.minInterval < multiplexed.minInterval {
          multiplexed := multiplexed.(minInterval := options.minInterval);
          update := true;
        }
        if options.power < power {
          multiplexed := multiplexed.(power := options.power);
          update := true;
        }
        if |timeBased| == 1 {
          multiplexed := options;
          update := true;
        }
        if update {
          StartTimeBasedTracking(multiplexed);
        }
      }
    }

    method StopTimeBasedTrackingMultiplex(key: Key)
      requires Has(timeBased, key)
      modifies this`speAtHighestInterval, this`engine
      ensures Value() == StopMultiplex(old(Value()), key)
    {
      if |timeBased| == 1 {
        StopTracking();
      } else {
        var was := Lookup(timeBased, key);
        var multiplexed, power := FindFastest(Some(key));
        if was.minInterval < multiplexed.minInterval || was.power < power {
          StartTimeBasedTracking(multiplexed.(power := power));
        }
      }
    }

    method CheckAndRestartSPESession()
      modifies this`speAtHighestInterval, this`engine
      ensures Value() == Restart(old(Value()))
    {
      speAtHighestInterval := false;
      if timeBased != [] {
        var smallest, strongest := UNSET.options, UNSET.options;
        for i := 0 to |timeBased|
          invariant smallest == Fastest(timeBased[..i], None).options
          invariant strongest == HighestPower(timeBased[..i])
        {
          assert timeBased[..i + 1][..i] == timeBased[..i];
          var o := timeBased[i].value;
          if smallest.size == 0 || o.minInterval < smallest.minInterval {
            smallest := o;
          }
          if strongest.size == 0 || (o.power != POWER_INVALID && o.power < strongest.power) {
            strongest := o;
          }
        }
        assert timeBased[..|timeBased|] == timeBased;
        StartTimeBasedTracking(strongest.(
          size := OPTIONS_SIZE, minInterval := smallest.minInterval, minDistance := smallest.minDistance));
      }
    }

    method SaveTrackingSession(key: Key, options: Options)
      modifies this`timeBased, this`distanceBased
      ensures Value() == Save(old(Value()), key, options)
    {
      if options.minDistance > 0 && distanceSupported {
        distanceBased := Put(Before, distanceBased, key, options);
      } else {
        timeBased := Put(Before, timeBased, key, options);
      }
    }

    method EraseTrackingSession(key: Key)
      modifies this`timeBased, this`distanceBased
      ensures Value() == Drop(old(Value()), key)
    {
      if Has(timeBased, key) {
        timeBased := Erase(timeBased, key);
      } else {
        distanceBased := Erase(distanceBased, key);
      }
    }

    method StartTracking(key: Key, options: Options)
      modifies this
      ensures Value() == Handle(old(Value()), Start(key, options))
    {
      if options.size == 0 {
        return;
      }
      var o := options;
      if o.minInterval < MIN_INTERVAL {
        o := o.(minInterval := MIN_INTERVAL);
      }
      if o.minDistance > 0 && distanceSupported {
        SaveTrackingSession(key, o);
      } else {
        if o.power == POWER_M4 && o.tbm > TBM_THRESHOLD {
          o := o.(power := POWER_M2);
        }
        StartTimeBasedTrackingMultiplex(o);
        SaveTrackingSession(key, o);
      }
    }

    method UpdateTrackingOptions(key: Key, options: Options)
      modifies this
      ensures Value() == Handle(old(Value()), Update(key, options))
    {
      var isTimeBased := Has(timeBased, key);
      var isDistanceBased := Has(distanceBased, key);
      if (!isTimeBased && !isDistanceBased) || options.size == 0 {
        return;
      }
      var o := Clamp(Fallback(options));
      if isTimeBased && o.minDistance > 0 {
        StopTimeBasedTrackingMultiplex(key);
        EraseTrackingSession(key);
        SaveTrackingSession(key, o);
      } else if isDistanceBased && o.minDistance == 0 {
        EraseTrackingSession(key);
        StartTimeBasedTrackingMultiplex(o);
        SaveTrackingSession(key, o);
      } else if isTimeBased {
        UpdateTrackingMultiplex(key, o);
        SaveTrackingSession(key, o);
      } else {
        SaveTrackingSession(key, o);
      }
    }

    method StopTrackingSession(key: Key)
      modifies this
      ensures Value() == Handle(old(Value()), Stop(key))
    {
      if Has(timeBased, key) {
        StopTimeBasedTrackingMultiplex(key);
      }
      EraseTrackingSession(key);
    }

    method StopClientSessions(client: int)
      modifies this
      ensures Value() == Handle(old(Value()), RemoveClient(client))
    {
      var keys := TimeBasedKeys(client);
      for i := 0 to |keys|
        invariant Value() == StopAll(old(Value()), keys[..i])
      {
        assert keys[..i + 1][..i] == keys[..i];
        if Has(timeBased, keys[i]) {
          StopTimeBasedTrackingMultiplex(keys[i]);
          EraseTrackingSession(keys[i]);
        }
      }
      assert keys[..|keys|] == keys;
      distanceBased := EraseClient(distanceBased, client);
    }

    method TimeBasedKeys(client: int) returns (keys: seq<Key>)
      ensures keys == KeysOf(timeBased, client)
    {
      keys := [];
      for i := 0 to |timeBased|
        invariant keys == KeysOf(timeBased[..i], client)
      {
        assert timeBased[..i + 1][..i] == timeBased[..i];
        if timeBased[i].key.client == client {
          keys := keys + [timeBased[i].key];
        }
      }
      assert timeBased[..|timeBased|] == timeBased;
    }

    method SuspendAndRestartSessions()
      modifies this
      ensures Value() == Handle(old(Value()), SuspendRestart)
    {
      if timeBased != [] {
        StopTracking();
      }
      CheckAndRestartSPESession();
    }

    method HandleEngineUp()
      modifies this
      ensures Value() == Handle(old(Value()), ModemRestart)
    {
      engine := None;
      CheckAndRestartSPESession();
    }

    method UpdateNHzRequirement(needed: bool)
      modifies this
      ensures Value() == Handle(old(Value()), NHzChanged(needed))
    {
      if nHzNeeded != needed {
        nHzNeeded := needed;
        CheckAndRestartSPESession();
      }
    }
  }
}
