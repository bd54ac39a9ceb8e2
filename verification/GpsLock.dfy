/** Who may use GPS: one lock, five writers and two regimes. In Q mode the stored lock is the state of the
    modem; in P mode it is only what applies while location is disabled.
 */
module GpsLock {
  import opened Wrappers

  /** The two lock bits: mobile-originated and network-initiated use. */
  datatype Lock = Lock(mo: bool, ni: bool)

  const LOCK_NONE := Lock(false, false)

  /** `control` is the session that enabled location, zero when disabled; `sent` the last lock sent to
      the modem; `posted` the access-control commands accepted while in Q mode and not handled yet. */
  datatype Gps = Gps(qMode: bool, control: nat, lock: Lock, sent: Option<Lock>, posted: seq<bool>)

  datatype Event =
    | EngineUp
    | Enable(id: nat)
    | Disable(id: nat)
    | PostNfw(enable: bool)
    | HandleNfw
    | Configure(lock: Lock)

  function HandleEnable(s: Gps, id: nat): Gps {
    if s.control > 0 then s
    else if s.qMode then
      var lock := s.lock.(mo := false);
      s.(control := id, lock := lock, sent := Some(lock))
    else s.(control := id, sent := Some(LOCK_NONE))
  }

  function HandleDisable(s: Gps, id: nat): Gps {
    if s.control != id then s
    else
      var lock := if s.qMode then s.lock.(mo := true) else s.lock;
      s.(control := 0, lock := lock, sent := Some(lock))
  }

  function AccessLock(lock: Lock, enable: bool): Lock {
    lock.(ni := !enable)
  }

  function HandleConfigure(s: Gps, requested: Lock): Gps {
    var lock := requested.(mo := true);
    var sent :=
      if s.control == 0 then Some(lock)
      else if s.qMode then Some(LOCK_NONE)
      else s.sent;
    s.(qMode := false, lock := lock, sent := sent)
  }

  function Step(s: Gps, e: Event): Gps {
    match e
    case EngineUp => s.(sent := Some(if s.qMode || s.control == 0 then s.lock else LOCK_NONE))
    case Enable(id) => HandleEnable(s, id)
    case Disable(id) => HandleDisable(s, id)
    case PostNfw(enable) => if s.qMode then s.(posted := s.posted + [enable]) else s
    case HandleNfw =>
      if s.posted == [] then s
      else
        var lock := AccessLock(s.lock, s.posted[0]);
        s.(lock := lock, sent := Some(lock), posted := s.posted[1..])
    case Configure(lock) => HandleConfigure(s, lock)
  }

  function Start(initial: Lock): Gps {
    Gps(true, 0, initial, None, [])
  }

  function Run(initial: Lock, events: seq<Event>): Gps {
    if events == [] then Start(initial) else Step(Run(initial, events[..|events|-1]), events[|events|-1])
  }

  /** Session ids are never zero. */
  predicate HasSession(e: Event) {
    e.Enable? ==> e.id > 0
  }

  /** The lock the modem should have in the recorded regime. */
  function Expected(s: Gps): Lock {
    if !s.qMode && s.control > 0 then LOCK_NONE else s.lock
  }

  predicate Agrees(s: Gps) {
    && (s.sent.Some? ==> s.sent.value == Expected(s))
    && (!s.qMode ==> s.sent.Some?)
  }

  /** The mobile-originated bit follows the switch in Q mode and is always set in P mode. */
  predicate MoFollows(s: Gps) {
    if s.qMode then s.lock.mo <==> s.control == 0 else s.lock.mo
  }

  /** An access-control command that was accepted in Q mode and is handled in P mode while enabled. */
  predicate IsLate(s: Gps, e: Event) {
    e.HandleNfw? && s.posted != [] && !s.qMode && s.control > 0
  }

  lemma StepKeepsMo(s: Gps, e: Event)
    requires MoFollows(s) && HasSession(e)
    ensures MoFollows(Step(s, e))
  {
  }

  /** Over every run, late commands included: if location starts out locked for mobile-originated use,
      that bit is set exactly while disabled in Q mode, and always in P mode. */
  lemma {:induction false} EveryRunKeepsMo(initial: Lock, events: seq<Event>)
    requires initial.mo
    requires forall i :: 0 <= i < |events| ==> HasSession(events[i])
    ensures MoFollows(Run(initial, events))
  {
    if events != [] {
      EveryRunKeepsMo(initial, events[..|events|-1]);
      StepKeepsMo(Run(initial, events[..|events|-1]), events[|events|-1]);
    }
  }

  /** The switch to P mode locks mobile-originated use, whatever lock the configuration file gave. */
  predicate PModeHasMo(s: Gps) {
    !s.qMode ==> s.lock.mo
  }

  /** Exactly when an event keeps the modem in agreement: when it is no late command. */
  lemma StepAgreesExactly(s: Gps, e: Event)
    requires Agrees(s) && PModeHasMo(s) && HasSession(e)
    ensures Agrees(Step(s, e)) <==> !IsLate(s, e)
    ensures PModeHasMo(Step(s, e))
  {
  }

  /** Once the engine came up, some lock has been sent. */
  lemma {:induction false} EngineUpSends(initial: Lock, events: seq<Event>, k: nat)
    requires k < |events| && events[k].EngineUp?
    ensures Run(initial, events).sent.Some?
  {
    if k < |events| - 1 {
      EngineUpSends(initial, events[..|events|-1], k);
    }
  }

  /** Over every interleaving without late commands and from any initial lock, whatever lock was last sent
      is NONE while enabled in P mode and the stored lock otherwise. */
  lemma {:induction false} EveryRunAgrees(initial: Lock, events: seq<Event>)
    requires forall i :: 0 <= i < |events| ==> HasSession(events[i])
    requires forall i :: 0 <= i < |events| ==> !IsLate(Run(initial, events[..i]), events[i])
    ensures Agrees(Run(initial, events)) && PModeHasMo(Run(initial, events))
  {
    if events != [] {
      var n := |events| - 1;
      forall i | 0 <= i < n ensures !IsLate(Run(initial, events[..n][..i]), events[..n][i]) {
        assert events[..n][..i] == events[..i];
      }
      EveryRunAgrees(initial, events[..n]);
      StepAgreesExactly(Run(initial, events[..n]), events[n]);
    }
  }

  /** A command posted just before the switch to P mode and handled after it leaves the modem locked
      although location is enabled. */
  lemma LateCommandLocksModem()
    ensures var both := Lock(true, true);
            var s := Run(both, [EngineUp, Enable(5), PostNfw(true), Configure(both), HandleNfw]);
            !s.qMode && s.control == 5 && s.sent == Some(Lock(true, false)) && Expected(s) == LOCK_NONE
  {
    var both := Lock(true, true);
    var e := [EngineUp, Enable(5), PostNfw(true), Configure(both), HandleNfw];
    assert e[..4][..3] == e[..3] && e[..3][..2] == e[..2] && e[..2][..1] == e[..1] && e[..1][..0] == [];
    assert Run(both, e[..1]) == Gps(true, 0, both, Some(both), []);
    assert Run(both, e[..2]) == Gps(true, 5, Lock(false, true), Some(Lock(false, true)), []);
    assert Run(both, e[..3]) == Gps(true, 5, Lock(false, true), Some(Lock(false, true)), [true]);
    assert Run(both, e[..4]) == Gps(false, 5, both, Some(LOCK_NONE), [true]);
  }

  // ---------------------------------------------------------------- what the events alone say

  /** The session that holds location enabled: the first to enable it since the last holder disabled it, and 0 if
      nobody does. */
  function Holder(events: seq<Event>): nat {
    if events == [] then 0
    else
      var before, e := Holder(events[..|events|-1]), events[|events|-1];
      if before == 0 && e.Enable? then e.id
      else if before != 0 && e == Disable(before) then 0
      else before
  }

  /** The access-control commands accepted: those posted before the first configuration. */
  function Accepted(events: seq<Event>): seq<bool> {
    if events == [] then []
    else
      var before, e := events[..|events|-1], events[|events|-1];
      Accepted(before) + if e.PostNfw? && !Configured(before) then [e.enable] else []
  }

  predicate Configured(events: seq<Event>) {
    exists i :: 0 <= i < |events| && events[i].Configure?
  }

  /** How many of them have been handled. */
  function Taken(events: seq<Event>): (n: nat)
    ensures n <= |Accepted(events)|
  {
    if events == [] then 0
    else
      var before := events[..|events|-1];
      Taken(before) + if events[|events|-1].HandleNfw? && Taken(before) < |Accepted(before)| then 1 else 0
  }

  /** Network-initiated use is locked as the last configuration says or the last command handled since: by a
      command to disable it, and not by one to enable it. */
  function NiLocked(initial: Lock, events: seq<Event>): bool {
    if events == [] then initial.ni
    else
      var before, e := events[..|events|-1], events[|events|-1];
      if e.Configure? then e.lock.ni
      else if e.HandleNfw? && Taken(before) < |Accepted(before)| then !Accepted(before)[Taken(before)]
      else NiLocked(initial, before)
  }

  lemma ConfiguredOfLast(events: seq<Event>)
    requires events != []
    ensures Configured(events) <==> Configured(events[..|events|-1]) || events[|events|-1].Configure?
  {
    var n := |events| - 1;
    if i :| 0 <= i < n && events[..n][i].Configure? {
      assert events[i].Configure?;
    }
    if i :| 0 <= i < |events| && events[i].Configure? {
      assert i < n ==> events[..n][i].Configure?;
    }
  }

  /** Over every run, who holds location enabled is as the events say. */
  lemma {:induction false} ControlIsTheHolder(initial: Lock, events: seq<Event>)
    requires forall i :: 0 <= i < |events| ==> HasSession(events[i])
    ensures Run(initial, events).control == Holder(events)
  {
    if events != [] {
      ControlIsTheHolder(initial, events[..|events|-1]);
    }
  }

  ghost predicate NfwRecorded(initial: Lock, events: seq<Event>, s: Gps) {
    && (s.qMode <==> !Configured(events))
    && s.posted == Accepted(events)[Taken(events)..]
    && s.lock.ni == NiLocked(initial, events)
  }

  lemma TailGrows(a: seq<bool>, k: nat, more: seq<bool>)
    requires k <= |a|
    ensures (a + more)[k..] == a[k..] + more
    ensures k < |a| ==> a[k..] != [] && a[k..][0] == a[k] && a[k..][1..] == a[k + 1..]
  {
  }

  lemma StepRecordsNfw(initial: Lock, events: seq<Event>, s: Gps)
    requires events != [] && NfwRecorded(initial, events[..|events|-1], s)
    ensures NfwRecorded(initial, events, Step(s, events[|events|-1]))
  {
    var before, e := events[..|events|-1], events[|events|-1];
    ConfiguredOfLast(events);
    TailGrows(Accepted(before), Taken(before), if e.PostNfw? && !Configured(before) then [e.enable] else []);
    assert s.posted + [] == s.posted;
  }

  /** Over every run, in which regime the adapter is, which access-control commands are still to be handled and
      whether network-initiated use is locked are all as the events say. */
  lemma {:induction false} EveryRunRecordsNfw(initial: Lock, events: seq<Event>)
    ensures NfwRecorded(initial, events, Run(initial, events))
  {
    if events != [] {
      EveryRunRecordsNfw(initial, events[..|events|-1]);
      StepRecordsNfw(initial, events, Run(initial, events[..|events|-1]));
    } else {
      assert Accepted(events) == [];
    }
  }

  /** The session enabled location at position `n` while nobody held it, and has not disabled it since. */
  predicate HoldsSince(events: seq<Event>, n: nat, c: nat) {
    && n < |events| && events[n] == Enable(c) && Holder(events[..n]) == 0
    && forall k :: n < k < |events| ==> events[k] != Disable(c)
  }

  lemma {:induction false} HolderHolds(events: seq<Event>) returns (n: nat)
    requires Holder(events) != 0
    ensures HoldsSince(events, n, Holder(events))
  {
    var last := |events| - 1;
    if Holder(events[..last]) == 0 {
      n := last;
    } else {
      n := HolderHolds(events[..last]);
      assert events[..last][..n] == events[..n];
    }
  }

  lemma {:induction false} WhoHoldsIsHolder(events: seq<Event>, n: nat, c: nat)
    requires c > 0 && HoldsSince(events, n, c)
    ensures Holder(events) == c
  {
    var last := |events| - 1;
    if n < last {
      assert events[..last][..n] == events[..n];
      WhoHoldsIsHolder(events[..last], n, c);
    }
  }

  /** What holding means. */
  lemma HolderExactly(events: seq<Event>, c: nat)
    requires c > 0
    ensures Holder(events) == c <==> exists n :: HoldsSince(events, n, c)
  {
    if Holder(events) == c {
      var n := HolderHolds(events);
    }
    if n :| HoldsSince(events, n, c) {
      WhoHoldsIsHolder(events, n, c);
    }
  }

  /** When the engine comes up, the lock of the recorded regime is sent, whatever the modem was sent before. */
  lemma EngineUpSendsExpected(s: Gps)
    ensures Step(s, EngineUp) == s.(sent := Some(Expected(s)))
  {
  }

  /** Over every interleaving without late commands, what the modem was last sent, told by the events alone: nothing
      is locked while location is enabled in P mode; otherwise network-initiated use as commanded or configured,
      and mobile-originated use while disabled. */
  lemma EveryRunSends(initial: Lock, events: seq<Event>)
    requires initial.mo
    requires forall i :: 0 <= i < |events| ==> HasSession(events[i])
    requires forall i :: 0 <= i < |events| ==> !IsLate(Run(initial, events[..i]), events[i])
    requires exists k :: 0 <= k < |events| && events[k].EngineUp?
    ensures Run(initial, events).sent ==
            Some(if Configured(events) && Holder(events) != 0 then LOCK_NONE
                 else Lock(Holder(events) == 0, NiLocked(initial, events)))
  {
    var k :| 0 <= k < |events| && events[k].EngineUp?;
    ControlIsTheHolder(initial, events);
    EveryRunRecordsNfw(initial, events);
    EveryRunKeepsMo(initial, events);
    EveryRunAgrees(initial, events);
    EngineUpSends(initial, events, k);
  }

  /** Enabled and disabled again, location is locked for mobile-originated use. */
  lemma DisablingLocks()
    ensures var s := Run(Lock(true, true), [EngineUp] + [Enable(5)] + [Disable(5)]);
            s.control == 0 && s.lock.mo && s.sent == Some(Lock(true, true))
  {
    var e1, e2 := [EngineUp], [EngineUp] + [Enable(5)];
    assert e1[..0] == [] && e2[..1] == e1 && (e2 + [Disable(5)])[..2] == e2;
    assert Run(Lock(true, true), e1).sent == Some(Lock(true, true));
    assert Run(Lock(true, true), e2) == Gps(true, 5, Lock(false, true), Some(Lock(false, true)), []);
  }

  // ---------------------------------------------------------------- the adapter's own form

  /** The part of the adapter that holds the lock, one method per message. */
  class LockControl {
    var supportNfwControl: bool
    var afwControlId: nat
    var gpsLock: Lock
    var sent: Option<Lock>
    var posted: seq<bool>

    function Value(): Gps
      reads this
    {
      Gps(supportNfwControl, afwControlId, gpsLock, sent, posted)
    }

    constructor (initial: Lock)
      ensures Value() == Start(initial)
    {
      supportNfwControl, afwControlId, gpsLock, sent, posted := true, 0, initial, None, [];
    }

    method SetConfig()
      modifies this`sent
      ensures Value() == Step(old(Value()), EngineUp)
    {
      if supportNfwControl || afwControlId == 0 {
        sent := Some(gpsLock);
      } else {
        sent := Some(LOCK_NONE);
      }
    }

    method EnableGnss(id: nat) returns (started: bool)
      modifies this
      ensures Value() == Step(old(Value()), Enable(id))
      ensures started <==> old(afwControlId) == 0
    {
      if afwControlId > 0 {
        return false;
      }
      afwControlId := id;
      var lock := LOCK_NONE;
      if supportNfwControl {
        gpsLock := gpsLock.(mo := false);
        lock := gpsLock;
      }
      sent := Some(lock);
      started := true;
    }

    method DisableGnss(id: nat) returns (known: bool)
      modifies this
      ensures Value() == Step(old(Value()), Disable(id))
      ensures known <==> old(afwControlId) == id
    {
      if afwControlId != id {
        return false;
      }
      afwControlId := 0;
      if supportNfwControl {
        gpsLock := gpsLock.(mo := true);
      }
      sent := Some(gpsLock);
      known := true;
    }

    method NfwControlCommand(enable: bool)
      modifies this`posted
      ensures Value() == Step(old(Value()), PostNfw(enable))
    {
      if supportNfwControl {
        posted := posted + [enable];
      }
    }

    method ControlNfwLocationAccess()
      modifies this
      ensures Value() == Step(old(Value()), HandleNfw)
    {
      if posted != [] {
        var lock := gpsLock;
        if posted[0] {
          lock := lock.(ni := false);
        } else {
          lock := lock.(ni := true);
        }
        gpsLock, sent, posted := lock, Some(lock), posted[1..];
      }
    }

    method UpdateConfig(requested: Lock)
      modifies this
      ensures Value() == Step(old(Value()), Configure(requested))
    {
      var newLock := requested.(mo := true);
      gpsLock := newLock;
      var update := true;
      if afwControlId != 0 {
        if supportNfwControl {
          newLock := LOCK_NONE;
        } else {
          update := false;
        }
      }
      supportNfwControl := false;
      if update {
        sent := Some(newLock);
      }
    }
  }
}
