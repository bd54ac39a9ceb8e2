/** The throttle on position requests to the framework: bursts of starts and stops from the modem may
    cause one request per timer period, and an emergency may break in once.
 */
module Odcpi {
  import opened Wrappers

  /** `emergency` is the kind of the last start; `sinceStart` is what an onlooker knows: how often the
      timer has expired since the framework was last asked to start. */
  datatype Throttle = Throttle(active: bool, timer: bool, emergency: bool, sinceStart: Option<nat>)

  datatype Event = Start(emergency: bool) | Stop | TimerExpired | ModemRestart

  datatype Callback = Started(emergency: bool) | Stopped

  const IDLE := Throttle(false, false, false, None)

  predicate IsUpgrade(t: Throttle, e: Event) {
    e.Start? && e.emergency && !t.emergency
  }

  function HandleStart(t: Throttle, emergency: bool): (Throttle, seq<Callback>) {
    if !t.active && !t.timer then (Throttle(true, true, emergency, t.sinceStart), [Started(emergency)])
    else if !t.emergency && emergency then (Throttle(true, true, emergency, t.sinceStart), [Started(emergency)])
    else (t.(active := t.active || t.timer, emergency := emergency), [])
  }

  function Act(t: Throttle, e: Event): (Throttle, seq<Callback>) {
    match e
    case Start(emergency) => HandleStart(t, emergency)
    case Stop => (t.(active := false), [Stopped])
    case TimerExpired =>
      if t.active then (t.(timer := true), [Started(t.emergency)]) else (t.(timer := false), [])
    case ModemRestart => (t.(active := false), [])
  }

  predicate Starts(t: Throttle, e: Event) {
    var out := Act(t, e).1;
    out != [] && out[0].Started?
  }

  function Expiries(t: Throttle, e: Event): Option<nat> {
    if t.sinceStart.None? then None else Some(t.sinceStart.value + if e.TimerExpired? then 1 else 0)
  }

  function Step(t: Throttle, e: Event): Throttle {
    Act(t, e).0.(sinceStart := if Starts(t, e) then Some(0) else Expiries(t, e))
  }

  /** The throttle after `events`, handled one by one from `t` on. */
  function Follow(t: Throttle, events: seq<Event>): Throttle
    decreases |events|
  {
    if events == [] then t else Follow(Step(t, events[0]), events[1..])
  }

  /** No event of `events`, handled from `t` on, asks the framework to start. */
  predicate Quiet(t: Throttle, events: seq<Event>)
    decreases |events|
  {
    events == [] || (!Starts(t, events[0]) && Quiet(Step(t, events[0]), events[1..]))
  }

  function ExpiriesIn(events: seq<Event>): nat {
    if events == [] then 0 else (if events[0].TimerExpired? then 1 else 0) + ExpiriesIn(events[1..])
  }

  /** The last start, stop or modem restart in `events`; `None` if there is none of these. */
  function LastWish(events: seq<Event>): Option<Event> {
    if events == [] then None
    else
      var later := LastWish(events[1..]);
      if later.Some? || events[0].TimerExpired? then later else Some(events[0])
  }

  /** An active request has a running timer, and so has a request after which no timer expired. */
  predicate Timed(t: Throttle) {
    (t.active ==> t.timer) && (t.sinceStart == Some(0) ==> t.timer)
  }

  /** Over every run, an active request has an active timer. */
  lemma {:induction false} EveryRunIsTimed(t: Throttle, events: seq<Event>)
    requires Timed(t)
    ensures Timed(Follow(t, events))
    decreases |events|
  {
    if events != [] {
      EveryRunIsTimed(Step(t, events[0]), events[1..]);
    }
  }

  /** Over every run, a request is active exactly when the last wish of the modem was a start, so the next
      timer expiry asks the framework again exactly for the wishes that were not withdrawn. */
  lemma {:induction false} NoWishIsLost(t: Throttle, events: seq<Event>)
    requires LastWish(events).Some?
    ensures Follow(t, events).active == LastWish(events).value.Start?
    ensures Starts(Follow(t, events), TimerExpired) == LastWish(events).value.Start?
    decreases |events|
  {
    var rest := events[1..];
    if LastWish(rest).Some? {
      NoWishIsLost(Step(t, events[0]), rest);
    } else {
      OnlyExpiriesKeepActive(Step(t, events[0]), rest);
    }
  }

  lemma {:induction false} OnlyExpiriesKeepActive(t: Throttle, events: seq<Event>)
    requires LastWish(events).None?
    ensures Follow(t, events).active == t.active
    decreases |events|
  {
    if events != [] {
      OnlyExpiriesKeepActive(Step(t, events[0]), events[1..]);
    }
  }

  /** While the framework is not asked to start, the onlooker counts the expiries. */
  lemma {:induction false} QuietCounts(t: Throttle, events: seq<Event>)
    requires t.sinceStart.Some? && Quiet(t, events)
    ensures Follow(t, events).sinceStart == Some(t.sinceStart.value + ExpiriesIn(events))
    decreases |events|
  {
    if events != [] {
      QuietCounts(Step(t, events[0]), events[1..]);
    }
  }

  /** Between two consecutive starts of the framework at least one timer expiry is handled, the later
      start included, unless the later one upgrades to an emergency. */
  lemma StartsAreSpaced(before: seq<Event>, first: Event, middle: seq<Event>, second: Event)
    requires Starts(Follow(IDLE, before), first)
    requires Quiet(Step(Follow(IDLE, before), first), middle)
    requires Starts(Follow(Step(Follow(IDLE, before), first), middle), second)
    requires !IsUpgrade(Follow(Step(Follow(IDLE, before), first), middle), second)
    ensures ExpiriesIn(middle + [second]) > 0
  {
    var started := Step(Follow(IDLE, before), first);
    EveryRunIsTimed(IDLE, before);
    EveryRunIsTimed(started, middle);
    QuietCounts(started, middle);
    ExpiriesOfSnoc(middle, second);
  }

  lemma {:induction false} ExpiriesOfSnoc(events: seq<Event>, e: Event)
    ensures ExpiriesIn(events + [e]) == ExpiriesIn(events) + if e.TimerExpired? then 1 else 0
  {
    if events != [] {
      assert (events + [e])[1..] == events[1..] + [e];
      ExpiriesOfSnoc(events[1..], e);
    }
  }

  // ---------------------------------------------------------------- what the events alone say

  /** The kind of the last start. */
  function LastKind(events: seq<Event>): bool {
    events != []
    && if events[|events|-1].Start? then events[|events|-1].emergency else LastKind(events[..|events|-1])
  }

  /** The last start, stop or modem restart was a start. */
  predicate Wished(events: seq<Event>) {
    LastWish(events).Some? && LastWish(events).value.Start?
  }

  /** A start is passed on at once if no timer runs, or if it is an emergency after a non-emergency. */
  predicate PassedOn(before: seq<Event>, emergency: bool)
    decreases |before|, 1
  {
    !TimerRuns(before) || (emergency && !LastKind(before))
  }

  /** The timer runs from a start that is passed on to an expiry that finds no wish. */
  predicate TimerRuns(events: seq<Event>)
    decreases |events|, 0
  {
    events != []
    && (var before, e := events[..|events|-1], events[|events|-1];
        match e
        case Start(emergency) => PassedOn(before, emergency) || TimerRuns(before)
        case TimerExpired => Wished(before)
        case Stop => TimerRuns(before)
        case ModemRestart => TimerRuns(before))
  }

  lemma {:induction false} FollowOfSnoc(t: Throttle, events: seq<Event>, e: Event)
    ensures Follow(t, events + [e]) == Step(Follow(t, events), e)
    decreases |events|
  {
    if events == [] {
      assert [e][1..] == [];
    } else {
      assert (events + [e])[1..] == events[1..] + [e];
      FollowOfSnoc(Step(t, events[0]), events[1..], e);
    }
  }

  /** Over every run: the request is active exactly if the last wish was a start, its kind is that of the last
      start, and the timer runs as the events say. */
  lemma {:induction false} EveryRunIsRecorded(events: seq<Event>)
    ensures var t := Follow(IDLE, events);
            t.active == Wished(events) && t.emergency == LastKind(events) && t.timer == TimerRuns(events)
  {
    if LastWish(events).Some? {
      NoWishIsLost(IDLE, events);
    } else {
      OnlyExpiriesKeepActive(IDLE, events);
    }
    if events != [] {
      var before, e := events[..|events|-1], events[|events|-1];
      EveryRunIsRecorded(before);
      EveryRunIsTimed(IDLE, before);
      FollowOfSnoc(IDLE, before, e);
      assert events == before + [e];
    }
  }

  /** Every callback of every run, told by the events alone: a start that is passed on, every stop, and at each
      expiry the last start again if it is still wished. */
  lemma EveryCallback(events: seq<Event>, e: Event)
    ensures Act(Follow(IDLE, events), e).1 ==
            match e
            case Start(emergency) => if PassedOn(events, emergency) then [Started(emergency)] else []
            case Stop => [Stopped]
            case TimerExpired => if Wished(events) then [Started(LastKind(events))] else []
            case ModemRestart => []
  {
    EveryRunIsRecorded(events);
    EveryRunIsTimed(IDLE, events);
  }

  // ---------------------------------------------------------------- the adapter's own form

  class OdcpiControl {
    var requestActive: bool
    var timerActive: bool
    var isEmergencyMode: bool
    var callbacks: seq<Callback>

    ghost predicate Is(t: Throttle)
      reads this
    {
      requestActive == t.active && timerActive == t.timer && isEmergencyMode == t.emergency
    }

    constructor ()
      ensures Is(IDLE) && callbacks == []
    {
      requestActive, timerActive, isEmergencyMode, callbacks := false, false, false, [];
    }

    method RequestStart(emergency: bool, ghost t: Throttle)
      requires Is(t)
      modifies this
      ensures Is(Act(t, Start(emergency)).0) && callbacks == old(callbacks) + Act(t, Start(emergency)).1
    {
      if !requestActive && !timerActive {
        callbacks := callbacks + [Started(emergency)];
        requestActive, timerActive := true, true;
      } else if !isEmergencyMode && emergency {
        callbacks := callbacks + [Started(emergency)];
        requestActive, timerActive := true, true;
      } else if !requestActive && timerActive {
        requestActive := true;
      }
      isEmergencyMode := emergency;
    }

    method RequestStop(ghost t: Throttle)
      requires Is(t)
      modifies this
      ensures Is(Act(t, Stop).0) && callbacks == old(callbacks) + Act(t, Stop).1
    {
      callbacks := callbacks + [Stopped];
      requestActive := false;
    }

    method OdcpiTimerExpire(ghost t: Throttle)
      requires Is(t)
      modifies this
      ensures Is(Act(t, TimerExpired).0) && callbacks == old(callbacks) + Act(t, TimerExpired).1
    {
      if requestActive {
        callbacks := callbacks + [Started(isEmergencyMode)];
        timerActive := true;
      } else {
        timerActive := false;
      }
    }

    method RestartSessions(ghost t: Throttle)
      requires Is(t)
      modifies this
      ensures Is(Act(t, ModemRestart).0) && callbacks == old(callbacks) + Act(t, ModemRestart).1
    {
      requestActive := false;
    }
  }
}
