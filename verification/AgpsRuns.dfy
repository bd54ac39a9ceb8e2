/** What every run of the AGPS state machine keeps: the books with the framework balance, and no
    subscriber is lost or told twice. */
module AgpsRuns {
  import opened AgpsProtocol

  function Wanted(s: State): nat {
    if s.Pending? || s.Acquired? then 1 else 0
  }

  // ---------------------------------------------------------------- one step

  lemma TallyOfOne(o: Output, handle: int)
    ensures ToldOver([o], handle) == if EndsFor(o, handle) then 1 else 0
    ensures Requests([o]) == if o.RequestConn? then 1 else 0
    ensures Releases([o]) == if o.ReleaseConn? then 1 else 0
  {
    TallyOfSnoc([], o, handle);
    assert [] + [o] == [o];
  }

  lemma WithdrawTally(subs: seq<Subscriber>, s: Subscriber, handle: int)
    requires s in subs && Count(subs, handle) <= 1
    ensures Count(Withdraw(subs, s).0, handle) + ToldOver(Withdraw(subs, s).1, handle) == Count(subs, handle)
    ensures Requests(Withdraw(subs, s).1) == 0
    ensures Releases(Withdraw(subs, s).1) == 0
  {
    if s.waitForClose {
      var k := Find(subs, s.handle);
      CountOfUpdate(subs, k, subs[k].(inactive := true), handle);
    } else {
      CountOfRemove(subs, s.handle, handle);
      CountListed(subs, s.handle);
      TallyOfOne(CloseStatus(s.handle), handle);
    }
  }

  lemma FinishReleaseTally(m: Machine, handle: int)
    ensures Count(m.subs, handle) == Count(FinishRelease(m).0.subs, handle) + ToldOver(FinishRelease(m).1, handle)
    ensures Requests(FinishRelease(m).1) == Wanted(FinishRelease(m).0.state)
    ensures Releases(FinishRelease(m).1) == 0
  {
    ToldAreRemoved(m.subs, InactiveOnly, Closed, handle);
    TellCounts(m.subs, InactiveOnly, Closed, handle);
    TallyOfSnoc(Tell(m.subs, InactiveOnly, Closed), RequestConn(m.agpsType), handle);
  }

  /** A finished release leaves exactly the active subscribers, with a new request for them if
      there are any, and nothing at all otherwise. */
  lemma FinishReleaseEnds(m: Machine)
    ensures var m' := FinishRelease(m).0;
            (m'.state.Pending? && AnyActive(m'.subs)) || (m'.state.Released? && m'.subs == [])
    ensures forall s :: s in FinishRelease(m).0.subs <==> s in m.subs && !s.inactive
  {
    var left := Keep(m.subs, InactiveOnly);
    KeepMembers(m.subs, InactiveOnly);
    if left != [] {
      assert left[0] in left;
    }
  }

  lemma {:induction false} NobodyIsKept(subs: seq<Subscriber>)
    ensures Keep(subs, Everyone) == []
  {
    if subs != [] {
      NobodyIsKept(subs[..|subs|-1]);
    }
  }

  lemma DismissalTally(subs: seq<Subscriber>, news: News, handle: int)
    requires !news.Opened?
    ensures Keep(subs, Everyone) == []
    ensures ToldOver(Tell(subs, Everyone, news), handle) == Count(subs, handle)
    ensures Requests(Tell(subs, Everyone, news)) == 0
    ensures Releases(Tell(subs, Everyone, news)) == 0
  {
    NobodyIsKept(subs);
    ToldAreRemoved(subs, Everyone, news, handle);
    TellCounts(subs, Everyone, news, handle);
  }

  lemma SubscribeTally(m: Machine, s: Subscriber, handle: int)
    requires Count(m.subs, handle) <= 1
    ensures var (m', outs) := StepSubscribe(m, s);
            && Count(m'.subs, handle) <= 1
            && Count(m.subs, handle) + (if s.handle == handle && !IsListed(m.subs, handle) then 1 else 0)
               == Count(m'.subs, handle) + ToldOver(outs, handle)
            && Releases(outs) == 0
            && Requests(outs) == Wanted(m'.state) - Wanted(m.state)
  {
    CountListed(m.subs, s.handle);
    CountOfSnoc(m.subs, s, handle);
    TallyOfOne(RequestConn(m.agpsType), handle);
    TallyOfOne(OpenStatus(s.handle, true), handle);
  }

  lemma UnsubscribeTally(m: Machine, s: Subscriber, handle: int)
    requires s in m.subs && EmptyWhenReleased(m) && Count(m.subs, handle) <= 1
    ensures var (m', outs) := StepUnsubscribe(m, s);
            && EmptyWhenReleased(m')
            && Count(m.subs, handle) == Count(m'.subs, handle) + ToldOver(outs, handle)
            && Requests(outs) == 0
            && Releases(outs) == Wanted(m.state) - Wanted(m'.state)
  {
    WithdrawTally(m.subs, s, handle);
    TallyOfSnoc(Withdraw(m.subs, s).1, ReleaseConn(m.agpsType), handle);
  }

  lemma ReleasedTally(m: Machine, handle: int)
    requires EmptyWhenReleased(m)
    ensures var (m', outs) := StepReleased(m);
            && EmptyWhenReleased(m')
            && Count(m.subs, handle) == Count(m'.subs, handle) + ToldOver(outs, handle)
            && Releases(outs) == 0
            && Requests(outs) - (if m.state.Acquired? then 1 else 0) == Wanted(m'.state) - Wanted(m.state)
  {
    if m.state.Releasing? {
      FinishReleaseTally(m, handle);
      FinishReleaseEnds(m);
    } else {
      DismissalTally(m.subs, Closed, handle);
    }
  }

  lemma DeniedTally(m: Machine, handle: int)
    requires EmptyWhenReleased(m)
    ensures var (m', outs) := StepDenied(m);
            && EmptyWhenReleased(m')
            && Count(m.subs, handle) == Count(m'.subs, handle) + ToldOver(outs, handle)
            && Releases(outs) == 0
            && Requests(outs) - (if m.state.Pending? then 1 else 0) == Wanted(m'.state) - Wanted(m.state)
  {
    if m.state.Releasing? {
      FinishReleaseTally(m, handle);
      FinishReleaseEnds(m);
    } else {
      DismissalTally(m.subs, Refused, handle);
    }
  }

  /** One step, one handle: the handle leaves the list exactly in the step that tells it so, once;
      only a modem restart drops it without a word. And the balance of requests against releases,
      denials and forced releases moves exactly as the state does. */
  lemma StepTally(m: Machine, e: Event, handle: int)
    requires EmptyWhenReleased(m) && Count(m.subs, handle) <= 1
    ensures var (m', outs) := Step(m, e);
            && EmptyWhenReleased(m') && Count(m'.subs, handle) <= 1
            && Count(m.subs, handle) + (if Admits(m, e, handle) then 1 else 0)
               == Count(m'.subs, handle) + ToldOver(outs, handle)
                  + (if e.ModemRestart? then Count(m.subs, handle) else 0)
            && Requests(outs) - Releases(outs)
               - (if e.Denied? && m.state.Pending? then 1 else 0)
               - (if e.ConnReleased? && m.state.Acquired? then 1 else 0)
               == Wanted(m'.state) - Wanted(m.state)
  {
    match e
    case Subscribe(h, wait) => SubscribeTally(m, Subscriber(h, wait, false), handle);
    case Unsubscribe(h) =>
      var k := Find(m.subs, h);
      if k < |m.subs| {
        UnsubscribeTally(m, m.subs[k], handle);
      }
    case Granted => TellCounts(m.subs, ActiveOnly, Opened, handle);
    case ConnReleased => ReleasedTally(m, handle);
    case Denied => DeniedTally(m, handle);
    case ModemRestart =>
  }

  lemma WithdrawActivatesNobody(subs: seq<Subscriber>, s: Subscriber)
    ensures forall t :: t in Withdraw(subs, s).0 && !t.inactive ==> t in subs
  {
    RemoveMembers(subs, s.handle);
  }

  /** In ACQUIRED an active subscriber has been sent an open-success since it was admitted. */
  lemma OpenReachesTheActive(watched: int, l: Ledger, e: Event)
    requires ActiveWasOpened(watched, l)
    ensures ActiveWasOpened(watched, Observe(watched, l, e))
  {
    var m := l.m;
    var m' := Step(m, e).0;
    match e
    case Subscribe(h, wait) =>
      CountListed(m.subs, h);
    case Unsubscribe(h) =>
      var k := Find(m.subs, h);
      if k < |m.subs| {
        WithdrawActivatesNobody(m.subs, m.subs[k]);
      }
    case Granted =>
      TellReaches(m.subs, ActiveOnly, Opened, watched);
    case ConnReleased =>
    case Denied =>
    case ModemRestart =>
  }

  /** Only a subscriber that does not wait is removed on the spot, so an inactive one stays. */
  lemma WithdrawKeepsTheWaiting(subs: seq<Subscriber>, s: Subscriber)
    requires s in subs && Find(subs, s.handle) < |subs| && subs[Find(subs, s.handle)] == s
    requires Count(subs, s.handle) <= 1
    requires forall t :: t in subs && t.inactive ==> t.waitForClose
    ensures var left := Withdraw(subs, s).0;
            && (AnyInactive(subs) ==> AnyInactive(left))
            && (forall t :: t in left && t.inactive ==> t.waitForClose)
  {
    var left := Withdraw(subs, s).0;
    if s.waitForClose {
      assert left[Find(subs, s.handle)].inactive;
    } else {
      RemoveMembers(subs, s.handle);
      if AnyInactive(subs) {
        var i :| 0 <= i < |subs| && subs[i].inactive;
        if subs[i].handle == s.handle {
          TwoPositions(subs, i, Find(subs, s.handle));
        }
        assert subs[i] in left;
        var j :| 0 <= j < |left| && left[j] == subs[i];
      }
    }
  }

  /** A handle that is listed once has one position. */
  lemma {:induction false} TwoPositions(subs: seq<Subscriber>, i: nat, j: nat)
    requires i < |subs| && j < |subs| && subs[i].handle == subs[j].handle
    requires Count(subs, subs[i].handle) <= 1
    ensures i == j
  {
    var n := |subs| - 1;
    if i < n && j < n {
      TwoPositions(subs[..n], i, j);
    } else if i != j {
      var k := if i < n then i else j;
      assert subs[..n][k].handle == subs[i].handle;
      CountListed(subs[..n], subs[i].handle);
    }
  }

  lemma SubscribeMotivated(m: Machine, s: Subscriber)
    requires Motivated(m) && EmptyWhenReleased(m) && !s.inactive
    ensures Motivated(StepSubscribe(m, s).0)
  {
    var m' := StepSubscribe(m, s).0;
    assert forall i :: 0 <= i < |m.subs| ==> m'.subs[i] == m.subs[i];
    if m.state.Released? {
      assert m'.subs == [s];
      assert !m'.subs[0].inactive;
    } else if AnyActive(m.subs) {
      var i :| 0 <= i < |m.subs| && !m.subs[i].inactive;
      assert !m'.subs[i].inactive;
    }
    if AnyInactive(m.subs) {
      var i :| 0 <= i < |m.subs| && m.subs[i].inactive;
      assert m'.subs[i].inactive;
    }
  }

  lemma FinishReleaseMotivated(m: Machine)
    requires Motivated(m)
    ensures Motivated(FinishRelease(m).0)
  {
    FinishReleaseEnds(m);
    KeepMembers(m.subs, InactiveOnly);
  }

  /** Without a modem restart every state keeps the subscriber that explains it. */
  lemma StatesStayMotivated(m: Machine, e: Event)
    requires Motivated(m) && EmptyWhenReleased(m) && (e.Unsubscribe? ==> Count(m.subs, e.handle) <= 1)
    requires !e.ModemRestart?
    ensures Motivated(Step(m, e).0)
  {
    match e
    case Subscribe(h, wait) => SubscribeMotivated(m, Subscriber(h, wait, false));
    case Unsubscribe(h) =>
      var k := Find(m.subs, h);
      if k < |m.subs| {
        WithdrawKeepsTheWaiting(m.subs, m.subs[k]);
        var left := Withdraw(m.subs, m.subs[k]).0;
        if left != [] && !AnyActive(left) {
          assert left[0].inactive;
        }
      }
    case Granted =>
    case ConnReleased =>
      FinishReleaseMotivated(m);
      NobodyIsKept(m.subs);
    case Denied =>
      FinishReleaseMotivated(m);
      NobodyIsKept(m.subs);
  }

  /** Exactly when an event keeps each state explained: unless it is a modem restart outside RELEASED. */
  lemma StatesStayMotivatedExactly(m: Machine, e: Event)
    requires Motivated(m) && EmptyWhenReleased(m) && (e.Unsubscribe? ==> Count(m.subs, e.handle) <= 1)
    ensures Motivated(Step(m, e).0) <==> !(e.ModemRestart? && !m.state.Released?)
  {
    if !e.ModemRestart? {
      StatesStayMotivated(m, e);
    }
  }

  /** A grant reaches exactly the active subscribers of a pending connection. */
  lemma GrantReachesTheActive(m: Machine, handle: int)
    requires m.state.Pending?
    ensures OpenStatus(handle, true) in Step(m, Granted).1 <==>
            exists s :: s in m.subs && !s.inactive && s.handle == handle
  {
    TellReaches(m.subs, ActiveOnly, Opened, handle);
    if s :| s in m.subs && Concerns(ActiveOnly, s) && s.handle == handle {
      assert !s.inactive;
    }
    if s :| s in m.subs && !s.inactive && s.handle == handle {
      assert Concerns(ActiveOnly, s);
    }
  }

  // ---------------------------------------------------------------- every run

  /** Over every run, restarts of the modem included: the framework's books balance, RELEASED means
      an empty list, no admission of any handle is lost or told twice, a handle is listed at most
      once, and ACQUIRED has served its active subscribers. */
  lemma {:induction false} EveryRunBalances(watched: int, agpsType: int, events: seq<Event>)
    ensures var l := Run(watched, agpsType, events);
            Accounted(l) && EmptyWhenReleased(l.m) && Conserved(watched, l) && ActiveWasOpened(watched, l)
  {
    if events != [] {
      var before := events[..|events|-1];
      var e := events[|events|-1];
      EveryRunBalances(watched, agpsType, before);
      StepTally(Run(watched, agpsType, before).m, e, watched);
      OpenReachesTheActive(watched, Run(watched, agpsType, before), e);
    }
  }

  /** The machine does not depend on which handle is watched. */
  lemma {:induction false} WatchingIsPassive(one: int, other: int, agpsType: int, events: seq<Event>)
    ensures Run(one, agpsType, events).m == Run(other, agpsType, events).m
  {
    if events != [] {
      WatchingIsPassive(one, other, agpsType, events[..|events|-1]);
    }
  }

  /** Without modem restarts, a wanted connection has an active subscriber, and a connection being
      released has an inactive one waiting for the close. */
  lemma {:induction false} EveryRunIsMotivated(watched: int, agpsType: int, events: seq<Event>)
    requires ModemRestart !in events
    ensures Motivated(Run(watched, agpsType, events).m)
  {
    if events != [] {
      var before := events[..|events|-1];
      var e := events[|events|-1];
      EveryRunIsMotivated(watched, agpsType, before);
      EveryRunBalances(watched, agpsType, before);
      if e.Unsubscribe? {
        EveryRunBalances(e.handle, agpsType, before);
        WatchingIsPassive(e.handle, watched, agpsType, before);
      }
      StatesStayMotivated(Run(watched, agpsType, before).m, e);
    }
  }

  ghost predicate MotivatedAllAlong(watched: int, agpsType: int, events: seq<Event>) {
    Motivated(Run(watched, agpsType, events).m)
    && (events == [] || MotivatedAllAlong(watched, agpsType, events[..|events|-1]))
  }

  /** The modem restarts while a connection is wanted or being released. */
  predicate RestartsInUse(watched: int, agpsType: int, events: seq<Event>) {
    events != []
    && (RestartsInUse(watched, agpsType, events[..|events|-1])
        || (events[|events|-1].ModemRestart? && !Run(watched, agpsType, events[..|events|-1]).m.state.Released?))
  }

  /** A run keeps each state explained at every moment exactly if the modem never restarts outside RELEASED. */
  lemma {:induction false} RunsAreMotivatedExactly(watched: int, agpsType: int, events: seq<Event>)
    ensures MotivatedAllAlong(watched, agpsType, events) <==> !RestartsInUse(watched, agpsType, events)
  {
    if events != [] {
      var before, e := events[..|events|-1], events[|events|-1];
      RunsAreMotivatedExactly(watched, agpsType, before);
      if MotivatedAllAlong(watched, agpsType, before) {
        EveryRunBalances(watched, agpsType, before);
        if e.Unsubscribe? {
          EveryRunBalances(e.handle, agpsType, before);
          WatchingIsPassive(e.handle, watched, agpsType, before);
        }
        StatesStayMotivatedExactly(Run(watched, agpsType, before).m, e);
      }
    }
  }

  /** With a modem restart the state survives the subscribers it served: the connection stays
      acquired with nobody left to release it. */
  lemma RestartOrphansTheConnection(agpsType: int)
    ensures var m := Run(7, agpsType, [Subscribe(7, true), Granted, ModemRestart]).m;
            m.state.Acquired? && m.subs == [] && !Motivated(m)
  {
    var e := [Subscribe(7, true), Granted, ModemRestart];
    assert e[..2] == [Subscribe(7, true), Granted];
    assert e[..2][..1] == [Subscribe(7, true)];
    assert e[..2][..1][..0] == [];
    assert Run(7, agpsType, []).m.state.Released?;
    assert Run(7, agpsType, [Subscribe(7, true)]).m.state.Pending?;
    assert Run(7, agpsType, [Subscribe(7, true), Granted]).m.state.Acquired?;
  }
}
