/** What a handle is to the AGPS machine, told by its own requests and by what it was told: nothing, an active
    subscriber, or one that has released and waits for the close.
 */
module AgpsClaims {
  import opened AgpsProtocol
  import opened AgpsRuns

  datatype Claim = Nothing | Active(waits: bool) | Leaving

  /** The subscribers of a handle are what the claim says. */
  ghost predicate Holds(subs: seq<Subscriber>, handle: int, claim: Claim) {
    match claim
    case Nothing => !IsListed(subs, handle)
    case Active(waits) => Subscriber(handle, waits, false) in subs
    case Leaving => Subscriber(handle, true, true) in subs
  }

  /** The claim after an event that makes the outputs `outs`: a first request makes it active; a release makes it
      leave, or ends it at once for one that does not wait; and being told the end, or a modem restart, ends it.
      A request by one that is still leaving changes nothing. */
  function After(claim: Claim, handle: int, e: Event, outs: seq<Output>): Claim {
    if e.ModemRestart? || ToldOver(outs, handle) > 0 then Nothing
    else if e.Subscribe? && e.handle == handle && claim.Nothing? then Active(e.waitForClose)
    else if e.Unsubscribe? && e.handle == handle && claim.Active? then if claim.waits then Leaving else Nothing
    else claim
  }

  function ClaimOf(handle: int, agpsType: int, events: seq<Event>): Claim {
    if events == [] then Nothing
    else
      var before, e := events[..|events|-1], events[|events|-1];
      After(ClaimOf(handle, agpsType, before), handle, e, Step(Run(handle, agpsType, before).m, e).1)
  }

  // ---------------------------------------------------------------- one release

  /** Under one handle there is one subscriber. */
  lemma OnlyOne(subs: seq<Subscriber>, s: Subscriber, t: Subscriber)
    requires s in subs && t in subs && s.handle == t.handle && Count(subs, s.handle) <= 1
    ensures s == t
  {
    var i :| 0 <= i < |subs| && subs[i] == s;
    var j :| 0 <= j < |subs| && subs[j] == t;
    TwoPositions(subs, i, j);
  }

  lemma MarkMembers(subs: seq<Subscriber>, s: Subscriber)
    requires s in subs && Count(subs, s.handle) <= 1
    ensures var left := MarkInactive(subs, s.handle);
            && (forall t: Subscriber :: t.handle != s.handle ==> (t in left <==> t in subs))
            && (forall t :: t in left && t.handle == s.handle ==> t == s.(inactive := true))
            && s.(inactive := true) in left
  {
    var k := Find(subs, s.handle);
    var left := MarkInactive(subs, s.handle);
    OnlyOne(subs, s, subs[k]);
    assert left[k] == s.(inactive := true);
    forall t: Subscriber | t.handle != s.handle ensures t in left <==> t in subs {
      if i :| 0 <= i < |subs| && subs[i] == t {
        assert left[i] == t;
      }
    }
    forall t | t in left && t.handle == s.handle ensures t == s.(inactive := true) {
      var i :| 0 <= i < |left| && left[i] == t;
      TwoPositions(subs, i, k);
    }
  }

  /** A release outside RELEASED: afterwards no active subscriber has the handle, one that waits stays listed
      inactive, one that does not is gone, and every other subscriber is as before. */
  lemma ReleaseIsExact(m: Machine, s: Subscriber)
    requires s in m.subs && Count(m.subs, s.handle) <= 1 && !m.state.Released?
    ensures var subs := Step(m, Unsubscribe(s.handle)).0.subs;
            && (forall t :: t in subs && t.handle == s.handle ==> t.inactive)
            && (s.waitForClose ==> s.(inactive := true) in subs)
            && (!s.waitForClose ==> !IsListed(subs, s.handle))
            && (forall t: Subscriber :: t.handle != s.handle ==> (t in subs <==> t in m.subs))
  {
    var k := Find(m.subs, s.handle);
    OnlyOne(m.subs, s, m.subs[k]);
    if s.waitForClose {
      MarkMembers(m.subs, s);
    } else {
      RemoveMembers(m.subs, s.handle);
      ListedIsMember(Remove(m.subs, s.handle), s.handle);
    }
  }

  lemma ListedIsMember(subs: seq<Subscriber>, handle: int)
    ensures IsListed(subs, handle) <==> exists t :: t in subs && t.handle == handle
  {
    if i :| 0 <= i < |subs| && subs[i].handle == handle {
      assert subs[i] in subs;
    }
  }

  lemma ActiveIsMember(subs: seq<Subscriber>)
    ensures AnyActive(subs) <==> exists t :: t in subs && !t.inactive
  {
    if i :| 0 <= i < |subs| && !subs[i].inactive {
      assert subs[i] in subs;
    }
  }

  /** The connection is released in exactly the release after which no active subscriber is left. */
  lemma LastReleaseReleases(m: Machine, s: Subscriber)
    requires s in m.subs && Count(m.subs, s.handle) <= 1
    ensures ReleaseConn(m.agpsType) in Step(m, Unsubscribe(s.handle)).1 <==>
            && (m.state.Pending? || m.state.Acquired?)
            && forall t :: t in m.subs && t.handle != s.handle ==> t.inactive
  {
    var k := Find(m.subs, s.handle);
    OnlyOne(m.subs, s, m.subs[k]);
    if !m.state.Released? {
      ReleaseIsExact(m, s);
      ActiveIsMember(Step(m, Unsubscribe(s.handle)).0.subs);
    }
  }

  // ---------------------------------------------------------------- every event

  lemma HoldsOne(subs: seq<Subscriber>, handle: int, s: Subscriber)
    requires s in subs && s.handle == handle && Count(subs, handle) <= 1
    ensures IsListed(subs, handle)
    ensures forall w :: Holds(subs, handle, Active(w)) <==> !s.inactive && s.waitForClose == w
    ensures Holds(subs, handle, Leaving) <==> s.inactive && s.waitForClose
  {
    ListedIsMember(subs, handle);
    forall t | t in subs && t.handle == handle ensures t == s {
      OnlyOne(subs, s, t);
    }
  }

  /** If no subscriber of the handle is added or changed, the claim stands unless the handle left the list. */
  lemma ClaimSurvives(was: seq<Subscriber>, subs: seq<Subscriber>, handle: int, claim: Claim)
    requires Holds(was, handle, claim) && Count(was, handle) <= 1
    requires forall t :: t in subs && t.handle == handle ==> t in was
    ensures Count(subs, handle) == Count(was, handle) ==> Holds(subs, handle, claim)
  {
    ListedIsMember(was, handle);
    ListedIsMember(subs, handle);
    CountListed(was, handle);
    CountListed(subs, handle);
    if IsListed(subs, handle) {
      var t :| t in subs && t.handle == handle;
      HoldsOne(was, handle, t);
    }
  }

  /** An event that is no request and no release adds or changes no subscriber. */
  lemma NobodyJoins(m: Machine, e: Event)
    requires !e.Subscribe? && !e.Unsubscribe?
    ensures forall t :: t in Step(m, e).0.subs ==> t in m.subs
  {
    KeepMembers(m.subs, Everyone);
    KeepMembers(m.subs, InactiveOnly);
  }

  lemma RequestKeepsClaim(m: Machine, e: Event, handle: int, claim: Claim)
    requires e.Subscribe? && EmptyWhenReleased(m) && Count(m.subs, handle) <= 1 && Holds(m.subs, handle, claim)
    ensures Holds(Step(m, e).0.subs, handle, After(claim, handle, e, Step(m, e).1))
  {
    StepTally(m, e, handle);
    CountListed(m.subs, handle);
    var s := Subscriber(e.handle, e.waitForClose, false);
    assert Step(m, e).0.subs == Add(m.subs, s);
    ListedIsMember(m.subs, handle);
    ListedIsMember(Add(m.subs, s), handle);
  }

  lemma ReleaseKeepsClaim(m: Machine, e: Event, handle: int, claim: Claim)
    requires e.Unsubscribe? && EmptyWhenReleased(m) && Holds(m.subs, handle, claim)
    requires Count(m.subs, handle) <= 1 && Count(m.subs, e.handle) <= 1
    ensures Holds(Step(m, e).0.subs, handle, After(claim, handle, e, Step(m, e).1))
  {
    StepTally(m, e, handle);
    var subs := Step(m, e).0.subs;
    CountListed(m.subs, handle);
    CountListed(subs, handle);
    ListedIsMember(subs, handle);
    ListedIsMember(m.subs, handle);
    if IsListed(m.subs, e.handle) {
      var s := m.subs[Find(m.subs, e.handle)];
      ReleaseIsExact(m, s);
      if e.handle == handle {
        HoldsOne(m.subs, handle, s);
      }
    }
  }

  /** One event keeps the claim true. */
  lemma StepKeepsClaim(m: Machine, e: Event, handle: int, claim: Claim)
    requires EmptyWhenReleased(m) && Holds(m.subs, handle, claim)
    requires Count(m.subs, handle) <= 1 && (e.Unsubscribe? ==> Count(m.subs, e.handle) <= 1)
    ensures Holds(Step(m, e).0.subs, handle, After(claim, handle, e, Step(m, e).1))
  {
    if e.Subscribe? {
      RequestKeepsClaim(m, e, handle, claim);
    } else if e.Unsubscribe? {
      ReleaseKeepsClaim(m, e, handle, claim);
    } else {
      var subs := Step(m, e).0.subs;
      StepTally(m, e, handle);
      NobodyJoins(m, e);
      CountListed(subs, handle);
      ClaimSurvives(m.subs, subs, handle, claim);
    }
  }

  /** Over every run, modem restarts included: a handle is listed active, listed inactive or not listed exactly as
      its own requests, releases and endings say. */
  lemma {:induction false} EveryClaimHolds(handle: int, agpsType: int, events: seq<Event>)
    ensures Holds(Run(handle, agpsType, events).m.subs, handle, ClaimOf(handle, agpsType, events))
  {
    if events != [] {
      var before, e := events[..|events|-1], events[|events|-1];
      EveryClaimHolds(handle, agpsType, before);
      EveryRunBalances(handle, agpsType, before);
      if e.Unsubscribe? {
        EveryRunBalances(e.handle, agpsType, before);
        WatchingIsPassive(e.handle, handle, agpsType, before);
      }
      StepKeepsClaim(Run(handle, agpsType, before).m, e, handle, ClaimOf(handle, agpsType, before));
    }
  }

  // ---------------------------------------------------------------- the last word of a handle

  /** The handle's last request came after its last release, its last ending and the last modem restart. */
  predicate WantsIt(handle: int, agpsType: int, events: seq<Event>) {
    events != []
    && (var before, e := events[..|events|-1], events[|events|-1];
        if e.ModemRestart? || ToldOver(Step(Run(handle, agpsType, before).m, e).1, handle) > 0 then false
        else if e.Subscribe? && e.handle == handle then true
        else if e.Unsubscribe? && e.handle == handle then false
        else WantsIt(handle, agpsType, before))
  }

  /** Its last request came while it was still leaving, and has not been taken back or ended since. */
  predicate AskedWhileLeaving(handle: int, agpsType: int, events: seq<Event>) {
    events != []
    && (var before, e := events[..|events|-1], events[|events|-1];
        if e.ModemRestart? || ToldOver(Step(Run(handle, agpsType, before).m, e).1, handle) > 0 then false
        else if e.Subscribe? && e.handle == handle then ClaimOf(handle, agpsType, before).Leaving?
        else if e.Unsubscribe? && e.handle == handle then false
        else AskedWhileLeaving(handle, agpsType, before))
  }

  lemma {:induction false} ClaimIsLastWord(handle: int, agpsType: int, events: seq<Event>)
    ensures var claim, wants := ClaimOf(handle, agpsType, events), WantsIt(handle, agpsType, events);
            var late := AskedWhileLeaving(handle, agpsType, events);
            && (claim.Active? ==> wants && !late)
            && (claim.Leaving? ==> wants == late)
            && (claim.Nothing? ==> !wants && !late)
  {
    if events != [] {
      ClaimIsLastWord(handle, agpsType, events[..|events|-1]);
    }
  }

  lemma ActiveIsClaimed(subs: seq<Subscriber>, handle: int, claim: Claim)
    requires Holds(subs, handle, claim) && Count(subs, handle) <= 1
    ensures (exists s :: s in subs && s.handle == handle && !s.inactive) <==> claim.Active?
  {
    if claim.Active? {
      assert Subscriber(handle, claim.waits, false) in subs;
    }
    if s :| s in subs && s.handle == handle && !s.inactive {
      HoldsOne(subs, handle, s);
    }
  }

  /** Over every run, a handle is an active subscriber exactly if its last request came after its last release and
      ending, and did not come while it was still leaving. */
  lemma ActiveExactlyIfWanted(handle: int, agpsType: int, events: seq<Event>)
    ensures (exists s :: s in Run(handle, agpsType, events).m.subs && s.handle == handle && !s.inactive) <==>
            WantsIt(handle, agpsType, events) && !AskedWhileLeaving(handle, agpsType, events)
  {
    ClaimIsLastWord(handle, agpsType, events);
    EveryClaimHolds(handle, agpsType, events);
    EveryRunBalances(handle, agpsType, events);
    ActiveIsClaimed(Run(handle, agpsType, events).m.subs, handle, ClaimOf(handle, agpsType, events));
  }

  lemma RunOfSnoc(handle: int, agpsType: int, events: seq<Event>, e: Event)
    ensures Run(handle, agpsType, events + [e]).m == Step(Run(handle, agpsType, events).m, e).0
    ensures ClaimOf(handle, agpsType, events + [e]) ==
            After(ClaimOf(handle, agpsType, events), handle, e, Step(Run(handle, agpsType, events).m, e).1)
  {
    assert (events + [e])[..|events|] == events;
  }

  lemma OneAsks(agpsType: int)
    ensures var s := Subscriber(1, true, false);
            && Step(Machine(Released, [], agpsType), Subscribe(1, true))
               == (Machine(Pending, [s], agpsType), [RequestConn(agpsType)])
            && Step(Machine(Pending, [s], agpsType), Granted)
               == (Machine(Acquired, [s], agpsType), [OpenStatus(1, true)])
  {
    var s := Subscriber(1, true, false);
    assert Add([], s) == [s];
    assert [s][..0] == [] && Tell([s], ActiveOnly, Opened) == [OpenStatus(1, true)];
  }

  lemma OneLeaves(agpsType: int)
    ensures var s, gone := Subscriber(1, true, false), Subscriber(1, true, true);
            var leaving := Machine(Releasing, [gone], agpsType);
            && Step(Machine(Acquired, [s], agpsType), Unsubscribe(1)) == (leaving, [ReleaseConn(agpsType)])
            && Step(leaving, Subscribe(1, true)) == (leaving, [])
            && Step(leaving, ConnReleased) == (Machine(Released, [], agpsType), [CloseStatus(1)])
  {
    var s, gone := Subscriber(1, true, false), Subscriber(1, true, true);
    assert MarkInactive([s], 1) == [gone] && !AnyActive([gone]);
    assert [] + [ReleaseConn(agpsType)] == [ReleaseConn(agpsType)];
    assert [gone][0].handle == 1;
    assert [gone][..0] == [];
    assert Keep([gone], InactiveOnly) == [] && Tell([gone], InactiveOnly, Closed) == [CloseStatus(1)];
  }

  /** Client 1 releases and, before the close has come, asks again: the close ends it, no connection is requested,
      and its request is lost. */
  lemma RequestWhileLeavingIsLost(agpsType: int)
    ensures var events := [Subscribe(1, true)] + [Granted] + [Unsubscribe(1)] + [Subscribe(1, true)];
            && AskedWhileLeaving(1, agpsType, events)
            && Step(Run(1, agpsType, events).m, ConnReleased) == (Machine(Released, [], agpsType), [CloseStatus(1)])
  {
    var e1: seq<Event> := [Subscribe(1, true)];
    var e2 := e1 + [Granted];
    var e3 := e2 + [Unsubscribe(1)];
    OneAsks(agpsType);
    OneLeaves(agpsType);
    RunOfSnoc(1, agpsType, [], Subscribe(1, true));
    assert [] + e1 == e1;
    RunOfSnoc(1, agpsType, e1, Granted);
    RunOfSnoc(1, agpsType, e2, Unsubscribe(1));
    RunOfSnoc(1, agpsType, e3, Subscribe(1, true));
    TallyOfOne(OpenStatus(1, true), 1);
    TallyOfOne(RequestConn(agpsType), 1);
    TallyOfOne(ReleaseConn(agpsType), 1);
    assert (e3 + e1)[..3] == e3;
  }

  // ---------------------------------------------------------------- what a handle is told

  /** What one event tells a handle, case by case: an open-success when the connection is granted to an active
      subscriber or there already for a new one; an open-failed when the open is denied; and a close when the
      connection is gone, or when a subscriber that does not wait for it releases. */
  lemma StepTells(m: Machine, e: Event, handle: int)
    requires EmptyWhenReleased(m)
    ensures var outs := Step(m, e).1;
            && (OpenStatus(handle, true) in outs <==>
                || (e.Granted? && m.state.Pending? && exists s :: s in m.subs && !s.inactive && s.handle == handle)
                || (e.Subscribe? && e.handle == handle && m.state.Acquired?))
            && (OpenStatus(handle, false) in outs <==> e.Denied? && m.state.Pending? && IsListed(m.subs, handle))
  {
    match e
    case Subscribe(_, _) =>
    case Unsubscribe(_) =>
    case Granted => TellSays(m.subs, ActiveOnly, Opened, handle);
    case ConnReleased =>
      TellSays(m.subs, Everyone, Closed, handle);
      TellSays(m.subs, InactiveOnly, Closed, handle);
    case Denied =>
      ListedIsMember(m.subs, handle);
      TellSays(m.subs, Everyone, Refused, handle);
      TellSays(m.subs, InactiveOnly, Closed, handle);
    case ModemRestart =>
  }

  lemma ReleaseCloses(m: Machine, h: int, handle: int)
    requires EmptyWhenReleased(m) && Count(m.subs, h) <= 1
    ensures CloseStatus(handle) in Step(m, Unsubscribe(h)).1 <==>
            h == handle && exists s :: s in m.subs && !s.waitForClose && s.handle == h
  {
    if IsListed(m.subs, h) {
      var s := m.subs[Find(m.subs, h)];
      assert s in m.subs;
      forall t | t in m.subs && t.handle == h ensures t == s {
        OnlyOne(m.subs, s, t);
      }
    } else {
      ListedIsMember(m.subs, h);
    }
  }

  lemma StepCloses(m: Machine, e: Event, handle: int)
    requires EmptyWhenReleased(m) && (e.Unsubscribe? ==> Count(m.subs, e.handle) <= 1)
    ensures CloseStatus(handle) in Step(m, e).1 <==>
            || (e.ConnReleased? && m.state.Acquired? && IsListed(m.subs, handle))
            || ((e.ConnReleased? || e.Denied?) && m.state.Releasing?
                && exists s :: s in m.subs && s.inactive && s.handle == handle)
            || (e.Unsubscribe? && e.handle == handle
                && exists s :: s in m.subs && !s.waitForClose && s.handle == handle)
  {
    match e
    case Subscribe(_, _) =>
    case Unsubscribe(h) => ReleaseCloses(m, h, handle);
    case Granted => TellSays(m.subs, ActiveOnly, Opened, handle);
    case ConnReleased =>
      ListedIsMember(m.subs, handle);
      TellSays(m.subs, Everyone, Closed, handle);
      TellSays(m.subs, InactiveOnly, Closed, handle);
    case Denied =>
      TellSays(m.subs, Everyone, Refused, handle);
      TellSays(m.subs, InactiveOnly, Closed, handle);
    case ModemRestart =>
  }

  /** A notification makes only callbacks of its own kind, to the handles of its audience. */
  lemma {:induction false} TellSays(subs: seq<Subscriber>, audience: Audience, news: News, handle: int)
    ensures var outs := Tell(subs, audience, news);
            var hears := exists s :: s in subs && Concerns(audience, s) && s.handle == handle;
            && (OpenStatus(handle, true) in outs <==> news.Opened? && hears)
            && (OpenStatus(handle, false) in outs <==> news.Refused? && hears)
            && (CloseStatus(handle) in outs <==> news.Closed? && hears)
  {
    if subs != [] {
      var n := |subs| - 1;
      TellSays(subs[..n], audience, news, handle);
      assert subs == subs[..n] + [subs[n]];
      assert subs[n] in subs;
    }
  }
}
