/** The AGPS connection state machine: one step per event, and what every run of it keeps.

    The machine multiplexes many modem subscribers over one data connection that it requests
    from, and releases to, the framework. A step returns the callbacks it makes, in order.
 */
module AgpsProtocol {

  datatype Subscriber = Subscriber(handle: int, waitForClose: bool, inactive: bool)

  datatype State = Released | Pending | Acquired | Releasing

  datatype Audience = Everyone | InactiveOnly | ActiveOnly

  datatype News = Opened | Refused | Closed

  /** What the machine says: to the framework (request or release the data connection of a
      type), and to the modem (the outcome of an open, or a close, for one handle). */
  datatype Output =
    | RequestConn(agpsType: int)
    | ReleaseConn(agpsType: int)
    | OpenStatus(handle: int, success: bool)
    | CloseStatus(handle: int)

  datatype Event =
    | Subscribe(handle: int, waitForClose: bool)
    | Unsubscribe(handle: int)
    | Granted
    | ConnReleased
    | Denied
    | ModemRestart

  datatype Machine = Machine(state: State, subs: seq<Subscriber>, agpsType: int)

  // ---------------------------------------------------------------- the subscriber list

  predicate Concerns(audience: Audience, s: Subscriber) {
    match audience
    case Everyone => true
    case InactiveOnly => s.inactive
    case ActiveOnly => !s.inactive
  }

  /** How often a handle is listed. */
  function Count(subs: seq<Subscriber>, handle: int): nat {
    if subs == [] then 0
    else Count(subs[..|subs|-1], handle) + if subs[|subs|-1].handle == handle then 1 else 0
  }

  predicate IsListed(subs: seq<Subscriber>, handle: int) {
    exists i :: 0 <= i < |subs| && subs[i].handle == handle
  }

  predicate AnyActive(subs: seq<Subscriber>) {
    exists i :: 0 <= i < |subs| && !subs[i].inactive
  }

  ghost predicate AnyInactive(subs: seq<Subscriber>) {
    exists i :: 0 <= i < |subs| && subs[i].inactive
  }

  /** Position of the first subscriber with this handle, or the length of the list. */
  function Find(subs: seq<Subscriber>, handle: int): (k: nat)
    ensures k <= |subs|
    ensures k < |subs| ==> subs[k].handle == handle
    ensures forall i :: 0 <= i < k ==> subs[i].handle != handle
  {
    if subs == [] then 0
    else if subs[0].handle == handle then 0
    else
      var k := Find(subs[1..], handle);
      assert forall i :: 1 <= i < k + 1 ==> subs[i] == subs[1..][i - 1];
      k + 1
  }

  function Add(subs: seq<Subscriber>, s: Subscriber): seq<Subscriber> {
    if IsListed(subs, s.handle) then subs else subs + [s]
  }

  function MarkInactive(subs: seq<Subscriber>, handle: int): seq<Subscriber> {
    var k := Find(subs, handle);
    if k == |subs| then subs else subs[k := subs[k].(inactive := true)]
  }

  function Remove(subs: seq<Subscriber>, handle: int): seq<Subscriber> {
    if subs == [] then []
    else
      var n := |subs| - 1;
      Remove(subs[..n], handle) + (if subs[n].handle == handle then [] else [subs[n]])
  }

  /** The subscribers a notification with deletion leaves behind. */
  function Keep(subs: seq<Subscriber>, audience: Audience): seq<Subscriber> {
    if subs == [] then []
    else
      var n := |subs| - 1;
      Keep(subs[..n], audience) + (if Concerns(audience, subs[n]) then [] else [subs[n]])
  }

  function Say(news: News, handle: int): Output {
    match news
    case Opened => OpenStatus(handle, true)
    case Refused => OpenStatus(handle, false)
    case Closed => CloseStatus(handle)
  }

  /** The callbacks of a notification, in list order. */
  function Tell(subs: seq<Subscriber>, audience: Audience, news: News): seq<Output> {
    if subs == [] then []
    else
      var n := |subs| - 1;
      Tell(subs[..n], audience, news) + (if Concerns(audience, subs[n]) then [Say(news, subs[n].handle)] else [])
  }

  // ---------------------------------------------------------------- one step

  function StepSubscribe(m: Machine, s: Subscriber): (Machine, seq<Output>) {
    var joined := m.(subs := Add(m.subs, s));
    match m.state
    case Released => (joined.(state := Pending), [RequestConn(m.agpsType)])
    case Pending => (joined, [])
    case Acquired => (joined, [OpenStatus(s.handle, true)])
    case Releasing => (joined, [])
  }

  /** A subscriber that waits for the close stays listed, inactive; any other is told and removed. */
  function Withdraw(subs: seq<Subscriber>, s: Subscriber): (seq<Subscriber>, seq<Output>) {
    if s.waitForClose then (MarkInactive(subs, s.handle), [])
    else (Remove(subs, s.handle), [CloseStatus(s.handle)])
  }

  function StepUnsubscribe(m: Machine, s: Subscriber): (Machine, seq<Output>) {
    var (subs, told) := Withdraw(m.subs, s);
    match m.state
    case Released => (m, [CloseStatus(s.handle)])
    case Pending | Acquired =>
      if subs == [] then (m.(state := Released, subs := subs), told + [ReleaseConn(m.agpsType)])
      else if !AnyActive(subs) then (m.(state := Releasing, subs := subs), told + [ReleaseConn(m.agpsType)])
      else (m.(subs := subs), told)
    case Releasing =>
      (m.(state := if subs == [] then Released else Releasing, subs := subs), told)
  }

  function StepGranted(m: Machine): (Machine, seq<Output>) {
    if m.state.Pending? then (m.(state := Acquired), Tell(m.subs, ActiveOnly, Opened)) else (m, [])
  }

  /** A finished release: the inactive are told, and waiting active ones get a new request. */
  function FinishRelease(m: Machine): (Machine, seq<Output>) {
    var subs := Keep(m.subs, InactiveOnly);
    var told := Tell(m.subs, InactiveOnly, Closed);
    if AnyActive(subs) then (m.(state := Pending, subs := subs), told + [RequestConn(m.agpsType)])
    else (m.(state := Released, subs := subs), told)
  }

  function StepReleased(m: Machine): (Machine, seq<Output>) {
    match m.state
    case Released | Pending => (m, [])
    case Acquired => (m.(state := Released, subs := Keep(m.subs, Everyone)), Tell(m.subs, Everyone, Closed))
    case Releasing => FinishRelease(m)
  }

  function StepDenied(m: Machine): (Machine, seq<Output>) {
    match m.state
    case Released | Acquired => (m, [])
    case Pending => (m.(state := Released, subs := Keep(m.subs, Everyone)), Tell(m.subs, Everyone, Refused))
    case Releasing => FinishRelease(m)
  }

  /** New subscribers start active. An unsubscribe reaches the machine only for a listed handle. */
  function Step(m: Machine, e: Event): (Machine, seq<Output>) {
    match e
    case Subscribe(h, wait) => StepSubscribe(m, Subscriber(h, wait, false))
    case Unsubscribe(h) =>
      var k := Find(m.subs, h);
      if k < |m.subs| then StepUnsubscribe(m, m.subs[k]) else (m, [])
    case Granted => StepGranted(m)
    case ConnReleased => StepReleased(m)
    case Denied => StepDenied(m)
    case ModemRestart => (m.(subs := []), [])
  }

  // ---------------------------------------------------------------- the ledger of a run

  function Requests(outs: seq<Output>): nat {
    if outs == [] then 0 else Requests(outs[..|outs|-1]) + if outs[|outs|-1].RequestConn? then 1 else 0
  }

  function Releases(outs: seq<Output>): nat {
    if outs == [] then 0 else Releases(outs[..|outs|-1]) + if outs[|outs|-1].ReleaseConn? then 1 else 0
  }

  /** Does this output tell the handle that its connection is over: a close or a failed open? */
  predicate EndsFor(o: Output, handle: int) {
    match o
    case CloseStatus(h) => h == handle
    case OpenStatus(h, success) => h == handle && !success
    case RequestConn(_) => false
    case ReleaseConn(_) => false
  }

  function ToldOver(outs: seq<Output>, handle: int): nat {
    if outs == [] then 0
    else ToldOver(outs[..|outs|-1], handle) + if EndsFor(outs[|outs|-1], handle) then 1 else 0
  }

  /** What an onlooker who watches one handle has counted since the machine was created. `granted`
      says that the handle was sent an open-success since it was last admitted. */
  datatype Ledger = Ledger(
    m: Machine, requests: nat, releases: nat, denials: nat, forcedReleases: nat,
    admitted: nat, told: nat, dropped: nat, granted: bool)

  predicate Admits(m: Machine, e: Event, handle: int) {
    e.Subscribe? && e.handle == handle && !IsListed(m.subs, handle)
  }

  function Observe(watched: int, l: Ledger, e: Event): Ledger {
    var (m', outs) := Step(l.m, e);
    Ledger(
      m',
      l.requests + Requests(outs),
      l.releases + Releases(outs),
      l.denials + (if e.Denied? && l.m.state.Pending? then 1 else 0),
      l.forcedReleases + (if e.ConnReleased? && l.m.state.Acquired? then 1 else 0),
      l.admitted + (if Admits(l.m, e, watched) then 1 else 0),
      l.told + ToldOver(outs, watched),
      l.dropped + (if e.ModemRestart? then Count(l.m.subs, watched) else 0),
      (l.granted && !Admits(l.m, e, watched)) || OpenStatus(watched, true) in outs)
  }

  function Fresh(agpsType: int): Ledger {
    Ledger(Machine(Released, [], agpsType), 0, 0, 0, 0, 0, 0, 0, false)
  }

  function Run(watched: int, agpsType: int, events: seq<Event>): Ledger {
    if events == [] then Fresh(agpsType)
    else Observe(watched, Run(watched, agpsType, events[..|events|-1]), events[|events|-1])
  }

  // ---------------------------------------------------------------- what every run keeps

  /** The framework has been asked for exactly one connection more than it got back while a
      connection is wanted, and exactly as many otherwise. */
  ghost predicate Accounted(l: Ledger) {
    l.requests - l.releases - l.denials - l.forcedReleases ==
    if l.m.state.Pending? || l.m.state.Acquired? then 1 else 0
  }

  ghost predicate EmptyWhenReleased(m: Machine) {
    m.state.Released? ==> m.subs == []
  }

  /** Every admission of the watched handle is still listed, or was told its end, or was dropped. */
  ghost predicate Conserved(watched: int, l: Ledger) {
    && l.admitted == Count(l.m.subs, watched) + l.told + l.dropped
    && Count(l.m.subs, watched) <= 1
  }

  ghost predicate ActiveWasOpened(watched: int, l: Ledger) {
    l.m.state.Acquired? ==>
      forall s :: s in l.m.subs && s.handle == watched && !s.inactive ==> l.granted
  }

  /** While no modem restart happens, each state has the subscriber that explains it. */
  ghost predicate Motivated(m: Machine) {
    && (m.state.Pending? || m.state.Acquired? ==> AnyActive(m.subs))
    && (m.state.Releasing? ==> AnyInactive(m.subs))
    && (forall s :: s in m.subs && s.inactive ==> s.waitForClose)
  }

  // ---------------------------------------------------------------- list lemmas

  lemma {:induction false} CountListed(subs: seq<Subscriber>, handle: int)
    ensures Count(subs, handle) > 0 <==> IsListed(subs, handle)
  {
    if subs != [] {
      var n := |subs| - 1;
      CountListed(subs[..n], handle);
      assert forall i :: 0 <= i < n ==> subs[..n][i] == subs[i];
      assert subs[n].handle == handle ==> IsListed(subs, handle);
    }
  }

  lemma CountOfSnoc(subs: seq<Subscriber>, s: Subscriber, handle: int)
    ensures Count(subs + [s], handle) == Count(subs, handle) + if s.handle == handle then 1 else 0
  {
    assert (subs + [s])[..|subs|] == subs;
  }

  lemma {:induction false} CountOfUpdate(subs: seq<Subscriber>, k: nat, s: Subscriber, handle: int)
    requires k < |subs| && s.handle == subs[k].handle
    ensures Count(subs[k := s], handle) == Count(subs, handle)
  {
    var n := |subs| - 1;
    if k < n {
      CountOfUpdate(subs[..n], k, s, handle);
      assert subs[k := s][..n] == subs[..n][k := s];
    } else {
      assert subs[k := s][..n] == subs[..n];
    }
  }

  lemma {:induction false} CountOfRemove(subs: seq<Subscriber>, gone: int, handle: int)
    ensures Count(Remove(subs, gone), handle) == if gone == handle then 0 else Count(subs, handle)
  {
    if subs != [] {
      var n := |subs| - 1;
      CountOfRemove(subs[..n], gone, handle);
      if subs[n].handle == gone {
        assert Remove(subs, gone) == Remove(subs[..n], gone);
      } else {
        CountOfSnoc(Remove(subs[..n], gone), subs[n], handle);
      }
    }
  }

  lemma {:induction false} RemoveMembers(subs: seq<Subscriber>, gone: int)
    ensures forall s :: s in Remove(subs, gone) <==> s in subs && s.handle != gone
  {
    if subs != [] {
      var n := |subs| - 1;
      RemoveMembers(subs[..n], gone);
      assert subs == subs[..n] + [subs[n]];
    }
  }

  lemma {:induction false} KeepMembers(subs: seq<Subscriber>, audience: Audience)
    ensures forall s :: s in Keep(subs, audience) <==> s in subs && !Concerns(audience, s)
  {
    if subs != [] {
      var n := |subs| - 1;
      KeepMembers(subs[..n], audience);
      assert subs == subs[..n] + [subs[n]];
    }
  }

  lemma TallyOfSnoc(outs: seq<Output>, o: Output, handle: int)
    ensures ToldOver(outs + [o], handle) == ToldOver(outs, handle) + if EndsFor(o, handle) then 1 else 0
    ensures Requests(outs + [o]) == Requests(outs) + if o.RequestConn? then 1 else 0
    ensures Releases(outs + [o]) == Releases(outs) + if o.ReleaseConn? then 1 else 0
  {
    assert (outs + [o])[..|outs|] == outs;
  }

  /** A notification that deletes tells exactly the subscribers it removes, once each. */
  lemma {:induction false} ToldAreRemoved(subs: seq<Subscriber>, audience: Audience, news: News, handle: int)
    requires !news.Opened?
    ensures Count(Keep(subs, audience), handle) + ToldOver(Tell(subs, audience, news), handle) == Count(subs, handle)
  {
    if subs != [] {
      var n := |subs| - 1;
      ToldAreRemoved(subs[..n], audience, news, handle);
      if Concerns(audience, subs[n]) {
        assert Keep(subs, audience) == Keep(subs[..n], audience);
        TallyOfSnoc(Tell(subs[..n], audience, news), Say(news, subs[n].handle), handle);
      } else {
        assert Tell(subs, audience, news) == Tell(subs[..n], audience, news);
        CountOfSnoc(Keep(subs[..n], audience), subs[n], handle);
      }
    }
  }

  /** Notifications never speak to the framework, and an open-success ends no connection. */
  lemma {:induction false} TellCounts(subs: seq<Subscriber>, audience: Audience, news: News, handle: int)
    ensures Requests(Tell(subs, audience, news)) == 0
    ensures Releases(Tell(subs, audience, news)) == 0
    ensures news.Opened? ==> ToldOver(Tell(subs, audience, news), handle) == 0
  {
    if subs != [] {
      var n := |subs| - 1;
      TellCounts(subs[..n], audience, news, handle);
      if Concerns(audience, subs[n]) {
        TallyOfSnoc(Tell(subs[..n], audience, news), Say(news, subs[n].handle), handle);
      } else {
        assert Tell(subs, audience, news) == Tell(subs[..n], audience, news);
      }
    }
  }

  /** Exactly those concerned hear the news. */
  lemma {:induction false} TellReaches(subs: seq<Subscriber>, audience: Audience, news: News, handle: int)
    ensures Say(news, handle) in Tell(subs, audience, news) <==>
            exists s :: s in subs && Concerns(audience, s) && s.handle == handle
  {
    if subs != [] {
      var n := |subs| - 1;
      TellReaches(subs[..n], audience, news, handle);
      assert subs == subs[..n] + [subs[n]];
      assert subs[n] in subs;
    }
  }
}
