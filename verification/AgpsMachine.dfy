/** The AGPS state machine and manager in their own form: fields updated in place, a subscriber list
    that is searched, pushed to and erased from by loops. Each method is proved to do exactly the
    step of AgpsProtocol. `outputs` records the callbacks made to the framework and the modem.
 */
module AgpsMachine {
  import opened AgpsProtocol
  import opened AgpsLoop

  function Left(deleteNotified: bool, subs: seq<Subscriber>, audience: Audience): seq<Subscriber> {
    if deleteNotified then Keep(subs, audience) else subs
  }

  /** What a notification loop still has to do from position `i` on. */
  function NotifyFrom(subs: seq<Subscriber>, i: nat, outs: seq<Output>, deleteNotified: bool, audience: Audience,
                      news: News): (seq<Subscriber>, seq<Output>)
    requires i <= |subs|
    decreases |subs| - i
  {
    if i == |subs| then (subs, outs)
    else
      var outs' := if Concerns(audience, subs[i]) then outs + [Say(news, subs[i].handle)] else outs;
      if Concerns(audience, subs[i]) && deleteNotified
      then NotifyFrom(subs[..i] + subs[i + 1..], i, outs', deleteNotified, audience, news)
      else NotifyFrom(subs, i + 1, outs', deleteNotified, audience, news)
  }

  /** What a deletion loop still has to do from position `i` on. */
  function DeleteFrom(subs: seq<Subscriber>, i: nat, handle: int): seq<Subscriber>
    requires i <= |subs|
    decreases |subs| - i
  {
    if i == |subs| then subs
    else if subs[i].handle == handle then DeleteFrom(subs[..i] + subs[i + 1..], i, handle)
    else DeleteFrom(subs, i + 1, handle)
  }

  /** Erasing the element behind a prefix, or passing over it. */
  lemma EraseAt<T>(kept: seq<T>, rest: seq<T>)
    requires rest != []
    ensures (kept + rest)[|kept|] == rest[0]
    ensures (kept + rest)[..|kept|] + (kept + rest)[|kept| + 1..] == kept + rest[1..]
    ensures kept + rest == (kept + [rest[0]]) + rest[1..]
  {
  }

  lemma TakeOne(was: seq<Subscriber>, n: nat, deleteNotified: bool, audience: Audience, news: News)
    requires n < |was|
    ensures Left(deleteNotified, was[..n + 1], audience) ==
            Left(deleteNotified, was[..n], audience) +
            (if deleteNotified && Concerns(audience, was[n]) then [] else [was[n]])
    ensures Tell(was[..n + 1], audience, news) ==
            Tell(was[..n], audience, news) + (if Concerns(audience, was[n]) then [Say(news, was[n].handle)] else [])
    ensures was[n..][0] == was[n] && was[n..][1..] == was[n + 1..]
  {
    assert was[..n + 1][..n] == was[..n];
  }

  lemma Associates<T>(a: seq<T>, b: seq<T>, c: seq<T>)
    ensures a + (b + c) == (a + b) + c && a + [] == a
  {
  }

  lemma {:induction false} NotifyFromTells(was: seq<Subscriber>, n: nat, outs: seq<Output>, deleteNotified: bool,
                                           audience: Audience, news: News)
    requires n <= |was|
    ensures var kept := Left(deleteNotified, was[..n], audience);
            NotifyFrom(kept + was[n..], |kept|, outs + Tell(was[..n], audience, news), deleteNotified, audience, news)
            == (Left(deleteNotified, was, audience), outs + Tell(was, audience, news))
    decreases |was| - n
  {
    var kept := Left(deleteNotified, was[..n], audience);
    if n < |was| {
      TakeOne(was, n, deleteNotified, audience, news);
      EraseAt(kept, was[n..]);
      Associates(outs, Tell(was[..n], audience, news), [Say(news, was[n].handle)]);
      Associates(kept, [], []);
      Associates(Tell(was[..n], audience, news), [], []);
      NotifyFromTells(was, n + 1, outs, deleteNotified, audience, news);
    } else {
      assert was[..n] == was && was[n..] == [];
      assert kept + was[n..] == kept;
    }
  }

  lemma {:induction false} DeleteFromRemoves(was: seq<Subscriber>, n: nat, handle: int)
    requires n <= |was|
    ensures DeleteFrom(Remove(was[..n], handle) + was[n..], |Remove(was[..n], handle)|, handle) == Remove(was, handle)
    decreases |was| - n
  {
    var kept := Remove(was[..n], handle);
    if n < |was| {
      assert was[..n + 1][..n] == was[..n];
      EraseAt(kept, was[n..]);
      Associates(kept, [], []);
      DeleteFromRemoves(was, n + 1, handle);
    } else {
      assert was[..n] == was && was[n..] == [];
      assert kept + was[n..] == kept;
    }
  }

  class AgpsStateMachine {
    var state: State
    var subscribers: seq<Subscriber>
    var agpsType: int
    var outputs: seq<Output>

    function Value(): Machine
      reads this
    {
      Machine(state, subscribers, agpsType)
    }

    constructor (agpsType: int)
      ensures Value() == Machine(Released, [], agpsType) && outputs == []
    {
      this.state, this.subscribers, this.agpsType, this.outputs := Released, [], agpsType, [];
    }

    /** The new state and the new outputs are those of one step. */
    twostate predicate Did(step: (Machine, seq<Output>))
      reads this
    {
      Value() == step.0 && outputs == old(outputs) + step.1
    }

    method GetSubscriber(handle: int) returns (k: nat)
      ensures k == Find(subscribers, handle)
    {
      k := 0;
      while k < |subscribers| && subscribers[k].handle != handle
        invariant k <= |subscribers|
        invariant Find(subscribers, handle) == k + Find(subscribers[k..], handle)
      {
        assert subscribers[k..][1..] == subscribers[k + 1..];
        k := k + 1;
      }
    }

    method AnyActiveSubscribers() returns (any: bool)
      ensures any == AnyActive(subscribers)
    {
      for i := 0 to |subscribers|
        invariant forall j :: 0 <= j < i ==> subscribers[j].inactive
      {
        if !subscribers[i].inactive {
          return true;
        }
      }
      return false;
    }

    method AddSubscriber(s: Subscriber)
      modifies this`subscribers
      ensures subscribers == Add(old(subscribers), s)
    {
      for i := 0 to |subscribers|
        invariant forall j :: 0 <= j < i ==> subscribers[j].handle != s.handle
        invariant subscribers == old(subscribers)
      {
        if subscribers[i].handle == s.handle {
          return;
        }
      }
      subscribers := subscribers + [s];
    }

    method DeleteSubscriber(handle: int)
      modifies this`subscribers
      ensures subscribers == Remove(old(subscribers), handle)
    {
      ghost var goal := DeleteFrom(subscribers, 0, handle);
      var i := 0;
      while i < |subscribers|
        invariant i <= |subscribers| && DeleteFrom(subscribers, i, handle) == goal
        decreases |subscribers| - i
      {
        if subscribers[i].handle == handle {
          subscribers := subscribers[..i] + subscribers[i + 1..];
        } else {
          i := i + 1;
        }
      }
      DeleteFromRemoves(old(subscribers), 0, handle);
      assert [] + old(subscribers)[0..] == old(subscribers);
    }

    method NotifyEventToSubscriber(news: News, handle: int, deleteSubscriber: bool)
      modifies this`subscribers, this`outputs
      ensures outputs == old(outputs) + [Say(news, handle)]
      ensures subscribers == if deleteSubscriber then Remove(old(subscribers), handle) else old(subscribers)
    {
      outputs := outputs + [Say(news, handle)];
      if deleteSubscriber {
        DeleteSubscriber(handle);
      }
    }

    method NotifyAllSubscribers(news: News, deleteNotified: bool, audience: Audience)
      modifies this`subscribers, this`outputs
      ensures outputs == old(outputs) + Tell(old(subscribers), audience, news)
      ensures subscribers == Left(deleteNotified, old(subscribers), audience)
    {
      ghost var goal := NotifyFrom(subscribers, 0, outputs, deleteNotified, audience, news);
      var i := 0;
      while i < |subscribers|
        invariant i <= |subscribers|
        invariant NotifyFrom(subscribers, i, outputs, deleteNotified, audience, news) == goal
        decreases |subscribers| - i
      {
        var s := subscribers[i];
        if Concerns(audience, s) {
          NotifyEventToSubscriber(news, s.handle, false);
        }
        if Concerns(audience, s) && deleteNotified {
          subscribers := subscribers[..i] + subscribers[i + 1..];
        } else {
          i := i + 1;
        }
      }
      NotifyFromTells(old(subscribers), 0, old(outputs), deleteNotified, audience, news);
      assert [] + old(subscribers)[0..] == old(subscribers) && old(outputs) + [] == old(outputs);
    }

    method RequestOrReleaseDataConn(request: bool)
      modifies this`outputs
      ensures outputs == old(outputs) + [if request then RequestConn(agpsType) else ReleaseConn(agpsType)]
    {
      outputs := outputs + [if request then RequestConn(agpsType) else ReleaseConn(agpsType)];
    }

    method ProcessSubscribe(current: Subscriber)
      modifies this
      ensures Did(StepSubscribe(old(Value()), current))
    {
      match state
      case Released =>
        AddSubscriber(current);
        RequestOrReleaseDataConn(true);
        state := Pending;
      case Pending =>
        AddSubscriber(current);
      case Acquired =>
        NotifyEventToSubscriber(Opened, current.handle, false);
        AddSubscriber(current);
      case Releasing =>
        AddSubscriber(current);
    }

    method Leave(current: Subscriber)
      modifies this`subscribers, this`outputs
      ensures subscribers == Withdraw(old(subscribers), current).0
      ensures outputs == old(outputs) + Withdraw(old(subscribers), current).1
    {
      if current.waitForClose {
        var k := GetSubscriber(current.handle);
        if k < |subscribers| {
          subscribers := subscribers[k := subscribers[k].(inactive := true)];
        }
      } else {
        NotifyEventToSubscriber(Closed, current.handle, true);
      }
    }

    method ProcessUnsubscribe(current: Subscriber)
      modifies this
      ensures Did(StepUnsubscribe(old(Value()), current))
    {
      match state
      case Released =>
        NotifyEventToSubscriber(Closed, current.handle, false);
      case Pending | Acquired =>
        Leave(current);
        if subscribers == [] {
          state := Released;
          RequestOrReleaseDataConn(false);
        } else {
          var active := AnyActiveSubscribers();
          if !active {
            state := Releasing;
            RequestOrReleaseDataConn(false);
          }
        }
      case Releasing =>
        Leave(current);
        if subscribers == [] {
          state := Released;
        }
    }

    method ProcessGranted()
      modifies this
      ensures Did(StepGranted(old(Value())))
    {
      if state.Pending? {
        state := Acquired;
        NotifyAllSubscribers(Opened, false, ActiveOnly);
      }
    }

    method CompleteRelease()
      requires state.Releasing?
      modifies this
      ensures Did(FinishRelease(old(Value())))
    {
      Associates(outputs, Tell(subscribers, InactiveOnly, Closed), [RequestConn(agpsType)]);
      NotifyAllSubscribers(Closed, true, InactiveOnly);
      var active := AnyActiveSubscribers();
      if active {
        state := Pending;
        RequestOrReleaseDataConn(true);
      } else {
        state := Released;
      }
    }

    method ProcessReleased()
      modifies this
      ensures Did(StepReleased(old(Value())))
    {
      match state
      case Released =>
      case Acquired =>
        state := Released;
        NotifyAllSubscribers(Closed, true, Everyone);
      case Releasing =>
        CompleteRelease();
      case Pending =>
    }

    method ProcessDenied()
      modifies this
      ensures Did(StepDenied(old(Value())))
    {
      match state
      case Released =>
      case Acquired =>
      case Releasing =>
        CompleteRelease();
      case Pending =>
        state := Released;
        NotifyAllSubscribers(Refused, true, Everyone);
    }

    method DropAllSubscribers()
      modifies this`subscribers
      ensures subscribers == []
    {
      while 0 < |subscribers|
        decreases |subscribers|
      {
        subscribers := subscribers[1..];
      }
    }
  }

  /** The manager owns up to two machines; the native configuration creates only the internet one. */
  class AgpsManager {
    const agnss: AgpsStateMachine?
    const internet: AgpsStateMachine?
    const emergencyPdn: bool
    var refusals: seq<Output>

    constructor (agnss: AgpsStateMachine?, internet: AgpsStateMachine?, emergencyPdn: bool)
      ensures this.agnss == agnss && this.internet == internet && this.emergencyPdn == emergencyPdn
      ensures refusals == []
    {
      this.agnss, this.internet, this.emergencyPdn, this.refusals := agnss, internet, emergencyPdn, [];
    }

    /** The type actually used: emergency requests fall back to plain SUPL when so configured. */
    function Effective(agpsType: int): int {
      if agpsType == TYPE_SUPL_ES && !emergencyPdn then TYPE_SUPL else agpsType
    }

    function MachineFor(agpsType: int): AgpsStateMachine? {
      if IsRefused(agpsType) then agnss else internet
    }

    method RequestATL(handle: int, agpsType: int)
      modifies this, agnss, internet
      ensures var sm := MachineFor(Effective(agpsType));
              if sm == null then refusals == old(refusals) + [OpenStatus(handle, false)]
              else
                && refusals == old(refusals)
                && sm.Value() == Step(old(sm.Value()).(agpsType := Effective(agpsType)), Subscribe(handle, true)).0
                && sm.outputs == old(sm.outputs) +
                     Step(old(sm.Value()).(agpsType := Effective(agpsType)), Subscribe(handle, true)).1
      ensures agnss != null && agnss != MachineFor(Effective(agpsType)) ==> unchanged(agnss)
      ensures internet != null && internet != MachineFor(Effective(agpsType)) ==> unchanged(internet)
    {
      var effective := Effective(agpsType);
      var sm := MachineFor(effective);
      if sm == null {
        refusals := refusals + [OpenStatus(handle, false)];
        return;
      }
      sm.agpsType := effective;
      sm.ProcessSubscribe(Subscriber(handle, true, false));
    }

    /** A release reaches the first machine that lists the handle, the AGNSS one before the internet
        one, and no machine at all when neither does. */
    method ReleaseATL(handle: int)
      modifies this, agnss, internet
      ensures agnss != null && old(IsListed(agnss.subscribers, handle)) ==>
                && agnss.Value() == Step(old(agnss.Value()), Unsubscribe(handle)).0
                && agnss.outputs == old(agnss.outputs) + Step(old(agnss.Value()), Unsubscribe(handle)).1
                && (internet != null && internet != agnss ==> unchanged(internet))
      ensures agnss != null && old(!IsListed(agnss.subscribers, handle)) && agnss != internet ==> unchanged(agnss)
      ensures (agnss == null || old(!IsListed(agnss.subscribers, handle))) && internet != null ==>
                && internet.Value() == Step(old(internet.Value()), Unsubscribe(handle)).0
                && internet.outputs == old(internet.outputs) + Step(old(internet.Value()), Unsubscribe(handle)).1
    {
      if agnss != null {
        var k := agnss.GetSubscriber(handle);
        if k < |agnss.subscribers| {
          agnss.ProcessUnsubscribe(agnss.subscribers[k]);
          return;
        }
      }
      if internet != null {
        var k := internet.GetSubscriber(handle);
        if k < |internet.subscribers| {
          internet.ProcessUnsubscribe(internet.subscribers[k]);
        }
      }
    }

    /** The native configuration is the one of AgpsLoop: a request does there what it does here. */
    lemma NativeRouting(handle: int, agpsType: int)
      requires agnss == null
      ensures IsRefused(agpsType) ==> MachineFor(Effective(agpsType)) == null
      ensures !IsRefused(agpsType) ==> MachineFor(Effective(agpsType)) == internet && Effective(agpsType) == agpsType
    {
    }
  }
}
