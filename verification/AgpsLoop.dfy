/** The AGPS machine closed by the native handler: each of its messages is answered by a command on
    the adapter's own queue.
 */
module AgpsLoop {
  import opened AgpsProtocol
  import opened AgpsRuns

  const TYPE_INVALID := -1
  const TYPE_SUPL := 1
  const TYPE_WWAN_ANY := 3
  const TYPE_SUPL_ES := 5
  const MAX_APN_LEN := 100

  /** Commands queued by the native handler and by the WDS lookup, oldest first. */
  datatype Reply = OpenOk | PdnReported | OpenFailed | ConnClosed

  /** `lookups` counts the WDS queries of a PDN type that have not been answered yet. */
  datatype Loop = Loop(m: Machine, queue: seq<Reply>, lookups: nat, connected: bool, apn: string)

  datatype Command =
    | RequestAtl(handle: int, agpsType: int)
    | ReleaseAtl(handle: int)
    | NetworkChanged(connected: bool, apn: string)
    | ProcessReply
    | FinishLookup
    | RestartModem

  /** The handler creates only the internet machine, so these types find no machine at all. */
  predicate IsRefused(agpsType: int) {
    agpsType == TYPE_INVALID || agpsType == TYPE_SUPL || agpsType == TYPE_SUPL_ES
  }

  /** An APN is handed over as a C string together with its length. */
  predicate ApnAccepted(apn: string) {
    |apn| <= MAX_APN_LEN && '\0' !in apn
  }

  /** Does the handler queue an answer to a request for this type right now? A refused APN makes the
      adapter report a closed connection at once, inside the request, where the machine ignores it. */
  predicate AnswersRequest(c: Loop, agpsType: int) {
    agpsType == TYPE_WWAN_ANY && (c.connected ==> ApnAccepted(c.apn))
  }

  predicate AnswersRelease(agpsType: int) {
    agpsType == TYPE_WWAN_ANY
  }

  function Answer(c: Loop, o: Output): seq<Reply> {
    match o
    case RequestConn(t) =>
      if !AnswersRequest(c, t) then [] else if c.connected then [OpenOk] else [OpenFailed]
    case ReleaseConn(t) => if AnswersRelease(t) then [ConnClosed] else []
    case OpenStatus(_, _) => []
    case CloseStatus(_) => []
  }

  function Answers(c: Loop, outs: seq<Output>): seq<Reply> {
    if outs == [] then [] else Answers(c, outs[..|outs|-1]) + Answer(c, outs[|outs|-1])
  }

  function Feed(c: Loop, e: Event): Loop {
    var (m', outs) := Step(c.m, e);
    c.(m := m', queue := c.queue + Answers(c, outs))
  }

  /** The machine event that a queued command causes; looking up the PDN type first causes none. */
  function EventOf(r: Reply): Event {
    match r
    case OpenOk => Granted
    case PdnReported => Granted
    case OpenFailed => Denied
    case ConnClosed => ConnReleased
  }

  /** One message. `wds` says whether the modem's WDS library is there to be asked for a PDN type. */
  function Advance(wds: bool, c: Loop, cmd: Command): Loop {
    match cmd
    case RequestAtl(h, t) =>
      if IsRefused(t) then c else Feed(c.(m := c.m.(agpsType := t)), Subscribe(h, true))
    case ReleaseAtl(h) => Feed(c, Unsubscribe(h))
    case NetworkChanged(connected, apn) => c.(connected := connected, apn := apn)
    case ProcessReply =>
      if c.queue == [] then c
      else
        var rest := c.(queue := c.queue[1..]);
        if c.queue[0].OpenOk? && wds then rest.(lookups := c.lookups + 1)
        else Feed(rest, EventOf(c.queue[0]))
    case FinishLookup =>
      if c.lookups == 0 then c else c.(lookups := c.lookups - 1, queue := c.queue + [PdnReported])
    case RestartModem => Feed(c, ModemRestart)
  }

  function Start(connected: bool, apn: string): Loop {
    Loop(Machine(Released, [], TYPE_WWAN_ANY), [], 0, connected, apn)
  }

  function Play(wds: bool, c: Loop, cmds: seq<Command>): Loop {
    if cmds == [] then c else Advance(wds, Play(wds, c, cmds[..|cmds|-1]), cmds[|cmds|-1])
  }

  /** What the network was last said to be. */
  function LastNetwork(connected: bool, apn: string, cmds: seq<Command>): (bool, string) {
    if cmds == [] then (connected, apn)
    else if cmds[|cmds|-1].NetworkChanged? then (cmds[|cmds|-1].connected, cmds[|cmds|-1].apn)
    else LastNetwork(connected, apn, cmds[..|cmds|-1])
  }

  /** Over every run the handler answers for the network that was last announced, and the machine asks for the type
      that was last requested. */
  lemma {:induction false} NetworkIsTheLast(wds: bool, connected: bool, apn: string, cmds: seq<Command>)
    ensures var c := Play(wds, Start(connected, apn), cmds);
            && (c.connected, c.apn) == LastNetwork(connected, apn, cmds)
            && c.m.agpsType == LastType(cmds)
  {
    if cmds != [] {
      var before := cmds[..|cmds|-1];
      NetworkIsTheLast(wds, connected, apn, before);
      AdvanceKeepsNetwork(wds, Play(wds, Start(connected, apn), before), cmds[|cmds|-1]);
    }
  }

  lemma StepKeepsType(m: Machine, e: Event)
    ensures Step(m, e).0.agpsType == m.agpsType
  {
  }

  lemma AdvanceKeepsNetwork(wds: bool, c: Loop, cmd: Command)
    ensures var d := Advance(wds, c, cmd);
            && (d.connected, d.apn) == (if cmd.NetworkChanged? then (cmd.connected, cmd.apn) else (c.connected, c.apn))
            && d.m.agpsType == if cmd.RequestAtl? && !IsRefused(cmd.agpsType) then cmd.agpsType else c.m.agpsType
  {
    match cmd
    case RequestAtl(h, t) => StepKeepsType(c.m.(agpsType := t), Subscribe(h, true));
    case ReleaseAtl(h) => StepKeepsType(c.m, Unsubscribe(h));
    case NetworkChanged(_, _) =>
    case ProcessReply =>
      if c.queue != [] {
        StepKeepsType(c.m, EventOf(c.queue[0]));
      }
    case FinishLookup =>
    case RestartModem => StepKeepsType(c.m, ModemRestart);
  }

  function LastType(cmds: seq<Command>): int {
    if cmds == [] then TYPE_WWAN_ANY
    else
      var cmd := cmds[|cmds|-1];
      if cmd.RequestAtl? && !IsRefused(cmd.agpsType) then cmd.agpsType else LastType(cmds[..|cmds|-1])
  }

  // ---------------------------------------------------------------- replies in flight

  predicate OpenInFlight(c: Loop) {
    c.lookups > 0 || exists i :: 0 <= i < |c.queue| && !c.queue[i].ConnClosed?
  }

  predicate CloseInFlight(c: Loop) {
    ConnClosed in c.queue
  }

  /** A state that waits for the framework has its reply in flight. */
  predicate Live(c: Loop) {
    && (c.m.state.Pending? ==> OpenInFlight(c))
    && (c.m.state.Releasing? ==> CloseInFlight(c))
  }

  /** Does this event make the machine send a request, or a release, to the framework? */
  predicate SendsRequest(m: Machine, e: Event) {
    || (e.Subscribe? && m.state.Released?)
    || ((e.ConnReleased? || e.Denied?) && m.state.Releasing? && AnyActive(m.subs))
  }

  predicate SendsRelease(m: Machine, e: Event) {
    && e.Unsubscribe?
    && (m.state.Pending? || m.state.Acquired?)
    && IsListed(m.subs, e.handle)
    && !AnyActive(MarkInactive(m.subs, e.handle))
  }

  /** Every subscriber that comes through the adapter waits for the close. */
  ghost predicate Waiting(m: Machine) {
    && EmptyWhenReleased(m)
    && forall s :: s in m.subs ==> s.waitForClose
  }

  /** What the adapter is about to do with the machine: the configuration it acts on and the event. */
  function Prepared(wds: bool, c: Loop, cmd: Command): (Loop, seq<Event>) {
    match cmd
    case RequestAtl(h, t) =>
      if IsRefused(t) then (c, []) else (c.(m := c.m.(agpsType := t)), [Subscribe(h, true)])
    case ReleaseAtl(h) => (c, [Unsubscribe(h)])
    case ProcessReply =>
      if c.queue == [] then (c, [])
      else (c.(queue := c.queue[1..]), if c.queue[0].OpenOk? && wds then [] else [EventOf(c.queue[0])])
    case RestartModem => (c, [ModemRestart])
    case NetworkChanged(_, _) => (c, [])
    case FinishLookup => (c, [])
  }

  /** Known before the message is handled: whatever it sends to the framework will be answered, or a
      reply of the awaited kind is in flight already. */
  predicate WillBeAnswered(wds: bool, c: Loop, cmd: Command) {
    var (d, es) := Prepared(wds, c, cmd);
    es != [] ==>
      && (SendsRequest(d.m, es[0]) ==> AnswersRequest(d, d.m.agpsType) || OpenInFlight(d))
      && (SendsRelease(d.m, es[0]) ==> AnswersRelease(d.m.agpsType) || CloseInFlight(d))
  }

  // ---------------------------------------------------------------- what one event does

  lemma AnswersOfSnoc(c: Loop, outs: seq<Output>, o: Output)
    ensures Answers(c, outs + [o]) == Answers(c, outs) + Answer(c, o)
  {
    assert (outs + [o])[..|outs|] == outs;
  }

  lemma {:induction false} NewsIsNotAnswered(c: Loop, subs: seq<Subscriber>, audience: Audience, news: News)
    ensures Answers(c, Tell(subs, audience, news)) == []
  {
    if subs != [] {
      var n := |subs| - 1;
      NewsIsNotAnswered(c, subs[..n], audience, news);
      AnswersOfSnoc(c, Tell(subs[..n], audience, news), Say(news, subs[n].handle));
      assert Tell(subs[..n], audience, news) + [] == Tell(subs[..n], audience, news);
    }
  }

  lemma AnswersOfOne(c: Loop, o: Output)
    ensures Answers(c, [o]) == Answer(c, o)
  {
    AnswersOfSnoc(c, [], o);
    assert [] + [o] == [o];
  }

  lemma FinishReleaseAnswers(c: Loop)
    ensures Answers(c, FinishRelease(c.m).1) ==
            if AnyActive(c.m.subs) then Answer(c, RequestConn(c.m.agpsType)) else []
    ensures FinishRelease(c.m).0.state == if AnyActive(c.m.subs) then Pending else Released
  {
    var told := Tell(c.m.subs, InactiveOnly, Closed);
    NewsIsNotAnswered(c, c.m.subs, InactiveOnly, Closed);
    AnswersOfSnoc(c, told, RequestConn(c.m.agpsType));
    FinishReleaseEnds(c.m);
    if i :| 0 <= i < |c.m.subs| && !c.m.subs[i].inactive {
      assert c.m.subs[i] in FinishRelease(c.m).0.subs;
    }
  }

  lemma UnsubscribeAnswers(c: Loop, handle: int)
    requires Waiting(c.m) && IsListed(c.m.subs, handle)
    ensures var e := Unsubscribe(handle);
            && Answers(c, Step(c.m, e).1) ==
               (if SendsRelease(c.m, e) then Answer(c, ReleaseConn(c.m.agpsType)) else [])
            && Step(c.m, e).0.state == (if SendsRelease(c.m, e) then Releasing else c.m.state)
            && Waiting(Step(c.m, e).0)
  {
    var k := Find(c.m.subs, handle);
    var s := c.m.subs[k];
    assert s in c.m.subs;
    AnswersOfOne(c, ReleaseConn(c.m.agpsType));
    assert MarkInactive(c.m.subs, handle) != [];
    assert [] + [ReleaseConn(c.m.agpsType)] == [ReleaseConn(c.m.agpsType)];
  }

  lemma ReplyAnswers(c: Loop, e: Event)
    requires e.ConnReleased? || e.Denied?
    ensures Answers(c, Step(c.m, e).1) ==
            if c.m.state.Releasing? && AnyActive(c.m.subs) then Answer(c, RequestConn(c.m.agpsType)) else []
  {
    if c.m.state.Releasing? {
      FinishReleaseAnswers(c);
    } else {
      NewsIsNotAnswered(c, c.m.subs, Everyone, if e.Denied? then Refused else Closed);
    }
  }

  /** The replies that one event earns. */
  lemma EventAnswers(c: Loop, e: Event)
    requires Waiting(c.m) && (e.Subscribe? ==> e.waitForClose)
    ensures Answers(c, Step(c.m, e).1) ==
            if SendsRequest(c.m, e) then Answer(c, RequestConn(c.m.agpsType))
            else if SendsRelease(c.m, e) then Answer(c, ReleaseConn(c.m.agpsType)) else []
  {
    match e
    case Subscribe(h, wait) =>
      AnswersOfOne(c, RequestConn(c.m.agpsType));
      AnswersOfOne(c, OpenStatus(h, true));
    case Unsubscribe(h) =>
      if IsListed(c.m.subs, h) {
        UnsubscribeAnswers(c, h);
      }
    case Granted => NewsIsNotAnswered(c, c.m.subs, ActiveOnly, Opened);
    case ConnReleased => ReplyAnswers(c, e);
    case Denied => ReplyAnswers(c, e);
    case ModemRestart =>
  }

  lemma FinishReleaseIsWaiting(m: Machine)
    requires Waiting(m)
    ensures Waiting(FinishRelease(m).0)
  {
    FinishReleaseEnds(m);
  }

  lemma AddIsWaiting(subs: seq<Subscriber>, s: Subscriber)
    requires s.waitForClose && forall t :: t in subs ==> t.waitForClose
    ensures forall t :: t in Add(subs, s) ==> t.waitForClose
  {
  }

  lemma WaitingIsKept(m: Machine, e: Event)
    requires Waiting(m) && (e.Subscribe? ==> e.waitForClose)
    ensures Waiting(Step(m, e).0)
  {
    match e
    case Subscribe(h, wait) =>
      AddIsWaiting(m.subs, Subscriber(h, wait, false));
    case Unsubscribe(h) =>
      if IsListed(m.subs, h) {
        UnsubscribeAnswers(Loop(m, [], 0, false, ""), h);
      }
    case Granted =>
    case ModemRestart =>
    case ConnReleased | Denied =>
      if m.state.Releasing? {
        FinishReleaseIsWaiting(m);
      } else {
        NobodyIsKept(m.subs);
      }
  }

  /** The state that one event leads to. */
  lemma EventState(m: Machine, e: Event)
    requires Waiting(m)
    ensures Step(m, e).0.state ==
            if SendsRequest(m, e) then Pending
            else if SendsRelease(m, e) then Releasing
            else if e.Granted? && m.state.Pending? then Acquired
            else if e.ConnReleased? && (m.state.Acquired? || m.state.Releasing?) then Released
            else if e.Denied? && (m.state.Pending? || m.state.Releasing?) then Released
            else m.state
  {
    if m.state.Releasing? {
      FinishReleaseAnswers(Loop(m, [], 0, false, ""));
    }
    if e.Unsubscribe? && IsListed(m.subs, e.handle) {
      UnsubscribeAnswers(Loop(m, [], 0, false, ""), e.handle);
    }
  }

  // ---------------------------------------------------------------- liveness of the waiting states

  lemma QueueOnlyGrows(c: Loop, d: Loop)
    requires c.queue <= d.queue && c.lookups <= d.lookups
    ensures OpenInFlight(c) ==> OpenInFlight(d)
    ensures CloseInFlight(c) ==> CloseInFlight(d)
  {
    if i :| 0 <= i < |c.queue| && !c.queue[i].ConnClosed? {
      assert d.queue[i] == c.queue[i];
    }
  }

  lemma RequestStaysLive(d: Loop, e: Event)
    requires Waiting(d.m) && (e.Subscribe? ==> e.waitForClose) && SendsRequest(d.m, e)
    ensures Live(Feed(d, e)) <==> AnswersRequest(d, d.m.agpsType) || OpenInFlight(d)
  {
    EventAnswers(d, e);
    EventState(d.m, e);
    var f := Feed(d, e);
    QueueOnlyGrows(d, f);
    if AnswersRequest(d, d.m.agpsType) {
      assert !f.queue[|d.queue|].ConnClosed?;
    } else {
      assert f.queue == d.queue + [] == d.queue;
    }
  }

  lemma ReleaseStaysLive(d: Loop, e: Event)
    requires Waiting(d.m) && (e.Subscribe? ==> e.waitForClose) && SendsRelease(d.m, e)
    ensures Live(Feed(d, e)) <==> AnswersRelease(d.m.agpsType) || CloseInFlight(d)
  {
    EventAnswers(d, e);
    EventState(d.m, e);
    var f := Feed(d, e);
    QueueOnlyGrows(d, f);
    if AnswersRelease(d.m.agpsType) {
      assert f.queue[|d.queue|] == ConnClosed;
    } else {
      assert f.queue == d.queue + [] == d.queue;
    }
  }

  /** Feeding an event that is answered, or whose reply is in flight, keeps the loop live, provided
      that the reply the current state waits for is in flight or is this very event. */
  lemma FeedStaysLive(d: Loop, e: Event)
    requires Waiting(d.m) && (e.Subscribe? ==> e.waitForClose)
    requires d.m.state.Pending? ==> OpenInFlight(d) || e.Granted? || e.Denied?
    requires d.m.state.Releasing? ==> CloseInFlight(d) || e.ConnReleased?
    ensures Live(Feed(d, e)) <==>
            && (SendsRequest(d.m, e) ==> AnswersRequest(d, d.m.agpsType) || OpenInFlight(d))
            && (SendsRelease(d.m, e) ==> AnswersRelease(d.m.agpsType) || CloseInFlight(d))
  {
    if SendsRequest(d.m, e) {
      RequestStaysLive(d, e);
    } else if SendsRelease(d.m, e) {
      ReleaseStaysLive(d, e);
    } else {
      EventState(d.m, e);
      QueueOnlyGrows(d, Feed(d, e));
    }
  }

  /** What is left to wait for after the oldest reply is taken. */
  lemma TailInFlight(c: Loop)
    requires c.queue != []
    ensures var rest := c.(queue := c.queue[1..]);
            && (OpenInFlight(c) ==> OpenInFlight(rest) || !c.queue[0].ConnClosed?)
            && (CloseInFlight(c) ==> CloseInFlight(rest) || c.queue[0].ConnClosed?)
  {
    if i :| 0 <= i < |c.queue| && !c.queue[i].ConnClosed? {
      assert i > 0 ==> c.queue[1..][i - 1] == c.queue[i];
    }
  }

  /** Exactly when a message keeps every waiting state supplied with a reply. */
  lemma LiveExactlyWhenAnswered(wds: bool, c: Loop, cmd: Command)
    requires Live(c) && Waiting(c.m)
    ensures Live(Advance(wds, c, cmd)) <==> WillBeAnswered(wds, c, cmd)
    ensures Waiting(Advance(wds, c, cmd).m)
  {
    match cmd
    case RequestAtl(h, t) =>
      if !IsRefused(t) {
        var d := c.(m := c.m.(agpsType := t));
        FeedStaysLive(d, Subscribe(h, true));
        WaitingIsKept(d.m, Subscribe(h, true));
      }
    case ReleaseAtl(h) =>
      FeedStaysLive(c, Unsubscribe(h));
      WaitingIsKept(c.m, Unsubscribe(h));
    case NetworkChanged(_, _) =>
    case ProcessReply =>
      if c.queue != [] {
        var rest := c.(queue := c.queue[1..]);
        TailInFlight(c);
        if !(c.queue[0].OpenOk? && wds) {
          FeedStaysLive(rest, EventOf(c.queue[0]));
          WaitingIsKept(rest.m, EventOf(c.queue[0]));
        }
      }
    case FinishLookup =>
      var d := Advance(wds, c, cmd);
      if c.lookups > 0 {
        assert d.queue[|c.queue|] == PdnReported;
        assert CloseInFlight(c) ==> CloseInFlight(d);
      }
    case RestartModem =>
      FeedStaysLive(c, ModemRestart);
      WaitingIsKept(c.m, ModemRestart);
  }

  /** A message that can never leave the framework unanswered: requests only for the internet type
      (or for types no machine serves), and APNs the adapter accepts. */
  predicate Ordinary(cmd: Command) {
    && (cmd.RequestAtl? ==> cmd.agpsType == TYPE_WWAN_ANY || IsRefused(cmd.agpsType))
    && (cmd.NetworkChanged? ==> ApnAccepted(cmd.apn))
  }

  lemma FeedKeepsSettings(d: Loop, e: Event)
    ensures Feed(d, e).m.agpsType == d.m.agpsType
    ensures Feed(d, e).apn == d.apn
  {
  }

  lemma OrdinaryIsAnswered(wds: bool, c: Loop, cmd: Command)
    requires Ordinary(cmd) && c.m.agpsType == TYPE_WWAN_ANY && ApnAccepted(c.apn)
    ensures WillBeAnswered(wds, c, cmd)
    ensures Advance(wds, c, cmd).m.agpsType == TYPE_WWAN_ANY
    ensures ApnAccepted(Advance(wds, c, cmd).apn)
  {
    var (d, es) := Prepared(wds, c, cmd);
    if es != [] {
      FeedKeepsSettings(d, es[0]);
    }
  }

  /** Over every run of ordinary messages, in any interleaving with replies, WDS lookups, network
      changes and modem restarts, PENDING has an open reply in flight and RELEASING a closed one. */
  lemma {:induction false} NeverWedges(wds: bool, connected: bool, apn: string, cmds: seq<Command>)
    requires ApnAccepted(apn)
    requires forall i :: 0 <= i < |cmds| ==> Ordinary(cmds[i])
    ensures var c := Play(wds, Start(connected, apn), cmds);
            Live(c) && Waiting(c.m) && c.m.agpsType == TYPE_WWAN_ANY && ApnAccepted(c.apn)
  {
    if cmds != [] {
      var n := |cmds| - 1;
      NeverWedges(wds, connected, apn, cmds[..n]);
      OrdinaryIsAnswered(wds, Play(wds, Start(connected, apn), cmds[..n]), cmds[n]);
      LiveExactlyWhenAnswered(wds, Play(wds, Start(connected, apn), cmds[..n]), cmds[n]);
    }
  }

  // ---------------------------------------------------------------- draining

  /** With no new client command, these are the only messages left to handle. */
  predicate Drains(c: Loop, cmd: Command) {
    (cmd.ProcessReply? && c.queue != []) || (cmd.FinishLookup? && c.lookups > 0)
  }

  function Weight(wds: bool, r: Reply): nat {
    if wds && r.OpenOk? then 3 else 1
  }

  function QueueWeight(wds: bool, queue: seq<Reply>): nat {
    if queue == [] then 0 else Weight(wds, queue[0]) + QueueWeight(wds, queue[1..])
  }

  /** Without WDS lookups this is the queue length, plus one while a release is going on. */
  function Effort(wds: bool, c: Loop): nat {
    QueueWeight(wds, c.queue) + 2 * c.lookups + if c.m.state.Releasing? then (if wds then 3 else 1) else 0
  }

  lemma {:induction false} WeightOfSnoc(wds: bool, queue: seq<Reply>, r: Reply)
    ensures QueueWeight(wds, queue + [r]) == QueueWeight(wds, queue) + Weight(wds, r)
  {
    if queue != [] {
      WeightOfSnoc(wds, queue[1..], r);
      assert (queue + [r])[1..] == queue[1..] + [r];
    }
  }

  lemma {:induction false} WeightIsLength(queue: seq<Reply>)
    ensures QueueWeight(false, queue) == |queue|
  {
    if queue != [] {
      WeightIsLength(queue[1..]);
    }
  }

  /** What a reply adds to the effort: at most the one request that may follow a finished release. */
  lemma ReplyAdds(wds: bool, rest: Loop, r: Reply)
    requires Waiting(rest.m)
    ensures Effort(wds, Feed(rest, EventOf(r))) <= Effort(wds, rest)
    ensures Waiting(Feed(rest, EventOf(r)).m)
  {
    var e := EventOf(r);
    EventAnswers(rest, e);
    EventState(rest.m, e);
    WaitingIsKept(rest.m, e);
    var answer := Answer(rest, RequestConn(rest.m.agpsType));
    if answer != [] {
      WeightOfSnoc(wds, rest.queue, answer[0]);
    }
    assert rest.queue + [] == rest.queue;
  }

  /** Every drained message costs: a finished release may add one request, but only once. */
  lemma DrainingCosts(wds: bool, c: Loop, cmd: Command)
    requires Drains(c, cmd) && Waiting(c.m)
    ensures Effort(wds, Advance(wds, c, cmd)) < Effort(wds, c)
    ensures Waiting(Advance(wds, c, cmd).m)
  {
    if cmd.FinishLookup? {
      WeightOfSnoc(wds, c.queue, PdnReported);
    } else if !(c.queue[0].OpenOk? && wds) {
      ReplyAdds(wds, c.(queue := c.queue[1..]), c.queue[0]);
    }
  }

  /** Draining takes at most the effort, whatever the order of replies and lookups. */
  lemma {:induction false} DrainIsBounded(wds: bool, c: Loop, moves: seq<Command>)
    requires Waiting(c.m)
    requires forall i :: 0 <= i < |moves| ==> Drains(Play(wds, c, moves[..i]), moves[i])
    ensures |moves| + Effort(wds, Play(wds, c, moves)) <= Effort(wds, c)
    ensures Waiting(Play(wds, c, moves).m)
  {
    if moves != [] {
      var n := |moves| - 1;
      assert forall i :: 0 <= i < n ==> moves[..n][..i] == moves[..i];
      DrainIsBounded(wds, c, moves[..n]);
      DrainingCosts(wds, Play(wds, c, moves[..n]), moves[n]);
    }
  }

  /** Without WDS lookups a run of replies is at most one longer than the queue. */
  lemma DrainIsShort(c: Loop, moves: seq<Command>)
    requires Waiting(c.m) && c.lookups == 0
    requires forall i :: 0 <= i < |moves| ==> Drains(Play(false, c, moves[..i]), moves[i])
    ensures |moves| <= |c.queue| + 1
  {
    DrainIsBounded(false, c, moves);
    WeightIsLength(c.queue);
  }

  /** When nothing is left to drain, a live loop has settled. */
  lemma DrainedIsSettled(c: Loop)
    requires Live(c)
    requires !Drains(c, ProcessReply) && !Drains(c, FinishLookup)
    ensures c.m.state.Acquired? || c.m.state.Released?
  {
  }

  lemma PlayOfSnoc(wds: bool, c: Loop, cmds: seq<Command>, cmd: Command)
    ensures Play(wds, c, cmds + [cmd]) == Advance(wds, Play(wds, c, cmds), cmd)
  {
    assert (cmds + [cmd])[..|cmds|] == cmds;
  }

  lemma {:induction false} PlayGoesOn(wds: bool, c: Loop, first: seq<Command>, second: seq<Command>)
    ensures Play(wds, c, first + second) == Play(wds, Play(wds, c, first), second)
  {
    if second == [] {
      assert first + second == first;
    } else {
      var before, cmd := second[..|second|-1], second[|second|-1];
      PlayGoesOn(wds, c, first, before);
      PlayOfSnoc(wds, c, first + before, cmd);
      PlayOfSnoc(wds, Play(wds, c, first), before, cmd);
      assert second == before + [cmd] && first + second == (first + before) + [cmd];
    }
  }

  /** Handles replies and lookups in any order, one at a time, as long as there is one. */
  predicate IsDrain(wds: bool, c: Loop, moves: seq<Command>) {
    forall i :: 0 <= i < |moves| ==> Drains(Play(wds, c, moves[..i]), moves[i])
  }

  predicate IsDrained(c: Loop) {
    c.queue == [] && c.lookups == 0
  }

  /** After every run of ordinary messages, whatever is still under way drains: any order of replies and lookups
      stops within the effort, which without lookups is at most the queue length plus one, and where it stops
      with nothing left the connection is acquired or released. */
  lemma OrdinaryRunsSettle(wds: bool, connected: bool, apn: string, cmds: seq<Command>, moves: seq<Command>)
    requires ApnAccepted(apn)
    requires forall i :: 0 <= i < |cmds| ==> Ordinary(cmds[i])
    requires IsDrain(wds, Play(wds, Start(connected, apn), cmds), moves)
    ensures var c := Play(wds, Start(connected, apn), cmds);
            && |moves| <= Effort(wds, c)
            && (!wds && c.lookups == 0 ==> |moves| <= |c.queue| + 1)
            && var d := Play(wds, c, moves);
               IsDrained(d) ==> d.m.state.Acquired? || d.m.state.Released?
  {
    var c := Play(wds, Start(connected, apn), cmds);
    NeverWedges(wds, connected, apn, cmds);
    DrainIsBounded(wds, c, moves);
    WeightIsLength(c.queue);
    DrainsAreOrdinary(wds, c, moves);
    NeverWedges(wds, connected, apn, cmds + moves);
    PlayGoesOn(wds, Start(connected, apn), cmds, moves);
    if IsDrained(Play(wds, c, moves)) {
      DrainedIsSettled(Play(wds, c, moves));
    }
  }

  lemma DrainsAreOrdinary(wds: bool, c: Loop, moves: seq<Command>)
    requires IsDrain(wds, c, moves)
    ensures forall i :: 0 <= i < |moves| ==> Ordinary(moves[i])
  {
    forall i | 0 <= i < |moves| ensures Ordinary(moves[i]) {
      assert Drains(Play(wds, c, moves[..i]), moves[i]);
    }
  }

  /** A drain that is not finished can go on, so that every maximal one ends drained. */
  lemma UnfinishedDrainsGoOn(wds: bool, c: Loop, moves: seq<Command>)
    requires IsDrain(wds, c, moves) && !IsDrained(Play(wds, c, moves))
    ensures exists cmd :: IsDrain(wds, c, moves + [cmd])
  {
    var d := Play(wds, c, moves);
    var cmd := if d.queue != [] then ProcessReply else FinishLookup;
    var more := moves + [cmd];
    forall i | 0 <= i < |more| ensures Drains(Play(wds, c, more[..i]), more[i]) {
      if i < |moves| {
        assert more[..i] == moves[..i] && Drains(Play(wds, c, moves[..i]), moves[i]);
      } else {
        assert more[..i] == moves;
      }
    }
    assert IsDrain(wds, c, moves + [cmd]);
  }

  // ---------------------------------------------------------------- stale closes

  function Closes(queue: seq<Reply>): nat {
    if queue == [] then 0 else (if queue[0].ConnClosed? then 1 else 0) + Closes(queue[1..])
  }

  lemma {:induction false} ClosesOfSnoc(queue: seq<Reply>, r: Reply)
    ensures Closes(queue + [r]) == Closes(queue) + if r.ConnClosed? then 1 else 0
  {
    if queue != [] {
      ClosesOfSnoc(queue[1..], r);
      assert (queue + [r])[1..] == queue[1..] + [r];
    }
  }

  /** Every close in flight belongs to the release that is going on. */
  ghost predicate ClosesAreOwed(c: Loop) {
    Closes(c.queue) <= if c.m.state.Releasing? then 1 else 0
  }

  /** The one message that can orphan a close: a failed open handled while releasing. */
  predicate FailsWhileReleasing(c: Loop, cmd: Command) {
    cmd.ProcessReply? && c.queue != [] && c.queue[0].OpenFailed? && c.m.state.Releasing?
  }

  predicate ForcesRelease(c: Loop, cmd: Command) {
    cmd.ProcessReply? && c.queue != [] && c.queue[0].ConnClosed? && c.m.state.Acquired?
  }

  lemma FeedOwesCloses(d: Loop, e: Event)
    requires Waiting(d.m) && (e.Subscribe? ==> e.waitForClose)
    requires ClosesAreOwed(d) && !(e.Denied? && d.m.state.Releasing?)
    requires e.ConnReleased? ==> Closes(d.queue) == 0
    ensures ClosesAreOwed(Feed(d, e))
  {
    EventAnswers(d, e);
    EventState(d.m, e);
    var answers := Answers(d, Step(d.m, e).1);
    if answers != [] {
      ClosesOfSnoc(d.queue, answers[0]);
    }
    assert d.queue + [] == d.queue;
  }

  lemma {:induction false} ClosesAreInFlight(queue: seq<Reply>)
    ensures ConnClosed in queue <==> Closes(queue) > 0
  {
    if queue != [] {
      ClosesAreInFlight(queue[1..]);
      assert queue == [queue[0]] + queue[1..];
    }
  }

  /** A failed open that ends a release leaves the queue its closes, now owed to nobody. */
  lemma FailureOrphansCloses(d: Loop)
    requires Waiting(d.m) && d.m.state.Releasing?
    ensures ClosesAreOwed(Feed(d, Denied)) <==> Closes(d.queue) == 0
  {
    EventAnswers(d, Denied);
    EventState(d.m, Denied);
    var answers := Answers(d, Step(d.m, Denied).1);
    if answers != [] {
      ClosesOfSnoc(d.queue, answers[0]);
    }
    assert d.queue + [] == d.queue;
  }

  lemma ReplyStaysOwed(wds: bool, c: Loop)
    requires ClosesAreOwed(c) && Waiting(c.m) && c.queue != []
    ensures ClosesAreOwed(Advance(wds, c, ProcessReply)) <==>
            !(FailsWhileReleasing(c, ProcessReply) && CloseInFlight(c))
    ensures Waiting(Advance(wds, c, ProcessReply).m)
  {
    var rest := c.(queue := c.queue[1..]);
    ClosesAreInFlight(c.queue);
    if !(c.queue[0].OpenOk? && wds) {
      WaitingIsKept(rest.m, EventOf(c.queue[0]));
      if FailsWhileReleasing(c, ProcessReply) {
        FailureOrphansCloses(rest);
      } else {
        FeedOwesCloses(rest, EventOf(c.queue[0]));
      }
    }
  }

  /** Exactly when a message keeps every close in flight owed to the running release: unless it is a failed open
      handled while releasing, with the close still to come. In a live loop that close is always still to come. */
  lemma ClosesStayOwedExactly(wds: bool, c: Loop, cmd: Command)
    requires ClosesAreOwed(c) && Waiting(c.m)
    ensures ClosesAreOwed(Advance(wds, c, cmd)) <==> !(FailsWhileReleasing(c, cmd) && CloseInFlight(c))
    ensures Live(c) ==> (ClosesAreOwed(Advance(wds, c, cmd)) <==> !FailsWhileReleasing(c, cmd))
    ensures Waiting(Advance(wds, c, cmd).m)
    ensures !ForcesRelease(c, cmd)
  {
    match cmd
    case RequestAtl(h, t) =>
      var d := c.(m := c.m.(agpsType := t));
      FeedOwesCloses(d, Subscribe(h, true));
      WaitingIsKept(d.m, Subscribe(h, true));
    case ReleaseAtl(h) =>
      FeedOwesCloses(c, Unsubscribe(h));
      WaitingIsKept(c.m, Unsubscribe(h));
    case NetworkChanged(_, _) =>
    case ProcessReply =>
      if c.queue != [] {
        ReplyStaysOwed(wds, c);
      }
    case FinishLookup => ClosesOfSnoc(c.queue, PdnReported);
    case RestartModem =>
      FeedOwesCloses(c, ModemRestart);
      WaitingIsKept(c.m, ModemRestart);
  }

  /** Along the whole run every close in flight is owed to the running release. */
  ghost predicate OwedAllAlong(wds: bool, c: Loop, cmds: seq<Command>) {
    ClosesAreOwed(Play(wds, c, cmds)) && (cmds == [] || OwedAllAlong(wds, c, cmds[..|cmds|-1]))
  }

  /** Along the whole run no failed open is handled while releasing. */
  predicate NeverFailsWhileReleasing(wds: bool, c: Loop, cmds: seq<Command>) {
    cmds == []
    || (NeverFailsWhileReleasing(wds, c, cmds[..|cmds|-1])
        && !FailsWhileReleasing(Play(wds, c, cmds[..|cmds|-1]), cmds[|cmds|-1]))
  }

  /** A run of ordinary messages keeps every close owed exactly if it never handles a failed open while
      releasing. */
  lemma {:induction false} RunsOweClosesExactly(wds: bool, connected: bool, apn: string, cmds: seq<Command>)
    requires ApnAccepted(apn)
    requires forall i :: 0 <= i < |cmds| ==> Ordinary(cmds[i])
    ensures OwedAllAlong(wds, Start(connected, apn), cmds) <==>
            NeverFailsWhileReleasing(wds, Start(connected, apn), cmds)
  {
    if cmds != [] {
      var before := cmds[..|cmds|-1];
      RunsOweClosesExactly(wds, connected, apn, before);
      NeverWedges(wds, connected, apn, before);
      var c := Play(wds, Start(connected, apn), before);
      if OwedAllAlong(wds, Start(connected, apn), before) {
        ClosesStayOwedExactly(wds, c, cmds[|cmds|-1]);
      }
    }
  }

  /** On a run that never handles a failed open while releasing, no granted connection is ever
      closed under its active clients. */
  lemma {:induction false} ClosesEndOnlyReleases(wds: bool, connected: bool, apn: string, cmds: seq<Command>)
    requires forall i :: 0 <= i < |cmds| ==> !FailsWhileReleasing(Play(wds, Start(connected, apn), cmds[..i]), cmds[i])
    ensures var c := Play(wds, Start(connected, apn), cmds);
            ClosesAreOwed(c) && Waiting(c.m) && !ForcesRelease(c, ProcessReply)
  {
    if cmds != [] {
      var n := |cmds| - 1;
      var before := cmds[..n];
      forall i | 0 <= i < n
        ensures !FailsWhileReleasing(Play(wds, Start(connected, apn), before[..i]), before[i])
      {
        assert before[..i] == cmds[..i] && before[i] == cmds[i];
      }
      ClosesEndOnlyReleases(wds, connected, apn, before);
      ClosesStayOwedExactly(wds, Play(wds, Start(connected, apn), before), cmds[n]);
    }
  }

  // ---------------------------------------------------------------- concrete runs

  lemma FirstRequest(c: Loop, handle: int, agpsType: int)
    requires c.m.state.Released? && c.m.subs == [] && !IsRefused(agpsType)
    ensures Advance(false, c, RequestAtl(handle, agpsType)) ==
            c.(m := Machine(Pending, [Subscriber(handle, true, false)], agpsType),
               queue := c.queue + Answer(c, RequestConn(agpsType)))
  {
    var d := c.(m := c.m.(agpsType := agpsType));
    var s := Subscriber(handle, true, false);
    AnswersOfOne(d, RequestConn(agpsType));
    assert Add([], s) == [s];
    assert Step(d.m, Subscribe(handle, true)) ==
           (Machine(Pending, [s], agpsType), [RequestConn(agpsType)]);
  }

  lemma OnlyClientReleases(c: Loop, handle: int)
    requires c.m == Machine(Pending, [Subscriber(handle, true, false)], TYPE_WWAN_ANY)
    ensures Advance(false, c, ReleaseAtl(handle)) ==
            c.(m := Machine(Releasing, [Subscriber(handle, true, true)], TYPE_WWAN_ANY),
               queue := c.queue + [ConnClosed])
  {
    var left := MarkInactive(c.m.subs, handle);
    assert left == [Subscriber(handle, true, true)];
    assert !AnyActive(left);
    assert [] + [ReleaseConn(TYPE_WWAN_ANY)] == [ReleaseConn(TYPE_WWAN_ANY)];
    AnswersOfOne(c, ReleaseConn(TYPE_WWAN_ANY));
  }

  lemma FinishesForGood(m: Machine)
    requires !AnyActive(m.subs)
    ensures FinishRelease(m).0 == Machine(Released, [], m.agpsType)
  {
    FinishReleaseAnswers(Loop(m, [], 0, false, ""));
    FinishReleaseEnds(m);
  }

  lemma ReplyEndsRelease(c: Loop)
    requires c.m.state.Releasing? && !AnyActive(c.m.subs)
    requires c.queue != [] && (c.queue[0].ConnClosed? || c.queue[0].OpenFailed?)
    ensures Advance(false, c, ProcessReply) ==
            c.(m := Machine(Released, [], c.m.agpsType), queue := c.queue[1..])
  {
    var rest, e := c.(queue := c.queue[1..]), EventOf(c.queue[0]);
    ReplyAnswers(rest, e);
    FinishesForGood(c.m);
    assert Step(rest.m, e).0 == Machine(Released, [], c.m.agpsType);
    assert rest.queue + [] == rest.queue;
    assert Feed(rest, e) == rest.(m := Machine(Released, [], c.m.agpsType));
  }

  lemma ReplyGrants(c: Loop)
    requires c.m.state.Pending? && c.queue != [] && c.queue[0].OpenOk?
    ensures Advance(false, c, ProcessReply) == c.(m := c.m.(state := Acquired), queue := c.queue[1..])
  {
    var rest := c.(queue := c.queue[1..]);
    NewsIsNotAnswered(rest, c.m.subs, ActiveOnly, Opened);
    assert rest.queue + [] == rest.queue;
  }

  /** A request withdrawn while offline leaves a close behind in the queue. */
  lemma WithdrawnOffline()
    ensures Play(false, Start(false, "apn"),
                 [RequestAtl(1, 3), ReleaseAtl(1), ProcessReply, NetworkChanged(true, "apn")])
            == Loop(Machine(Released, [], TYPE_WWAN_ANY), [ConnClosed], 0, true, "apn")
  {
    var c0 := Start(false, "apn");
    FirstRequest(c0, 1, 3);
    var c1 := Advance(false, c0, RequestAtl(1, 3));
    OnlyClientReleases(c1, 1);
    var c2 := Advance(false, c1, ReleaseAtl(1));
    assert c2.queue == [OpenFailed, ConnClosed];
    ReplyEndsRelease(c2);
    var c3 := Advance(false, c2, ProcessReply);
    var run := [RequestAtl(1, 3), ReleaseAtl(1), ProcessReply, NetworkChanged(true, "apn")];
    PlayUnrolls(c0, run);
    PlayUnrolls(c1, run[1..]);
    PlayUnrolls(c2, run[2..]);
    PlayUnrolls(c3, run[3..]);
  }

  /** Client 2 takes that close for its own, and its own is left to the next one. */
  lemma WithdrawnBehindClose(c: Loop)
    requires c == Loop(Machine(Released, [], TYPE_WWAN_ANY), [ConnClosed], 0, true, "apn")
    ensures Play(false, c, [RequestAtl(2, 3), ReleaseAtl(2), ProcessReply])
            == Loop(Machine(Released, [], TYPE_WWAN_ANY), [OpenOk, ConnClosed], 0, true, "apn")
  {
    FirstRequest(c, 2, 3);
    var c1 := Advance(false, c, RequestAtl(2, 3));
    OnlyClientReleases(c1, 2);
    var c2 := Advance(false, c1, ReleaseAtl(2));
    assert c2.queue == [ConnClosed, OpenOk, ConnClosed];
    ReplyEndsRelease(c2);
    var run := [RequestAtl(2, 3), ReleaseAtl(2), ProcessReply];
    PlayUnrolls(c, run);
    PlayUnrolls(c1, run[1..]);
    PlayUnrolls(c2, run[2..]);
  }

  lemma GrantedBehindOpen(c: Loop)
    requires c == Loop(Machine(Released, [], TYPE_WWAN_ANY), [OpenOk, ConnClosed], 0, true, "apn")
    ensures Play(false, c, [RequestAtl(3, 3), ProcessReply])
            == Loop(Machine(Acquired, [Subscriber(3, true, false)], TYPE_WWAN_ANY), [ConnClosed, OpenOk], 0, true,
                    "apn")
  {
    FirstRequest(c, 3, 3);
    var c1 := Advance(false, c, RequestAtl(3, 3));
    assert c1.queue == [OpenOk, ConnClosed, OpenOk];
    ReplyGrants(c1);
    var run := [RequestAtl(3, 3), ProcessReply];
    PlayUnrolls(c, run);
    PlayUnrolls(c1, run[1..]);
  }

  /** A failed open handled while releasing can orphan a close: a request withdrawn while offline
      leaves a close behind, which two requests later is taken for the framework closing the
      connection that client 3 was granted and never gave back. */
  lemma StaleCloseHitsAnotherClient()
    ensures var c := Play(false, Start(false, "apn"),
                          [RequestAtl(1, 3), ReleaseAtl(1), ProcessReply, NetworkChanged(true, "apn")]
                          + [RequestAtl(2, 3), ReleaseAtl(2), ProcessReply] + [RequestAtl(3, 3), ProcessReply]);
            && c.m == Machine(Acquired, [Subscriber(3, true, false)], TYPE_WWAN_ANY)
            && ForcesRelease(c, ProcessReply)
  {
    var c0 := Start(false, "apn");
    var first := [RequestAtl(1, 3), ReleaseAtl(1), ProcessReply, NetworkChanged(true, "apn")];
    var second, third := [RequestAtl(2, 3), ReleaseAtl(2), ProcessReply], [RequestAtl(3, 3), ProcessReply];
    WithdrawnOffline();
    WithdrawnBehindClose(Play(false, c0, first));
    PlayGoesOn(false, c0, first, second);
    GrantedBehindOpen(Play(false, c0, first + second));
    PlayGoesOn(false, c0, first + second, third);
  }

  lemma {:induction false} PlayUnrolls(c: Loop, cmds: seq<Command>)
    requires cmds != []
    ensures Play(false, c, cmds) == Play(false, Advance(false, c, cmds[0]), cmds[1..])
  {
    var n := |cmds| - 1;
    if n > 0 {
      var rest := cmds[1..];
      PlayUnrolls(c, cmds[..n]);
      assert cmds[..n][1..] == rest[..n - 1] && rest[n - 1] == cmds[n];
    } else {
      assert cmds[..n] == [] && cmds[1..] == [];
    }
  }

  /** A type that is served by the internet machine but not known to the handler waits for ever:
      requested once, it is pending with nothing in flight. */
  lemma ForeignTypeWedges(agpsType: int)
    requires !IsRefused(agpsType) && agpsType != TYPE_WWAN_ANY
    ensures var c := Advance(false, Start(true, "apn"), RequestAtl(7, agpsType));
            c.m.state.Pending? && c.queue == [] && c.lookups == 0 && !Live(c)
  {
    FirstRequest(Start(true, "apn"), 7, agpsType);
  }

  /** So does a request made while the telephony APN is one the adapter refuses. */
  lemma RefusedApnWedges(apn: string)
    requires !ApnAccepted(apn)
    ensures var c := Advance(false, Start(true, apn), RequestAtl(7, TYPE_WWAN_ANY));
            c.m.state.Pending? && c.queue == [] && c.lookups == 0 && !Live(c)
  {
    FirstRequest(Start(true, apn), 7, TYPE_WWAN_ANY);
  }

  /** The closed report that the adapter makes at once for a refused APN changes nothing, in either
      state in which a request is sent. */
  lemma ImmediateCloseIsIgnored(m: Machine)
    requires m.state.Released? || m.state.Pending?
    ensures Step(m, ConnReleased) == (m, [])
  {
  }
}
