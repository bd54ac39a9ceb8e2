/** The subscription index of the OS observer: which client wants which data items, kept in both
    directions, with the framework subscribed to the items that anyone wants.
 */
module Subscriptions {
  import opened Wrappers

  type Index = map<int, set<int>>

  predicate Related(m: Index, key: int, value: int) {
    key in m && value in m[key]
  }

  function ValuesOf(m: Index, key: int): set<int> {
    if key in m then m[key] else {}
  }

  // ---------------------------------------------------------------- maps of sets

  function AddAll(m: Index, keys: set<int>, vals: set<int>): Index {
    if vals == {} then m
    else map k | k in m.Keys + keys :: ValuesOf(m, k) + (if k in keys then vals else {})
  }

  function NewKeys(m: Index, keys: set<int>, vals: set<int>): set<int> {
    if vals == {} then {} else keys - m.Keys
  }

  /** Removes values under the given keys, and with them the keys that are left empty. */
  function Trim(m: Index, keys: set<int>, vals: set<int>): Index {
    map k | k in m && !(k in keys && m[k] <= vals) :: if k in keys then m[k] - vals else m[k]
  }

  function GoneKeys(m: Index, keys: set<int>, vals: set<int>): set<int> {
    set k | k in keys && k in m && m[k] <= vals
  }

  function GoneValues(m: Index, keys: set<int>, vals: set<int>): set<int> {
    set k, v | k in keys && k in m && v in m[k] && v in vals :: v
  }

  /** Puts new values under a key. Returns the values that were there already, as the code does,
      although its comment promises those that are removed; and the values that are new. */
  function Update(m: Index, key: int, vals: set<int>): (Index, set<int>, set<int>) {
    if vals == {} then (m - {key}, {}, {})
    else (m[key := vals], ValuesOf(m, key) * vals, vals - ValuesOf(m, key))
  }

  // ---------------------------------------------------------------- the observer

  /** `framework` is the set of items subscribed with the framework, once there is one. */
  datatype Observer = Observer(
    clientToItems: Index, itemToClients: Index, cache: map<int, int>, framework: Option<set<int>>)

  /** A data item that the framework reports; `recorded` says whether the system status took it. */
  datatype Item = Item(id: int, value: int, recorded: bool)

  datatype Request =
    | Subscribe(client: int, items: set<int>, requestData: bool)
    | UpdateSubscription(client: int, items: set<int>)
    | Unsubscribe(client: int, items: set<int>)
    | UnsubscribeAll(client: int)
    | SetSubscriptionObj
    | Notify(news: seq<Item>)

  function Tell(s: Observer, more: set<int>, less: set<int>): Option<set<int>> {
    if s.framework.None? then None else Some(s.framework.value + more - less)
  }

  function HandleSubscribe(s: Observer, client: int, items: set<int>, requestData: bool): Observer {
    if items == {} then s
    else
      s.(itemToClients := AddAll(s.itemToClients, items, {client}),
         clientToItems := AddAll(s.clientToItems, {client}, items),
         framework := if requestData then s.framework
                      else Tell(s, NewKeys(s.itemToClients, items, {client}), {}))
  }

  function HandleUpdate(s: Observer, client: int, items: set<int>): Observer {
    if items == {} then s
    else
      var (clientToItems, unused, added) := Update(s.clientToItems, client, items);
      var trimmed := Trim(s.itemToClients, unused, {client});
      s.(clientToItems := clientToItems,
         itemToClients := AddAll(trimmed, added, {client}),
         framework := Tell(s, NewKeys(trimmed, added, {client}), GoneKeys(s.itemToClients, unused, {client})))
  }

  function HandleUnsubscribe(s: Observer, client: int, items: set<int>): Observer {
    if items == {} then s
    else
      var unused := GoneValues(s.clientToItems, {client}, items);
      s.(clientToItems := Trim(s.clientToItems, {client}, items),
         itemToClients := Trim(s.itemToClients, unused, {client}),
         framework := Tell(s, {}, GoneKeys(s.itemToClients, unused, {client})))
  }

  function HandleUnsubscribeAll(s: Observer, client: int): Observer {
    var items := ValuesOf(s.clientToItems, client);
    if items == {} then s
    else
      s.(clientToItems := s.clientToItems - {client},
         itemToClients := Trim(s.itemToClients, items, {client}),
         framework := Tell(s, {}, GoneKeys(s.itemToClients, items, {client})))
  }

  /** The cache after a report, and the items that the report changed. */
  function Refresh(cache: map<int, int>, news: seq<Item>): (map<int, int>, set<int>) {
    if news == [] then (cache, {})
    else
      var (c, changed) := Refresh(cache, news[..|news|-1]);
      var d := news[|news|-1];
      if d.recorded && !(d.id in c && c[d.id] == d.value) then (c[d.id := d.value], changed + {d.id})
      else (c, changed)
  }

  function Audience(s: Observer, changed: set<int>): set<int> {
    set d, c | d in changed && d in s.itemToClients && c in s.itemToClients[d] :: c
  }

  /** The cached items among the changed ones that a client is indexed for. */
  function Portion(s: Observer, changed: set<int>, client: int): set<int> {
    ValuesOf(s.clientToItems, client) * changed * s.cache.Keys
  }

  function DeliveriesTo(s: Observer, changed: set<int>, clients: set<int>): map<int, set<int>> {
    map c | c in clients && Portion(s, changed, c) != {} :: Portion(s, changed, c)
  }

  /** What each client is handed. */
  function Deliveries(s: Observer, changed: set<int>): map<int, set<int>> {
    DeliveriesTo(s, changed, Audience(s, changed))
  }

  function Handle(s: Observer, r: Request): Observer {
    match r
    case Subscribe(client, items, requestData) => HandleSubscribe(s, client, items, requestData)
    case UpdateSubscription(client, items) => HandleUpdate(s, client, items)
    case Unsubscribe(client, items) => HandleUnsubscribe(s, client, items)
    case UnsubscribeAll(client) => HandleUnsubscribeAll(s, client)
    case SetSubscriptionObj => s.(framework := Some(s.itemToClients.Keys))
    case Notify(news) => s.(cache := Refresh(s.cache, news).0)
  }

  /** The cached items that a client is handed at once when it subscribes; on an update only those it asks for
      newly. */
  function FirstResponse(s: Observer, r: Request): set<int> {
    match r
    case Subscribe(client, items, _) => items * s.cache.Keys
    case UpdateSubscription(client, items) => (items - ValuesOf(s.clientToItems, client)) * s.cache.Keys
    case Unsubscribe(_, _) => {}
    case UnsubscribeAll(_) => {}
    case SetSubscriptionObj => {}
    case Notify(_) => {}
  }

  /** The items whose data the framework is asked for at once. */
  function DataRequest(s: Observer, r: Request): set<int> {
    match r
    case Subscribe(client, items, requestData) => if requestData && s.framework.Some? then items else {}
    case SetSubscriptionObj => s.itemToClients.Keys
    case UpdateSubscription(_, _) => {}
    case Unsubscribe(_, _) => {}
    case UnsubscribeAll(_) => {}
    case Notify(_) => {}
  }

  const START := Observer(map[], map[], map[], None)

  function Run(requests: seq<Request>): Observer {
    if requests == [] then START else Handle(Run(requests[..|requests|-1]), requests[|requests|-1])
  }

  // ---------------------------------------------------------------- what the index promises

  ghost predicate NoEmpties(m: Index) {
    forall k :: k in m ==> m[k] != {}
  }

  /** Both maps describe the same relation, and neither keeps an empty entry. */
  ghost predicate Converse(s: Observer) {
    && NoEmpties(s.clientToItems) && NoEmpties(s.itemToClients)
    && forall c, d :: Related(s.clientToItems, c, d) <==> Related(s.itemToClients, d, c)
  }

  ghost predicate FrameworkKnows(s: Observer) {
    s.framework.Some? ==> s.framework.value <= s.itemToClients.Keys
  }

  ghost predicate FrameworkMatches(s: Observer) {
    s.framework.Some? ==> s.framework.value == s.itemToClients.Keys
  }

  // ---------------------------------------------------------------- one operation on a map of sets

  lemma InsideOrNot(s: set<int>, t: set<int>)
    ensures s <= t || exists x :: x in s && x !in t
  {
    if forall x :: x in s ==> x in t {
      assert s <= t;
    }
  }

  lemma AddAllRelates(m: Index, keys: set<int>, vals: set<int>, k: int, v: int)
    ensures Related(AddAll(m, keys, vals), k, v) <==> Related(m, k, v) || (k in keys && v in vals)
  {
  }

  lemma TrimRelates(m: Index, keys: set<int>, vals: set<int>, k: int, v: int)
    ensures Related(Trim(m, keys, vals), k, v) <==> Related(m, k, v) && !(k in keys && v in vals)
  {
  }

  lemma TrimHasNoEmpties(m: Index, keys: set<int>, vals: set<int>)
    requires NoEmpties(m)
    ensures NoEmpties(Trim(m, keys, vals))
    ensures Trim(m, keys, vals).Keys == m.Keys - GoneKeys(m, keys, vals)
  {
    forall k | k in Trim(m, keys, vals) ensures Trim(m, keys, vals)[k] != {} {
      if k in keys {
        InsideOrNot(m[k], vals);
        var v :| v in m[k] && v !in vals;
        assert v in Trim(m, keys, vals)[k];
      }
    }
  }

  lemma AddAllHasNoEmpties(m: Index, keys: set<int>, vals: set<int>)
    requires NoEmpties(m)
    ensures NoEmpties(AddAll(m, keys, vals))
    ensures AddAll(m, keys, vals).Keys == m.Keys + NewKeys(m, keys, vals)
  {
    if vals != {} {
      var v := SomeMember(vals);
      forall k | k in AddAll(m, keys, vals) ensures AddAll(m, keys, vals)[k] != {} {
        if k !in m {
          assert v in AddAll(m, keys, vals)[k];
        } else {
          var w := SomeMember(m[k]);
          assert w in AddAll(m, keys, vals)[k];
        }
      }
    }
  }

  // ---------------------------------------------------------------- one request

  lemma SubscribeKeepsConverse(s: Observer, client: int, items: set<int>, requestData: bool)
    requires Converse(s)
    ensures Converse(HandleSubscribe(s, client, items, requestData))
  {
    AddAllHasNoEmpties(s.itemToClients, items, {client});
    AddAllHasNoEmpties(s.clientToItems, {client}, items);
    var t := HandleSubscribe(s, client, items, requestData);
    forall c, d ensures Related(t.clientToItems, c, d) <==> Related(t.itemToClients, d, c) {
      AddAllRelates(s.itemToClients, items, {client}, d, c);
      AddAllRelates(s.clientToItems, {client}, items, c, d);
      assert Related(s.clientToItems, c, d) <==> Related(s.itemToClients, d, c);
    }
  }

  lemma UnsubscribeKeepsConverse(s: Observer, client: int, items: set<int>)
    requires Converse(s)
    ensures Converse(HandleUnsubscribe(s, client, items))
  {
    var unused := GoneValues(s.clientToItems, {client}, items);
    TrimHasNoEmpties(s.clientToItems, {client}, items);
    TrimHasNoEmpties(s.itemToClients, unused, {client});
    forall c, d
      ensures Related(Trim(s.clientToItems, {client}, items), c, d) <==>
              Related(Trim(s.itemToClients, unused, {client}), d, c)
    {
      assert Related(s.clientToItems, c, d) <==> Related(s.itemToClients, d, c);
      assert c == client && Related(s.clientToItems, c, d) ==> (d in unused <==> d in items);
    }
  }

  lemma UnsubscribeAllKeepsConverse(s: Observer, client: int)
    requires Converse(s)
    ensures Converse(HandleUnsubscribeAll(s, client))
  {
    var items := ValuesOf(s.clientToItems, client);
    TrimHasNoEmpties(s.itemToClients, items, {client});
    forall c, d
      ensures Related(s.clientToItems - {client}, c, d) <==> Related(Trim(s.itemToClients, items, {client}), d, c)
    {
      assert Related(s.clientToItems, c, d) <==> Related(s.itemToClients, d, c);
    }
  }

  /** What an update really leaves in the item index: the client stands under the items of which it
      had or asks for exactly one of the two, and everybody else stays. */
  lemma UpdateRelates(s: Observer, client: int, items: set<int>, c: int, d: int)
    requires Converse(s) && items != {}
    ensures Related(HandleUpdate(s, client, items).itemToClients, d, c) <==>
            if c == client then (d in ValuesOf(s.clientToItems, client)) != (d in items)
            else Related(s.itemToClients, d, c)
    ensures Related(HandleUpdate(s, client, items).clientToItems, c, d) <==>
            if c == client then d in items else Related(s.clientToItems, c, d)
  {
    var (_, unused, added) := Update(s.clientToItems, client, items);
    TrimRelates(s.itemToClients, unused, {client}, d, c);
    AddAllRelates(Trim(s.itemToClients, unused, {client}), added, {client}, d, c);
    assert Related(s.clientToItems, c, d) <==> Related(s.itemToClients, d, c);
  }

  /** An update of a subscription keeps the two indices converse exactly when the client had none. */
  lemma UpdateKeepsConverseExactly(s: Observer, client: int, items: set<int>)
    requires Converse(s) && items != {}
    ensures Converse(HandleUpdate(s, client, items)) <==> client !in s.clientToItems
  {
    var t := HandleUpdate(s, client, items);
    var (_, unused, added) := Update(s.clientToItems, client, items);
    TrimHasNoEmpties(s.itemToClients, unused, {client});
    AddAllHasNoEmpties(Trim(s.itemToClients, unused, {client}), added, {client});
    if client in s.clientToItems {
      var d := SomeMember(s.clientToItems[client]);
      UpdateRelates(s, client, items, client, d);
    } else {
      forall c, d ensures Related(t.clientToItems, c, d) <==> Related(t.itemToClients, d, c) {
        UpdateRelates(s, client, items, c, d);
        assert Related(s.clientToItems, c, d) <==> Related(s.itemToClients, d, c);
      }
    }
  }

  lemma AddToNothing(k: int, v: int)
    ensures AddAll(map[], {k}, {v}) == map[k := {v}]
  {
    var m := AddAll(map[], {k}, {v});
    assert v in {v};
    assert m.Keys == {k};
    assert m[k] == {v};
  }

  /** The only subscription there is. */
  function OnlyOne(client: int, item: int): Observer {
    Observer(map[client := {item}], map[item := {client}], map[], Some({item}))
  }

  lemma OneSubscribes(client: int, item: int)
    ensures Handle(Handle(START, SetSubscriptionObj), Subscribe(client, {item}, false)) == OnlyOne(client, item)
  {
    var none: Index := map[];
    assert none.Keys == {};
    AddToNothing(item, client);
    AddToNothing(client, item);
    assert NewKeys(map[], {item}, {client}) == {item};
    assert {} + {item} - {} == {item};
  }

  lemma OneRenews(client: int, item: int)
    ensures Handle(OnlyOne(client, item), UpdateSubscription(client, {item})) ==
            OnlyOne(client, item).(itemToClients := map[], framework := Some({}))
  {
    var s := OnlyOne(client, item);
    var (clientToItems, unused, added) := Update(s.clientToItems, client, {item});
    assert unused == {item} && added == {};
    assert clientToItems == s.clientToItems;
    assert Trim(s.itemToClients, {item}, {client}) == map[];
    assert AddAll(map[], {}, {client}) == map[] && NewKeys(map[], {}, {client}) == {};
    assert GoneKeys(s.itemToClients, {item}, {client}) == {item};
    assert {item} + {} - {item} == {};
  }

  /** A client that renews the subscription it has loses it: the framework is told to stop reporting
      the very item that the client still asks for. */
  lemma RenewingUnsubscribes(client: int, item: int)
    ensures var s := Handle(Handle(START, SetSubscriptionObj), Subscribe(client, {item}, false));
            && s == OnlyOne(client, item)
            && Handle(s, UpdateSubscription(client, {item})) == s.(itemToClients := map[], framework := Some({}))
  {
    OneSubscribes(client, item);
    OneRenews(client, item);
  }

  // ---------------------------------------------------------------- every run

  predicate IsFirstUpdate(s: Observer, r: Request) {
    r.UpdateSubscription? ==> r.client !in s.clientToItems
  }

  /** Over every run in which only clients without a subscription update theirs, the two indices are
      converse and hold no empty entry. */
  lemma {:induction false} EveryRunIsConverse(requests: seq<Request>)
    requires forall i :: 0 <= i < |requests| ==> IsFirstUpdate(Run(requests[..i]), requests[i])
    ensures Converse(Run(requests))
  {
    if requests != [] {
      var n := |requests| - 1;
      assert forall i :: 0 <= i < n ==> requests[..n][..i] == requests[..i] && requests[..n][i] == requests[i];
      EveryRunIsConverse(requests[..n]);
      var s := Run(requests[..n]);
      match requests[n]
      case Subscribe(client, items, requestData) => SubscribeKeepsConverse(s, client, items, requestData);
      case UpdateSubscription(client, items) =>
        if items != {} {
          UpdateKeepsConverseExactly(s, client, items);
        }
      case Unsubscribe(client, items) => UnsubscribeKeepsConverse(s, client, items);
      case UnsubscribeAll(client) => UnsubscribeAllKeepsConverse(s, client);
      case SetSubscriptionObj =>
      case Notify(news) =>
    }
  }

  /** A request for data only, for items that nobody wanted yet, while there is a framework. */
  predicate BringsUnsubscribed(s: Observer, r: Request) {
    && r.Subscribe? && r.requestData && s.framework.Some?
    && NewKeys(s.itemToClients, r.items, {r.client}) != {}
  }

  lemma DataOnlyBreaksMatch(s: Observer, r: Request)
    requires NoEmpties(s.itemToClients) && r.Subscribe? && r.requestData && s.framework.Some? && FrameworkMatches(s)
    ensures FrameworkMatches(Handle(s, r)) <==> !BringsUnsubscribed(s, r)
  {
    AddAllHasNoEmpties(s.itemToClients, r.items, {r.client});
    var more := NewKeys(s.itemToClients, r.items, {r.client});
    assert more !! s.itemToClients.Keys;
    if more == {} {
      assert s.itemToClients.Keys + more == s.itemToClients.Keys;
    } else {
      var d := SomeMember(more);
      assert d in s.itemToClients.Keys + more && d !in s.itemToClients.Keys;
    }
  }

  lemma UpdateKeepsFramework(s: Observer, client: int, items: set<int>)
    requires NoEmpties(s.itemToClients) && FrameworkKnows(s)
    ensures var t := HandleUpdate(s, client, items);
            NoEmpties(t.itemToClients) && FrameworkKnows(t) && (FrameworkMatches(s) ==> FrameworkMatches(t))
  {
    var (_, unused, added) := Update(s.clientToItems, client, items);
    TrimHasNoEmpties(s.itemToClients, unused, {client});
    AddAllHasNoEmpties(Trim(s.itemToClients, unused, {client}), added, {client});
    assert added !! unused;
  }

  /** A request keeps the framework subscribed to indexed items only; and to all of them exactly if it is no
      request for data only that brings in new items. */
  lemma StepKeepsFrameworkExactly(s: Observer, r: Request)
    requires NoEmpties(s.itemToClients) && FrameworkKnows(s)
    ensures NoEmpties(Handle(s, r).itemToClients) && FrameworkKnows(Handle(s, r))
    ensures FrameworkMatches(s) ==> (FrameworkMatches(Handle(s, r)) <==> !BringsUnsubscribed(s, r))
  {
    match r
    case Subscribe(client, items, requestData) =>
      AddAllHasNoEmpties(s.itemToClients, items, {client});
      if FrameworkMatches(s) && requestData && s.framework.Some? {
        DataOnlyBreaksMatch(s, r);
      }
    case UpdateSubscription(client, items) => UpdateKeepsFramework(s, client, items);
    case Unsubscribe(client, items) =>
      TrimHasNoEmpties(s.itemToClients, GoneValues(s.clientToItems, {client}, items), {client});
    case UnsubscribeAll(client) =>
      TrimHasNoEmpties(s.itemToClients, ValuesOf(s.clientToItems, client), {client});
    case SetSubscriptionObj =>
    case Notify(news) =>
  }

  ghost predicate MatchesAllAlong(requests: seq<Request>) {
    FrameworkMatches(Run(requests)) && (requests == [] || MatchesAllAlong(requests[..|requests|-1]))
  }

  predicate EverUnsubscribed(requests: seq<Request>) {
    requests != []
    && (EverUnsubscribed(requests[..|requests|-1])
        || BringsUnsubscribed(Run(requests[..|requests|-1]), requests[|requests|-1]))
  }

  /** Over every run, the framework is subscribed to nothing but indexed items; and it stays subscribed to all of
      them exactly if no request for data only ever brings in new items. */
  lemma {:induction false} EveryRunKeepsFramework(requests: seq<Request>)
    ensures NoEmpties(Run(requests).itemToClients) && FrameworkKnows(Run(requests))
    ensures MatchesAllAlong(requests) <==> !EverUnsubscribed(requests)
  {
    if requests != [] {
      var n := |requests| - 1;
      EveryRunKeepsFramework(requests[..n]);
      StepKeepsFrameworkExactly(Run(requests[..n]), requests[n]);
    }
  }

  // ---------------------------------------------------------------- notifications

  lemma {:induction false} RefreshCaches(cache: map<int, int>, news: seq<Item>)
    ensures Refresh(cache, news).1 <= Refresh(cache, news).0.Keys
    ensures cache.Keys <= Refresh(cache, news).0.Keys
    ensures forall d :: d in Refresh(cache, news).1 ==>
              exists i :: 0 <= i < |news| && news[i].recorded && news[i].id == d
    ensures forall d :: d in cache && d !in Refresh(cache, news).1 ==> Refresh(cache, news).0[d] == cache[d]
  {
    if news != [] {
      var n := |news| - 1;
      RefreshCaches(cache, news[..n]);
      forall d | d in Refresh(cache, news).1
        ensures exists i :: 0 <= i < |news| && news[i].recorded && news[i].id == d
      {
        if d in Refresh(cache, news[..n]).1 {
          var i :| 0 <= i < n && news[..n][i].recorded && news[..n][i].id == d;
          assert news[i].id == d && news[i].recorded;
        }
      }
    }
  }

  /** With converse indices, a report hands each client exactly the changed items it subscribed to,
      all of them freshly cached, and bothers nobody else. */
  lemma NotifyDeliversExactly(s: Observer, news: seq<Item>, client: int)
    requires Converse(s)
    ensures var changed := Refresh(s.cache, news).1;
            var sent := Deliveries(Handle(s, Notify(news)), changed);
            var due := ValuesOf(s.clientToItems, client) * changed;
            (client in sent <==> due != {}) && (client in sent ==> sent[client] == due)
  {
    var t := Handle(s, Notify(news));
    var changed := Refresh(s.cache, news).1;
    var due := ValuesOf(s.clientToItems, client) * changed;
    RefreshCaches(s.cache, news);
    assert due * t.cache.Keys == due;
    if d :| d in due {
      assert Related(s.clientToItems, client, d) && Related(s.itemToClients, d, client);
      assert client in Audience(t, changed);
    }
  }

  // ---------------------------------------------------------------- what the requests alone say

  /** The client's last word on the item: it subscribed to it or updated to a set with it, and has not
      unsubscribed from it or updated to a set without it since. */
  predicate Wants(requests: seq<Request>, client: int, item: int) {
    requests != []
    && (var before := Wants(requests[..|requests|-1], client, item);
        match requests[|requests|-1]
        case Subscribe(c, items, _) => before || (c == client && item in items)
        case UpdateSubscription(c, items) => if c == client && items != {} then item in items else before
        case Unsubscribe(c, items) => before && !(c == client && item in items)
        case UnsubscribeAll(c) => before && c != client
        case SetSubscriptionObj => before
        case Notify(_) => before)
  }

  lemma StepIndexes(s: Observer, r: Request, client: int, item: int)
    ensures Related(Handle(s, r).clientToItems, client, item) <==>
            match r
            case Subscribe(c, items, _) => Related(s.clientToItems, client, item) || (c == client && item in items)
            case UpdateSubscription(c, items) =>
              if c == client && items != {} then item in items else Related(s.clientToItems, client, item)
            case Unsubscribe(c, items) => Related(s.clientToItems, client, item) && !(c == client && item in items)
            case UnsubscribeAll(c) => Related(s.clientToItems, client, item) && c != client
            case SetSubscriptionObj => Related(s.clientToItems, client, item)
            case Notify(_) => Related(s.clientToItems, client, item)
  {
    match r
    case Subscribe(c, items, _) => AddAllRelates(s.clientToItems, {c}, items, client, item);
    case Unsubscribe(c, items) => TrimRelates(s.clientToItems, {c}, items, client, item);
    case UpdateSubscription(_, _) =>
    case UnsubscribeAll(_) =>
    case SetSubscriptionObj =>
    case Notify(_) =>
  }

  /** Over every run, an item is indexed under a client exactly if the client's last word on it was to want it. */
  lemma {:induction false} IndexedExactlyIfWanted(requests: seq<Request>, client: int, item: int)
    ensures Related(Run(requests).clientToItems, client, item) <==> Wants(requests, client, item)
  {
    if requests != [] {
      var before := requests[..|requests|-1];
      IndexedExactlyIfWanted(before, client, item);
      StepIndexes(Run(before), requests[|requests|-1], client, item);
    }
  }

  /** Over every run of first-time updates and all other requests, clients are indexed under exactly the items they
      want. */
  lemma ClientsExactlyIfWanted(requests: seq<Request>, client: int, item: int)
    requires forall i :: 0 <= i < |requests| ==> IsFirstUpdate(Run(requests[..i]), requests[i])
    ensures Related(Run(requests).itemToClients, item, client) <==> Wants(requests, client, item)
  {
    EveryRunIsConverse(requests);
    IndexedExactlyIfWanted(requests, client, item);
    assert Related(Run(requests).clientToItems, client, item) <==> Related(Run(requests).itemToClients, item, client);
  }

  /** There is a framework exactly once it was set, and setting it subscribes it to everything indexed. */
  lemma {:induction false} FrameworkIsSet(requests: seq<Request>)
    ensures Run(requests).framework.Some? <==> SetSubscriptionObj in requests
    ensures Handle(Run(requests), SetSubscriptionObj).framework == Some(Run(requests).itemToClients.Keys)
  {
    if requests != [] {
      FrameworkIsSet(requests[..|requests|-1]);
      assert requests == requests[..|requests|-1] + [requests[|requests|-1]];
    }
  }

  /** With a framework, no item is newly indexed without being subscribed with it or having its data requested. */
  lemma NewItemsAreAnnounced(s: Observer, r: Request, item: int)
    requires NoEmpties(s.itemToClients) && s.framework.Some?
    requires item in Handle(s, r).itemToClients && item !in s.itemToClients
    ensures item in Handle(s, r).framework.value || item in DataRequest(s, r)
  {
    match r
    case Subscribe(client, items, requestData) => AddAllHasNoEmpties(s.itemToClients, items, {client});
    case UpdateSubscription(client, items) =>
      var (_, unused, added) := Update(s.clientToItems, client, items);
      TrimHasNoEmpties(s.itemToClients, unused, {client});
      AddAllHasNoEmpties(Trim(s.itemToClients, unused, {client}), added, {client});
    case Unsubscribe(client, items) =>
    case UnsubscribeAll(client) =>
    case SetSubscriptionObj =>
    case Notify(_) =>
  }

  /** The last recorded value of an item among the news. */
  function LastRecorded(news: seq<Item>, item: int): Option<int> {
    if news == [] then None
    else if news[|news|-1].recorded && news[|news|-1].id == item then Some(news[|news|-1].value)
    else LastRecorded(news[..|news|-1], item)
  }

  function Cached(cache: map<int, int>, item: int): Option<int> {
    if item in cache then Some(cache[item]) else None
  }

  /** A report caches the last recorded value of each item it brings, and names as changed exactly the items of
      which it records a value other than the cached one. */
  lemma {:induction false} RefreshStores(cache: map<int, int>, news: seq<Item>, item: int)
    ensures var (after, changed) := Refresh(cache, news);
            && Cached(after, item) == (if LastRecorded(news, item).Some? then LastRecorded(news, item)
                                       else Cached(cache, item))
            && (item in changed <==>
                exists i :: 0 <= i < |news| && news[i].recorded && news[i].id == item
                            && Cached(cache, item) != Some(news[i].value))
            && (item !in changed ==> Cached(after, item) == Cached(cache, item))
  {
    if news != [] {
      var n := |news| - 1;
      RefreshStores(cache, news[..n], item);
      var d := news[n];
      if d.recorded && d.id == item && Cached(cache, item) != Some(d.value) {
        assert news[n].recorded;
      }
      if i :| 0 <= i < n && news[..n][i].recorded && news[..n][i].id == item
              && Cached(cache, item) != Some(news[..n][i].value) {
        assert news[i].recorded && news[i].id == item && Cached(cache, item) != Some(news[i].value);
      }
    }
  }

  /** The value of an item last recorded in the run. */
  function LastKnown(requests: seq<Request>, item: int): Option<int> {
    if requests == [] then None
    else
      var r := requests[|requests|-1];
      if r.Notify? && LastRecorded(r.news, item).Some? then LastRecorded(r.news, item)
      else LastKnown(requests[..|requests|-1], item)
  }

  /** Over every run the cache holds exactly the last recorded value of each item. */
  lemma {:induction false} CacheIsLastKnown(requests: seq<Request>, item: int)
    ensures Cached(Run(requests).cache, item) == LastKnown(requests, item)
  {
    if requests != [] {
      var before, r := requests[..|requests|-1], requests[|requests|-1];
      CacheIsLastKnown(before, item);
      if r.Notify? {
        RefreshStores(Run(before).cache, r.news, item);
      }
    }
  }

  /** A subscription names the item, or an update names it and the client did not want it before. */
  predicate AsksFor(requests: seq<Request>, r: Request, item: int) {
    || (r.Subscribe? && item in r.items)
    || (r.UpdateSubscription? && item in r.items && !Wants(requests, r.client, item))
  }

  /** Over every run: a client is handed at once exactly the known values of the items it asks for, on an update of
      those that it did not want before. */
  lemma FirstResponseExactly(requests: seq<Request>, r: Request, item: int)
    ensures item in FirstResponse(Run(requests), r) <==>
            LastKnown(requests, item).Some? && AsksFor(requests, r, item)
  {
    CacheIsLastKnown(requests, item);
    if r.UpdateSubscription? {
      IndexedExactlyIfWanted(requests, r.client, item);
    }
  }

  ghost predicate SomebodyWants(requests: seq<Request>, item: int) {
    exists client :: Wants(requests, client, item)
  }

  /** Over every run of first-time updates and all other requests: the framework is asked for data at once for
      exactly what a data request names, if there is a framework, and for all that is wanted when there first is
      one. */
  lemma DataRequestExactly(requests: seq<Request>, r: Request, item: int)
    requires forall i :: 0 <= i < |requests| ==> IsFirstUpdate(Run(requests[..i]), requests[i])
    ensures item in DataRequest(Run(requests), r) <==>
            || (r.Subscribe? && r.requestData && item in r.items && SetSubscriptionObj in requests)
            || (r.SetSubscriptionObj? && SomebodyWants(requests, item))
  {
    FrameworkIsSet(requests);
    if r.SetSubscriptionObj? {
      IndexedIsWanted(requests, item);
    }
  }

  lemma IndexedIsWanted(requests: seq<Request>, item: int)
    requires forall i :: 0 <= i < |requests| ==> IsFirstUpdate(Run(requests[..i]), requests[i])
    ensures item in Run(requests).itemToClients <==> SomebodyWants(requests, item)
  {
    EveryRunIsConverse(requests);
    if item in Run(requests).itemToClients {
      var client := SomeMember(Run(requests).itemToClients[item]);
      ClientsExactlyIfWanted(requests, client, item);
    }
    if client :| Wants(requests, client, item) {
      ClientsExactlyIfWanted(requests, client, item);
    }
  }

  // ---------------------------------------------------------------- what a client has been told

  /** What an onlooker next to one client knows: the observer, and the last value the client was handed per item. */
  datatype Watched = Watched(s: Observer, told: map<int, int>)

  /** The items that a client is handed while a request is handled. */
  function Handed(s: Observer, r: Request, client: int): set<int> {
    match r
    case Notify(news) => ValuesOf(Deliveries(Handle(s, r), Refresh(s.cache, news).1), client)
    case Subscribe(c, _, _) => if c == client then FirstResponse(s, r) else {}
    case UpdateSubscription(c, _) => if c == client then FirstResponse(s, r) else {}
    case Unsubscribe(_, _) => {}
    case UnsubscribeAll(_) => {}
    case SetSubscriptionObj => {}
  }

  lemma HandedIsCached(s: Observer, r: Request, client: int)
    ensures Handed(s, r, client) <= Handle(s, r).cache.Keys
  {
  }

  function Watch(w: Watched, r: Request, client: int): Watched {
    HandedIsCached(w.s, r, client);
    var t, handed := Handle(w.s, r), Handed(w.s, r, client);
    Watched(t, map d | d in w.told.Keys + handed :: if d in handed then t.cache[d] else w.told[d])
  }

  function WatchRun(requests: seq<Request>, client: int): Watched {
    if requests == [] then Watched(START, map[])
    else Watch(WatchRun(requests[..|requests|-1], client), requests[|requests|-1], client)
  }

  /** The client has been handed the current value of every cached item it is subscribed to. */
  ghost predicate UpToDate(w: Watched, client: int) {
    forall d :: Related(w.s.clientToItems, client, d) && d in w.s.cache ==>
      d in w.told && w.told[d] == w.s.cache[d]
  }

  lemma NotifyKeepsUpToDate(w: Watched, news: seq<Item>, client: int)
    requires Converse(w.s) && UpToDate(w, client)
    ensures UpToDate(Watch(w, Notify(news), client), client)
  {
    RefreshCaches(w.s.cache, news);
    NotifyDeliversExactly(w.s, news, client);
    var changed := Refresh(w.s.cache, news).1;
    forall d | Related(w.s.clientToItems, client, d) && d in Refresh(w.s.cache, news).0 && d !in changed
      ensures d in w.s.cache
    {
      RefreshAddsChanged(w.s.cache, news, d);
    }
  }

  lemma {:induction false} RefreshAddsChanged(cache: map<int, int>, news: seq<Item>, d: int)
    requires d in Refresh(cache, news).0
    ensures d in cache || d in Refresh(cache, news).1
  {
    if news != [] && d in Refresh(cache, news[..|news|-1]).0 {
      RefreshAddsChanged(cache, news[..|news|-1], d);
    }
  }

  lemma SubscribeKeepsUpToDate(w: Watched, r: Request, client: int)
    requires UpToDate(w, client) && !r.Notify?
    ensures UpToDate(Watch(w, r, client), client)
  {
    forall d | Related(Handle(w.s, r).clientToItems, client, d) && d in w.s.cache
      ensures d in Handed(w.s, r, client) || Related(w.s.clientToItems, client, d)
    {
      if r.Subscribe? {
        AddAllRelates(w.s.clientToItems, {r.client}, r.items, client, d);
      }
    }
  }

  /** The watched observer is the observer. */
  lemma {:induction false} WatchingChangesNothing(requests: seq<Request>, client: int)
    ensures WatchRun(requests, client).s == Run(requests)
  {
    if requests != [] {
      WatchingChangesNothing(requests[..|requests|-1], client);
    }
  }

  lemma FirstUpdatesBefore(requests: seq<Request>)
    requires requests != [] && forall i :: 0 <= i < |requests| ==> IsFirstUpdate(Run(requests[..i]), requests[i])
    ensures var before := requests[..|requests|-1];
            forall i :: 0 <= i < |before| ==> IsFirstUpdate(Run(before[..i]), before[i])
  {
    var before := requests[..|requests|-1];
    forall i | 0 <= i < |before| ensures IsFirstUpdate(Run(before[..i]), before[i]) {
      assert before[..i] == requests[..i];
    }
  }

  lemma StepKeepsUpToDate(w: Watched, r: Request, client: int)
    requires UpToDate(w, client) && (r.Notify? ==> Converse(w.s))
    ensures UpToDate(Watch(w, r, client), client)
  {
    if r.Notify? {
      NotifyKeepsUpToDate(w, r.news, client);
    } else {
      SubscribeKeepsUpToDate(w, r, client);
    }
  }

  /** Over every run in which only clients without a subscription update theirs, every client has been handed the
      current value of every cached item it is subscribed to: at once when it subscribed, or by the report that
      last changed it. */
  lemma {:induction false} EveryClientIsUpToDate(requests: seq<Request>, client: int)
    requires forall i :: 0 <= i < |requests| ==> IsFirstUpdate(Run(requests[..i]), requests[i])
    ensures UpToDate(WatchRun(requests, client), client)
  {
    if requests != [] {
      var before := requests[..|requests|-1];
      FirstUpdatesBefore(requests);
      EveryClientIsUpToDate(before, client);
      WatchingChangesNothing(before, client);
      EveryRunIsConverse(before);
      StepKeepsUpToDate(WatchRun(before, client), requests[|requests|-1], client);
    }
  }
}
