/** The subscription index in its own form: two maps of sets updated in place by loops over keys, and the
    observer that keeps them beside its cache and the framework's subscription. Every method is proved to do
    what the function of Subscriptions says, and to hand each client just what it says.
 */
module SubscriptionObserver {
  import opened Wrappers
  import opened Subscriptions

  class LocUnorderedSetMap {
    var entries: Index

    constructor ()
      ensures entries == map[]
    {
      entries := map[];
    }

    method Add(key: int, newVals: set<int>) returns (added: bool)
      modifies this
      ensures entries == AddAll(old(entries), {key}, newVals)
      ensures added <==> newVals != {} && key !in old(entries)
    {
      added := false;
      if newVals != {} {
        if key in entries {
          entries := entries[key := entries[key] + newVals];
        } else {
          entries := entries[key := newVals];
          added := true;
        }
      }
      AddToOne(old(entries), key, newVals);
    }

    method AddKeys(keys: set<int>, newVals: set<int>) returns (newKeys: set<int>)
      modifies this
      ensures entries == AddAll(old(entries), keys, newVals)
      ensures newKeys == NewKeys(old(entries), keys, newVals)
    {
      newKeys := {};
      var rest := keys;
      ghost var done: set<int> := {};
      AddToNone(entries, newVals);
      while rest != {}
        invariant done + rest == keys && done !! rest
        invariant entries == AddAll(old(entries), done, newVals)
        invariant newKeys == NewKeys(old(entries), done, newVals)
        decreases rest
      {
        ghost var some := SomeMember(rest);
        var key :| key in rest;
        AddOneMore(old(entries), done, key, newVals);
        NewKeysOneMore(old(entries), done, key, newVals);
        var added := Add(key, newVals);
        if added {
          newKeys := newKeys + {key};
        }
        rest := rest - {key};
        done := done + {key};
      }
      assert done == keys;
    }

    method TrimOrRemove(keys: set<int>, vals: set<int>) returns (goneKeys: set<int>, goneVals: set<int>)
      modifies this
      ensures entries == Trim(old(entries), keys, vals)
      ensures goneKeys == GoneKeys(old(entries), keys, vals)
      ensures goneVals == GoneValues(old(entries), keys, vals)
    {
      goneKeys, goneVals := {}, {};
      var rest := keys;
      ghost var done: set<int> := {};
      assert entries == Trim(old(entries), done, vals);
      while rest != {}
        invariant done + rest == keys && done !! rest
        invariant entries == Trim(old(entries), done, vals)
        invariant goneKeys == GoneKeys(old(entries), done, vals)
        invariant goneVals == GoneValues(old(entries), done, vals)
        decreases rest
      {
        ghost var some := SomeMember(rest);
        var key :| key in rest;
        TrimOneMore(old(entries), done, key, vals);
        GoneOneMore(old(entries), done, key, vals);
        if key in entries {
          goneVals := goneVals + entries[key] * vals;
          if entries[key] - vals == {} {
            entries := entries - {key};
            goneKeys := goneKeys + {key};
          } else {
            entries := entries[key := entries[key] - vals];
          }
        }
        rest := rest - {key};
        done := done + {key};
      }
      assert done == keys;
    }

    /** Returns the old values that were put again, and the new ones. */
    method UpdateKey(key: int, newVals: set<int>) returns (gone: set<int>, left: set<int>)
      modifies this
      ensures (entries, gone, left) == Update(old(entries), key, newVals)
    {
      gone, left := {}, newVals;
      if newVals == {} {
        entries := entries - {key};
      } else {
        var curVals := if key in entries then entries[key] else {};
        entries := entries[key := newVals];
        gone, curVals, left := RemoveAndReturnInterset(curVals, newVals);
      }
    }

    /** Extracts the intersection: both sets are left without it. */
    static method RemoveAndReturnInterset(s1: set<int>, s2: set<int>)
      returns (common: set<int>, rest1: set<int>, rest2: set<int>)
      ensures common == s1 * s2 && rest1 == s1 - s2 && rest2 == s2 - s1
    {
      common, rest1, rest2 := {}, s1, s2;
      var todo := s2;
      while todo != {}
        invariant todo <= rest2 <= s2
        invariant common == s1 * (s2 - todo) && rest1 == s1 - common && rest2 == s2 - common
        decreases todo
      {
        ghost var some := SomeMember(todo);
        var b :| b in todo;
        if b in rest1 {
          common := common + {b};
          rest1 := rest1 - {b};
          rest2 := rest2 - {b};
        }
        todo := todo - {b};
      }
    }
  }

  lemma AddToNone(m: Index, vals: set<int>)
    ensures AddAll(m, {}, vals) == m
  {
    if vals != {} {
      assert m.Keys + {} == m.Keys;
      forall k | k in m ensures AddAll(m, {}, vals)[k] == m[k] {
        assert m[k] + {} == m[k];
      }
    }
  }

  lemma AddToOne(m: Index, key: int, vals: set<int>)
    ensures vals != {} ==> AddAll(m, {key}, vals) == m[key := ValuesOf(m, key) + vals]
    ensures ValuesOf(m, key) + vals == if key in m then m[key] + vals else vals
  {
    assert {} + vals == vals;
    if vals != {} {
      var n := AddAll(m, {key}, vals);
      assert n.Keys == m.Keys + {key};
      forall k | k in n ensures n[k] == m[key := ValuesOf(m, key) + vals][k] {
        assert k != key ==> m[k] + {} == m[k];
      }
    }
  }

  /** Indices with the same keys are told apart by their relations. */
  lemma SameIndex(m: Index, n: Index)
    requires m.Keys == n.Keys
    requires forall k, v :: Related(m, k, v) <==> Related(n, k, v)
    ensures m == n
  {
    forall k | k in m ensures m[k] == n[k] {
      forall v ensures v in m[k] <==> v in n[k] {
        assert Related(m, k, v) <==> Related(n, k, v);
      }
    }
  }

  lemma AddAllKeys(m: Index, keys: set<int>, vals: set<int>)
    ensures AddAll(m, keys, vals).Keys == if vals == {} then m.Keys else m.Keys + keys
  {
  }

  lemma AddOneMore(m: Index, done: set<int>, key: int, vals: set<int>)
    ensures AddAll(AddAll(m, done, vals), {key}, vals) == AddAll(m, done + {key}, vals)
  {
    var some := AddAll(m, done, vals);
    var more := AddAll(some, {key}, vals);
    var all := AddAll(m, done + {key}, vals);
    assert more.Keys == all.Keys by {
      AddAllKeys(m, done, vals);
      AddAllKeys(some, {key}, vals);
      AddAllKeys(m, done + {key}, vals);
    }
    assert forall k, v :: Related(more, k, v) <==> Related(all, k, v) by {
      forall k, v ensures Related(more, k, v) <==> Related(all, k, v) {
        AddAllRelates(some, {key}, vals, k, v);
        AddAllRelates(m, done, vals, k, v);
        AddAllRelates(m, done + {key}, vals, k, v);
      }
    }
    SameIndex(more, all);
  }

  lemma NewKeysOneMore(m: Index, done: set<int>, key: int, vals: set<int>)
    requires key !in done
    ensures NewKeys(m, done + {key}, vals) ==
            NewKeys(m, done, vals) + if vals != {} && key !in AddAll(m, done, vals) then {key} else {}
  {
    AddAllKeys(m, done, vals);
  }

  lemma EmptyDifference(s: set<int>, t: set<int>)
    ensures s - t == {} <==> s <= t
  {
    InsideOrNot(s, t);
    if x :| x in s && x !in t {
      assert x in s - t;
    }
  }

  lemma TrimOneMore(m: Index, done: set<int>, key: int, vals: set<int>)
    requires key !in done
    ensures key in Trim(m, done, vals) <==> key in m
    ensures key !in m ==> Trim(m, done + {key}, vals) == Trim(m, done, vals)
    ensures key in m ==>
      && Trim(m, done, vals)[key] == m[key]
      && Trim(m, done + {key}, vals) ==
           (if m[key] - vals == {} then Trim(m, done, vals) - {key} else Trim(m, done, vals)[key := m[key] - vals])
    ensures GoneKeys(m, done + {key}, vals) ==
            GoneKeys(m, done, vals) + if key in m && m[key] - vals == {} then {key} else {}
  {
    if key in m {
      EmptyDifference(m[key], vals);
    }
  }

  lemma GoneOneMore(m: Index, done: set<int>, key: int, vals: set<int>)
    ensures GoneValues(m, done + {key}, vals) ==
            GoneValues(m, done, vals) + if key in m then m[key] * vals else {}
  {
    forall v ensures v in GoneValues(m, done + {key}, vals) <==>
      v in GoneValues(m, done, vals) + if key in m then m[key] * vals else {}
    {
      if v in GoneValues(m, done, vals) {
        var k :| k in done && k in m && v in m[k] && v in vals;
        assert k in done + {key};
      }
      assert key in done + {key};
    }
  }

  lemma DeliverOneMore(s: Observer, changed: set<int>, done: set<int>, client: int)
    ensures DeliveriesTo(s, changed, done + {client}) ==
            if Portion(s, changed, client) == {} then DeliveriesTo(s, changed, done)
            else DeliveriesTo(s, changed, done)[client := Portion(s, changed, client)]
  {
  }

  class SystemStatusOsObserver {
    const clientToItems: LocUnorderedSetMap
    const itemToClients: LocUnorderedSetMap
    var cache: map<int, int>
    var framework: Option<set<int>>

    predicate Valid() {
      clientToItems != itemToClients
    }

    function Value(): Observer
      reads this, clientToItems, itemToClients
    {
      Observer(clientToItems.entries, itemToClients.entries, cache, framework)
    }

    constructor ()
      ensures Valid() && Value() == START
    {
      clientToItems := new LocUnorderedSetMap();
      itemToClients := new LocUnorderedSetMap();
      cache, framework := map[], None;
    }

    method TellFramework(more: set<int>, less: set<int>)
      modifies this`framework
      ensures framework == Tell(old(Value()), more, less)
    {
      if framework.Some? {
        framework := Some(framework.value + more - less);
      }
    }

    /** Returns the cached items handed to the client and the items requested from the framework. */
    method HandleSubscribeReq(client: int, items: set<int>, requestData: bool)
      returns (response: set<int>, requested: set<int>)
      requires Valid()
      modifies this, clientToItems, itemToClients
      ensures Value() == Handle(old(Value()), Subscribe(client, items, requestData))
      ensures response == FirstResponse(old(Value()), Subscribe(client, items, requestData))
      ensures requested == DataRequest(old(Value()), Subscribe(client, items, requestData))
    {
      response, requested := {}, {};
      if items != {} {
        var toSubscribe := itemToClients.AddKeys(items, {client});
        var _ := clientToItems.Add(client, items);
        response := CachedAmong(items);
        if requestData {
          requested := if framework.Some? then items else {};
        } else {
          TellFramework(toSubscribe, {});
        }
      }
    }

    /** The items of a set that are in the cache. */
    method CachedAmong(items: set<int>) returns (cached: set<int>)
      ensures cached == items * cache.Keys
    {
      cached := {};
      var rest := items;
      while rest != {}
        invariant rest <= items && cached == (items - rest) * cache.Keys
        decreases rest
      {
        ghost var some := SomeMember(rest);
        var d :| d in rest;
        if d in cache {
          cached := cached + {d};
        }
        rest := rest - {d};
      }
    }

    method HandleUpdateSubscriptionReq(client: int, items: set<int>) returns (response: set<int>)
      requires Valid()
      modifies this, clientToItems, itemToClients
      ensures Value() == Handle(old(Value()), UpdateSubscription(client, items))
      ensures response == FirstResponse(old(Value()), UpdateSubscription(client, items))
    {
      response := {};
      if items != {} {
        var unused, added := clientToItems.UpdateKey(client, items);
        var toUnsubscribe, _ := itemToClients.TrimOrRemove(unused, {client});
        var toSubscribe := itemToClients.AddKeys(added, {client});
        response := CachedAmong(added);
        TellFramework(toSubscribe, toUnsubscribe);
      }
    }

    method HandleUnsubscribeReq(client: int, items: set<int>)
      requires Valid()
      modifies this, clientToItems, itemToClients
      ensures Value() == Handle(old(Value()), Unsubscribe(client, items))
    {
      if items != {} {
        var _, unused := clientToItems.TrimOrRemove({client}, items);
        var toUnsubscribe, _ := itemToClients.TrimOrRemove(unused, {client});
        TellFramework({}, toUnsubscribe);
      }
    }

    method HandleUnsubscribeAllReq(client: int)
      requires Valid()
      modifies this, clientToItems, itemToClients
      ensures Value() == Handle(old(Value()), UnsubscribeAll(client))
    {
      var items := ValuesOf(clientToItems.entries, client);
      if items != {} {
        clientToItems.entries := clientToItems.entries - {client};
        var toUnsubscribe, _ := itemToClients.TrimOrRemove(items, {client});
        TellFramework({}, toUnsubscribe);
      }
    }

    method SetSubsObj() returns (requested: set<int>)
      modifies this`framework
      ensures Value() == Handle(old(Value()), SetSubscriptionObj)
      ensures requested == DataRequest(old(Value()), SetSubscriptionObj)
    {
      framework := Some(itemToClients.entries.Keys);
      requested := itemToClients.entries.Keys;
    }

    method RefreshCache(news: seq<Item>) returns (changed: set<int>)
      modifies this`cache
      ensures cache == Refresh(old(cache), news).0 && changed == Refresh(old(cache), news).1
    {
      changed := {};
      for i := 0 to |news|
        invariant (cache, changed) == Refresh(old(cache), news[..i])
      {
        assert news[..i + 1][..i] == news[..i];
        var d := news[i];
        if d.recorded && !(d.id in cache && cache[d.id] == d.value) {
          cache := cache[d.id := d.value];
          changed := changed + {d.id};
        }
      }
      assert news[..|news|] == news;
    }

    /** Updates the cache, then hands each interested client the changed items it is indexed for. */
    method HandleNotify(news: seq<Item>) returns (sent: map<int, set<int>>)
      modifies this`cache
      ensures Value() == Handle(old(Value()), Notify(news))
      ensures sent == Deliveries(Value(), Refresh(old(cache), news).1)
    {
      var changed := RefreshCache(news);
      ghost var now := Value();
      var clients := CollectAudience(changed);
      sent := map[];
      var rest := clients;
      ghost var done: set<int> := {};
      while rest != {}
        invariant Value() == now && done + rest == clients && done !! rest
        invariant sent == DeliveriesTo(now, changed, done)
        decreases rest
      {
        ghost var some := SomeMember(rest);
        var c :| c in rest;
        DeliverOneMore(now, changed, done, c);
        var items := ValuesOf(clientToItems.entries, c) * changed * cache.Keys;
        if items != {} {
          sent := sent[c := items];
        }
        rest, done := rest - {c}, done + {c};
      }
      assert done == clients;
    }

    method CollectAudience(changed: set<int>) returns (clients: set<int>)
      ensures clients == Audience(Value(), changed)
    {
      clients := {};
      var todo := changed;
      while todo != {}
        invariant todo <= changed
        invariant forall c :: c in clients <==>
          exists d :: d in changed - todo && d in itemToClients.entries && c in itemToClients.entries[d]
        decreases todo
      {
        ghost var some := SomeMember(todo);
        var d :| d in todo;
        ghost var was := clients;
        clients := clients + ValuesOf(itemToClients.entries, d);
        forall c ensures c in clients <==>
          exists e :: e in changed - (todo - {d}) && e in itemToClients.entries && c in itemToClients.entries[e]
        {
          if c in ValuesOf(itemToClients.entries, d) {
            assert d in changed - (todo - {d});
          }
        }
        todo := todo - {d};
      }
      assert changed - todo == changed;
      assert forall c :: c in clients <==> c in Audience(Value(), changed);
    }
  }
}
