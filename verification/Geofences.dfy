/** The two maps of the geofence adapter: what the hardware id of a fence stands for, and which hardware id a
    client's fence has. Answers of the modem arrive later than the requests they belong to.
 */
module Geofences {

  datatype Key = Key(client: nat, id: nat)

  /** `options` stands for breach mask, responsiveness and dwell time, `info` for the circle. */
  datatype Fence = Fence(key: Key, options: int, info: int, paused: bool)

  /** `erasing` holds the hardware ids whose removal was requested when their client left, `clients` the
      registered clients and `silenced` the fences the modem itself has paused. */
  datatype Fences = Fences(objects: map<nat, Fence>, ids: map<Key, nat>, erasing: set<nat>, clients: set<nat>,
                           silenced: set<nat>)

  datatype Event =
    | Added(key: Key, hwId: nat, options: int, info: int)
    | Restored(fence: Fence, hwId: nat)
    | RemoveAnswered(hwId: nat)
    | PauseAnswered(hwId: nat)
    | ResumeAnswered(hwId: nat)
    | ModifyAnswered(hwId: nat, options: int)
    | ClientCame(client: nat)
    | ClientLeft(client: nat)
    | EraseAnswered(hwId: nat, success: bool)
    | EngineUp

  const INITIAL := Fences(map[], map[], {}, {}, {})

  function Save(f: Fences, key: Key, hwId: nat, options: int, info: int): Fences {
    f.(objects := f.objects[hwId := Fence(key, options, info, false)], ids := f.ids[key := hwId])
  }

  function RemoveItem(f: Fences, hwId: nat): Fences {
    if hwId in f.objects && f.objects[hwId].key in f.ids
    then f.(objects := f.objects - {hwId}, ids := f.ids - {f.objects[hwId].key})
    else f
  }

  function SetPaused(f: Fences, hwId: nat, paused: bool): Fences {
    if hwId in f.objects then f.(objects := f.objects[hwId := f.objects[hwId].(paused := paused)]) else f
  }

  function KeysOf(f: Fences, client: nat): set<Key> {
    set k | k in f.ids && k.client == client
  }

  /** All ids of the client go at once; their objects go one by one with the answers of the modem. */
  function StopClient(f: Fences, client: nat): Fences {
    f.(ids := f.ids - KeysOf(f, client), erasing := f.erasing + set k | k in KeysOf(f, client) :: f.ids[k])
  }

  function Step(f: Fences, e: Event): Fences {
    match e
    case Added(key, hwId, options, info) =>
      Save(f, key, hwId, options, info).(silenced := f.silenced - {hwId})
    case Restored(fence, hwId) =>
      Save(f, fence.key, hwId, fence.options, fence.info)
      .(silenced := if fence.paused then f.silenced + {hwId} else f.silenced - {hwId})
    case RemoveAnswered(hwId) => RemoveItem(f, hwId)
    case PauseAnswered(hwId) => SetPaused(f, hwId, true).(silenced := f.silenced + {hwId})
    case ResumeAnswered(hwId) => SetPaused(f, hwId, false).(silenced := f.silenced - {hwId})
    case ModifyAnswered(hwId, options) =>
      if hwId in f.objects then f.(objects := f.objects[hwId := f.objects[hwId].(options := options)]) else f
    case ClientCame(client) => f.(clients := f.clients + {client})
    case ClientLeft(client) => StopClient(f, client).(clients := f.clients - {client})
    case EraseAnswered(hwId, success) =>
      if hwId in f.erasing
      then f.(objects := if success then f.objects - {hwId} else f.objects, erasing := f.erasing - {hwId})
      else f
    case EngineUp => if f.objects == map[] then f else f.(objects := map[], ids := map[], silenced := {})
  }

  /** Every id entry points at an object that carries its key and is not about to be erased. */
  ghost predicate Coherent(f: Fences) {
    forall k :: k in f.ids ==> f.ids[k] in f.objects && f.objects[f.ids[k]].key == k && f.ids[k] !in f.erasing
  }

  /** Every id entry belongs to a registered client. */
  ghost predicate Owned(f: Fences) {
    forall k :: k in f.ids ==> k.client in f.clients
  }

  /** The paused flag of every indexed fence says what the modem does. */
  ghost predicate Agrees(f: Fences) {
    forall k :: k in f.ids && f.ids[k] in f.objects ==>
      (f.objects[f.ids[k]].paused <==> f.ids[k] in f.silenced)
  }

  /** The hardware id is given to no other key and has no erasure under way. */
  ghost predicate Free(f: Fences, key: Key, hwId: nat) {
    hwId !in f.erasing && forall k :: k in f.ids && k != key ==> f.ids[k] != hwId
  }

  /** Saving keeps the maps coherent exactly if the modem hands out a free hardware id. */
  lemma SaveIsCoherentExactly(f: Fences, key: Key, hwId: nat, options: int, info: int)
    requires Coherent(f)
    ensures Coherent(Save(f, key, hwId, options, info)) <==> Free(f, key, hwId)
  {
    var after := Save(f, key, hwId, options, info);
    assert after.ids[key] == hwId;
    if Coherent(after) {
      forall k | k in f.ids && k != key ensures f.ids[k] != hwId {
        assert after.ids[k] == f.ids[k];
      }
    }
  }

  /** Saving keeps all entries owned exactly if the key's client is still registered. */
  lemma SaveIsOwnedExactly(f: Fences, key: Key, hwId: nat, options: int, info: int)
    requires Owned(f)
    ensures Owned(Save(f, key, hwId, options, info)) <==> key.client in f.clients
  {
    assert key in Save(f, key, hwId, options, info).ids;
  }

  lemma StopIsCoherent(f: Fences, client: nat)
    requires Coherent(f)
    ensures Coherent(StopClient(f, client))
  {
    forall k, gone | k in f.ids && k.client != client && gone in KeysOf(f, client)
      ensures f.ids[k] != f.ids[gone]
    {
      assert f.objects[f.ids[k]].key == k && f.objects[f.ids[gone]].key == gone;
    }
  }

  predicate Saves(e: Event) {
    e.Added? || e.Restored?
  }

  function SavedKey(e: Event): Key
    requires Saves(e)
  {
    if e.Added? then e.key else e.fence.key
  }

  /** Any answer but a saved fence under a taken hardware id keeps the maps coherent, and that one never does. */
  lemma StepIsCoherentExactly(f: Fences, e: Event)
    requires Coherent(f)
    ensures Coherent(Step(f, e)) <==> (Saves(e) ==> Free(f, SavedKey(e), e.hwId))
  {
    match e
    case Added(key, hwId, options, info) =>
      SaveIsCoherentExactly(f, key, hwId, options, info);
    case Restored(fence, hwId) =>
      SaveIsCoherentExactly(f, fence.key, hwId, fence.options, fence.info);
    case ClientLeft(client) =>
      StopIsCoherent(f, client);
    case _ =>
  }

  /** Any event but a fence saved for a client that has left keeps all entries owned, and that one never does. */
  lemma StepIsOwnedExactly(f: Fences, e: Event)
    requires Owned(f)
    ensures Owned(Step(f, e)) <==> (Saves(e) ==> SavedKey(e).client in f.clients)
  {
    match e
    case Added(key, hwId, options, info) =>
      SaveIsOwnedExactly(f, key, hwId, options, info);
    case Restored(fence, hwId) =>
      SaveIsOwnedExactly(f, fence.key, hwId, fence.options, fence.info);
    case _ =>
  }

  function Run(events: seq<Event>): Fences {
    if events == [] then INITIAL else Step(Run(events[..|events|-1]), events[|events|-1])
  }

  /** Every fence saved along the run has a free hardware id. */
  ghost predicate FreshIds(events: seq<Event>) {
    forall n | 0 <= n < |events| && Saves(events[n]) ::
      Free(Run(events[..n]), SavedKey(events[n]), events[n].hwId)
  }

  /** Over every run with free hardware ids, with any delay of the answers and whoever has left in the meantime:
      every id entry points at an object carrying its key that is not about to be erased. */
  lemma {:induction false} EveryRunIsCoherent(events: seq<Event>)
    requires FreshIds(events)
    ensures Coherent(Run(events))
  {
    if events != [] {
      var n := |events| - 1;
      forall k | 0 <= k < n ensures events[..n][..k] == events[..k] {}
      EveryRunIsCoherent(events[..n]);
      StepIsCoherentExactly(Run(events[..n]), events[n]);
    }
  }

  /** An answer for a client that is not registered any more. */
  predicate IsForTheGone(f: Fences, e: Event) {
    Saves(e) && SavedKey(e).client !in f.clients
  }

  predicate NoneForTheGone(events: seq<Event>) {
    events == []
    || (NoneForTheGone(events[..|events|-1]) && !IsForTheGone(Run(events[..|events|-1]), events[|events|-1]))
  }

  ghost predicate OwnedAllAlong(events: seq<Event>) {
    Owned(Run(events)) && (events == [] || OwnedAllAlong(events[..|events|-1]))
  }

  /** Entries are owned at every moment of a run exactly if no answer of the run comes for a client that has
      left: neither to a late add nor to a fence set up again. */
  lemma {:induction false} EveryRunIsOwnedExactly(events: seq<Event>)
    ensures OwnedAllAlong(events) <==> NoneForTheGone(events)
  {
    if events != [] {
      var before, e := events[..|events|-1], events[|events|-1];
      EveryRunIsOwnedExactly(before);
      if OwnedAllAlong(before) {
        StepIsOwnedExactly(Run(before), e);
      }
    }
  }

  /** An add that is answered after its client has left: coherent, and owned by nobody. */
  lemma LateAddIsCoherent()
    ensures var s := Run([ClientCame(1), ClientLeft(1), Added(Key(1, 7), 3, 0, 0)]);
            Coherent(s) && s.ids == map[Key(1, 7) := 3] && !Owned(s)
  {
    var came, left := [ClientCame(1)], [ClientCame(1), ClientLeft(1)];
    var es := left + [Added(Key(1, 7), 3, 0, 0)];
    assert es == [ClientCame(1), ClientLeft(1), Added(Key(1, 7), 3, 0, 0)];
    assert es[..2] == left && left[..1] == came && came[..0] == [];
    assert Run(came) == Step(INITIAL, ClientCame(1));
    assert KeysOf(Run(came), 1) == {};
    assert Run(left) == Step(Run(came), ClientLeft(1));
    assert Run(left).ids == map[] && Run(left).erasing == {};
    assert Key(1, 7) in Run(es).ids;
  }

  /** The adapter and the modem agree on what is paused through every event but one: they agree after a fence
      was set up again exactly if it was not paused. */
  lemma PauseIsForgottenExactly(f: Fences, e: Event)
    requires Coherent(f) && Agrees(f)
    requires Saves(e) ==> Free(f, SavedKey(e), e.hwId)
    ensures Agrees(Step(f, e)) <==> !(e.Restored? && e.fence.paused)
  {
    var after := Step(f, e);
    if e.Restored? && e.fence.paused {
      assert after.ids[e.fence.key] == e.hwId && !after.objects[e.hwId].paused;
    } else {
      forall k | k in after.ids && after.ids[k] in after.objects
        ensures after.objects[after.ids[k]].paused <==> after.ids[k] in after.silenced
      {
        if Saves(e) && k == SavedKey(e) {
        } else {
          assert k in f.ids && after.ids[k] == f.ids[k];
        }
      }
    }
  }

  /** A fence is paused and the modem restarts: the modem pauses the fence again, but the adapter takes it for
      a running one, so that the next restart would leave it running. */
  lemma RestartForgetsThePause(client: nat, id: nat)
    ensures var key := Key(client, id);
            var paused := Step(Step(Step(INITIAL, ClientCame(client)), Added(key, 1, 0, 0)), PauseAnswered(1));
            && paused.objects == map[1 := Fence(key, 0, 0, true)] && Agrees(paused)
            && var back := Step(Step(paused, EngineUp), Restored(paused.objects[1], 2));
               back.silenced == {2} && back.objects == map[2 := Fence(key, 0, 0, false)] && !Agrees(back)
  {
    var key := Key(client, id);
    var paused := Step(Step(Step(INITIAL, ClientCame(client)), Added(key, 1, 0, 0)), PauseAnswered(1));
    assert paused.ids == map[key := 1] && 1 in paused.objects;
    var back := Step(Step(paused, EngineUp), Restored(paused.objects[1], 2));
    assert back.ids[key] == 2 && !back.objects[2].paused;
  }

  // ---------------------------------------------------------------- what one answer does

  /** What the adapter knows of a hardware id. */
  predicate Knows(f: Fences, hwId: nat, fence: Fence) {
    hwId in f.objects && f.objects[hwId] == fence
  }

  /** A new fence is entered under its hardware id and its key, not paused, and touches no other. */
  lemma AddIsExact(f: Fences, key: Key, hwId: nat, options: int, info: int)
    ensures var g := Step(f, Added(key, hwId, options, info));
            && Knows(g, hwId, Fence(key, options, info, false))
            && key in g.ids && g.ids[key] == hwId
            && (forall h, fence :: h != hwId ==> (Knows(g, h, fence) <==> Knows(f, h, fence)))
            && (forall k :: k != key ==> (k in g.ids <==> k in f.ids) && (k in f.ids ==> g.ids[k] == f.ids[k]))
  {
  }

  /** A removed fence is gone from both maps, and no other is touched. */
  lemma RemoveIsExact(f: Fences, key: Key)
    requires Coherent(f) && key in f.ids
    ensures var hwId := f.ids[key];
            var g := Step(f, RemoveAnswered(hwId));
            && hwId !in g.objects && key !in g.ids
            && (forall h, fence :: h != hwId ==> (Knows(g, h, fence) <==> Knows(f, h, fence)))
            && (forall k :: k != key ==> (k in g.ids <==> k in f.ids) && (k in f.ids ==> g.ids[k] == f.ids[k]))
  {
  }

  /** A paused, resumed or modified fence has the new state and is otherwise as it was, like all others. */
  lemma ChangesAreExact(f: Fences, hwId: nat, fence: Fence, options: int)
    requires Knows(f, hwId, fence)
    ensures Knows(Step(f, PauseAnswered(hwId)), hwId, Fence(fence.key, fence.options, fence.info, true))
    ensures Knows(Step(f, ResumeAnswered(hwId)), hwId, Fence(fence.key, fence.options, fence.info, false))
    ensures Knows(Step(f, ModifyAnswered(hwId, options)), hwId, Fence(fence.key, options, fence.info, fence.paused))
    ensures OthersUntouched(f, Step(f, PauseAnswered(hwId)), hwId)
    ensures OthersUntouched(f, Step(f, ResumeAnswered(hwId)), hwId)
    ensures OthersUntouched(f, Step(f, ModifyAnswered(hwId, options)), hwId)
  {
  }

  /** All ids stay, and what is known of every hardware id but one. */
  ghost predicate OthersUntouched(f: Fences, g: Fences, hwId: nat) {
    g.ids == f.ids && forall h, fence :: h != hwId ==> (Knows(g, h, fence) <==> Knows(f, h, fence))
  }

  /** The answer to a requested removal: a success takes exactly that fence, a failure leaves it, and either way the
      removal is not waited for any more; an answer that nobody waits for does nothing. */
  lemma ErasureIsExact(f: Fences, hwId: nat, success: bool)
    ensures var g := Step(f, EraseAnswered(hwId, success));
            && g.ids == f.ids && g.clients == f.clients
            && (hwId in g.objects <==> hwId in f.objects && !(success && hwId in f.erasing))
            && (forall h, fence :: h != hwId || hwId in g.objects ==> (Knows(g, h, fence) <==> Knows(f, h, fence)))
            && (forall h :: h in g.erasing <==> h in f.erasing && h != hwId)
  {
  }

  /** A modem restart forgets all fences and what was paused, but neither the clients nor the removals waited for. */
  lemma EngineUpIsExact(f: Fences)
    requires Coherent(f)
    ensures var g := Step(f, EngineUp);
            && g.objects == map[] && g.ids == map[] && (f.objects != map[] ==> g.silenced == {})
            && g.clients == f.clients && g.erasing == f.erasing
  {
    if f.objects == map[] {
      assert forall k :: k in f.ids ==> f.ids[k] in f.objects;
      assert f.ids.Keys == {};
    }
  }

  /** The client came and has not left since. */
  predicate IsHere(events: seq<Event>, client: nat) {
    events != []
    && (var e := events[|events|-1];
        if e == ClientCame(client) then true
        else if e == ClientLeft(client) then false
        else IsHere(events[..|events|-1], client))
  }

  /** Over every run, exactly the clients that came and have not left since are registered. */
  lemma {:induction false} RegisteredExactly(events: seq<Event>, client: nat)
    ensures client in Run(events).clients <==> IsHere(events, client)
  {
    if events != [] {
      RegisteredExactly(events[..|events|-1], client);
    }
  }

  /** An id of the client stands for this hardware id. */
  ghost predicate IsOfClient(f: Fences, client: nat, hwId: nat) {
    exists k :: k in f.ids && k.client == client && f.ids[k] == hwId
  }

  /** A client that leaves has exactly its own ids erased and exactly their hardware ids requested to be removed;
      objects stay until the modem answers. */
  lemma LeavingIsExact(f: Fences, client: nat)
    ensures var g := Step(f, ClientLeft(client));
            && g.objects == f.objects && client !in g.clients
            && (forall k :: k in g.ids <==> k in f.ids && k.client != client)
            && (forall k :: k in g.ids ==> g.ids[k] == f.ids[k])
            && (forall h :: h in g.erasing <==> h in f.erasing || IsOfClient(f, client, h))
  {
    forall h | h in Step(f, ClientLeft(client)).erasing && h !in f.erasing
      ensures IsOfClient(f, client, h)
    {
      var k :| k in KeysOf(f, client) && f.ids[k] == h;
    }
    forall k | k in f.ids && k.client == client ensures f.ids[k] in Step(f, ClientLeft(client)).erasing {
      assert k in KeysOf(f, client);
    }
  }

  /** The answers to the requested removals, all of them successful. */
  function EraseAll(f: Fences, hwIds: seq<nat>): Fences {
    if hwIds == [] then f
    else Step(EraseAll(f, hwIds[..|hwIds|-1]), EraseAnswered(hwIds[|hwIds|-1], true))
  }

  lemma {:induction false} EraseAllErases(f: Fences, hwIds: seq<nat>, h: nat)
    ensures h in EraseAll(f, hwIds).objects <==> h in f.objects && !(h in hwIds && h in f.erasing)
    ensures h in EraseAll(f, hwIds).objects ==> EraseAll(f, hwIds).objects[h] == f.objects[h]
    ensures h in EraseAll(f, hwIds).erasing <==> h in f.erasing && h !in hwIds
  {
    if hwIds != [] {
      var n := |hwIds| - 1;
      EraseAllErases(f, hwIds[..n], h);
      EraseAllErases(f, hwIds[..n], hwIds[n]);
      assert hwIds == hwIds[..n] + [hwIds[n]];
    }
  }

  /** Once the modem has answered every removal, in any order: exactly the fences that an id of the client stood
      for are gone, and everything else is as it was. */
  lemma LeavingIsCompleted(f: Fences, client: nat, answers: seq<nat>, h: nat)
    requires Coherent(f)
    requires forall k :: k in f.ids && k.client == client ==> f.ids[k] in answers
    requires forall a :: a in answers ==> a !in f.erasing
    ensures var g := EraseAll(Step(f, ClientLeft(client)), answers);
            && (h in g.objects <==> h in f.objects && !IsOfClient(f, client, h))
            && (h in g.objects ==> g.objects[h] == f.objects[h])
            && g.ids.Keys == set k | k in f.ids && k.client != client
  {
    LeavingIsExact(f, client);
    EraseAllErases(Step(f, ClientLeft(client)), answers, h);
    EraseAllKeepsIds(Step(f, ClientLeft(client)), answers);
  }

  lemma {:induction false} EraseAllKeepsIds(f: Fences, hwIds: seq<nat>)
    ensures EraseAll(f, hwIds).ids == f.ids
  {
    if hwIds != [] {
      EraseAllKeepsIds(f, hwIds[..|hwIds|-1]);
    }
  }

  // ---------------------------------------------------------------- setting up again after a restart

  /** The answers of the modem to `fences`, one hardware id each. */
  function RestoreAll(f: Fences, fences: seq<Fence>, hwIds: seq<nat>): Fences
    requires |fences| == |hwIds|
  {
    if fences == [] then f
    else
      var n := |fences| - 1;
      Step(RestoreAll(f, fences[..n], hwIds[..n]), Restored(fences[n], hwIds[n]))
  }

  ghost predicate Distinct(hwIds: seq<nat>) {
    forall i, j :: 0 <= i < j < |hwIds| ==> hwIds[i] != hwIds[j]
  }

  function KeySet(fences: seq<Fence>): set<Key> {
    set o | o in fences :: o.key
  }

  lemma KeySetOfSnoc(fences: seq<Fence>, last: Fence)
    ensures KeySet(fences + [last]) == KeySet(fences) + {last.key}
  {
    assert forall o :: o in fences + [last] <==> o in fences || o == last;
  }

  lemma {:induction false} RestoredKeys(f: Fences, fences: seq<Fence>, hwIds: seq<nat>)
    requires |fences| == |hwIds| && f.ids == map[]
    ensures RestoreAll(f, fences, hwIds).ids.Keys == KeySet(fences)
  {
    if fences != [] {
      var n := |fences| - 1;
      RestoredKeys(f, fences[..n], hwIds[..n]);
      KeySetOfSnoc(fences[..n], fences[n]);
      assert fences == fences[..n] + [fences[n]];
    }
  }

  lemma {:induction false} RestoredObjects(f: Fences, fences: seq<Fence>, hwIds: seq<nat>)
    requires |fences| == |hwIds| && Distinct(hwIds) && f.objects == map[]
    ensures var after := RestoreAll(f, fences, hwIds);
            && (forall h :: h in after.objects <==> h in hwIds)
            && (forall i :: 0 <= i < |fences| ==> after.objects[hwIds[i]] == fences[i].(paused := false))
  {
    if fences != [] {
      var n := |fences| - 1;
      RestoredObjects(f, fences[..n], hwIds[..n]);
      assert hwIds == hwIds[..n] + [hwIds[n]];
    }
  }

  /** An object without an id entry: its client left, or its answer never came. */
  ghost predicate NoOrphans(f: Fences) {
    forall h :: h in f.objects ==> f.objects[h].key in f.ids
  }

  /** After a restart in which the modem takes every fence again, each under its own hardware id, every old
      object is back with all it was but the pause; the clients' ids are the same as before exactly if no
      object was left over from a client that had gone. */
  lemma RestartRestoresExactly(f: Fences, fences: seq<Fence>, hwIds: seq<nat>)
    requires Coherent(f) && |fences| == |hwIds| && Distinct(hwIds)
    requires forall o :: o in fences <==> o in f.objects.Values
    ensures var after := RestoreAll(Step(f, EngineUp), fences, hwIds);
            && (forall i :: 0 <= i < |fences| ==> hwIds[i] in after.objects)
            && (forall i :: 0 <= i < |fences| ==> after.objects[hwIds[i]] == fences[i].(paused := false))
            && (after.ids.Keys == f.ids.Keys <==> NoOrphans(f))
  {
    var up := Step(f, EngineUp);
    assert f.ids == map[] || f.objects != map[] by {
      if f.objects == map[] {
        assert forall k :: k in f.ids ==> f.ids[k] in f.objects;
        assert f.ids.Keys == {};
      }
    }
    assert up.objects == map[] && up.ids == map[];
    RestoredObjects(up, fences, hwIds);
    RestoredKeys(up, fences, hwIds);
    forall k ensures k in KeySet(fences) <==> exists h :: h in f.objects && f.objects[h].key == k {
      if k in KeySet(fences) {
        var o :| o in fences && o.key == k;
        assert o in f.objects.Values;
      }
      if h :| h in f.objects && f.objects[h].key == k {
        assert f.objects[h] in f.objects.Values;
      }
    }
    KeysOfObjects(f, KeySet(fences));
  }

  lemma KeysOfObjects(f: Fences, keys: set<Key>)
    requires Coherent(f)
    requires forall k :: k in keys <==> exists h :: h in f.objects && f.objects[h].key == k
    ensures keys == f.ids.Keys <==> NoOrphans(f)
  {
    forall k | k in f.ids ensures k in keys {
      assert f.objects[f.ids[k]].key == k;
    }
    if NoOrphans(f) {
      assert keys == f.ids.Keys;
    } else {
      var h :| h in f.objects && f.objects[h].key !in f.ids;
      assert f.objects[h].key in keys;
    }
  }

  /** A client leaves while its fence is still being removed and the modem restarts before it answers: the
      fence comes back although nobody owns it. */
  lemma RestartBringsBackTheGone(client: nat, id: nat, options: int, info: int)
    ensures var key := Key(client, id);
            var left := Step(Step(Step(INITIAL, ClientCame(client)), Added(key, 1, options, info)), ClientLeft(client));
            var back := Step(Step(left, EngineUp), Restored(Fence(key, options, info, false), 2));
            left.ids == map[] && client !in left.clients && back.ids == map[key := 2] && client !in back.clients
  {
    var key := Key(client, id);
    var saved := Step(Step(INITIAL, ClientCame(client)), Added(key, 1, options, info));
    assert KeysOf(saved, client) == {key};
    var left := Step(saved, ClientLeft(client));
    assert 1 in left.objects;
  }

  // ---------------------------------------------------------------- breaches

  predicate Hits(objects: map<nat, Fence>, hwId: nat, client: nat) {
    hwId in objects && objects[hwId].key.client == client
  }

  /** The fence ids a client is told of. */
  function Delivered(objects: map<nat, Fence>, hwIds: seq<nat>, client: nat): seq<nat> {
    if hwIds == [] then []
    else
      var n := |hwIds| - 1;
      Delivered(objects, hwIds[..n], client)
      + if Hits(objects, hwIds[n], client) then [objects[hwIds[n]].key.id] else []
  }

  /** How many of the breached fences are the client's. */
  function Rank(objects: map<nat, Fence>, hwIds: seq<nat>, client: nat): nat {
    if hwIds == [] then 0
    else Rank(objects, hwIds[..|hwIds|-1], client) + if Hits(objects, hwIds[|hwIds|-1], client) then 1 else 0
  }

  /** Every known breached fence is told to its own client, at the place it has among that client's breached
      fences, and nothing else is told. */
  lemma {:induction false} BreachReachesTheOwner(objects: map<nat, Fence>, hwIds: seq<nat>, client: nat, i: nat)
    requires i < |hwIds|
    ensures |Delivered(objects, hwIds, client)| == Rank(objects, hwIds, client)
    ensures Hits(objects, hwIds[i], client) ==>
              Rank(objects, hwIds[..i], client) < Rank(objects, hwIds, client)
              && Delivered(objects, hwIds, client)[Rank(objects, hwIds[..i], client)] == objects[hwIds[i]].key.id
    decreases |hwIds|
  {
    var n := |hwIds| - 1;
    if i < n {
      BreachReachesTheOwner(objects, hwIds[..n], client, i);
      assert hwIds[..n][..i] == hwIds[..i];
    } else if n > 0 {
      BreachReachesTheOwner(objects, hwIds[..n], client, 0);
    }
  }

  /** A registered client, and whether it takes breach notifications. */
  datatype Client = Client(id: nat, takesBreaches: bool)

  datatype Notice = Notice(client: nat, ids: seq<nat>)

  /** The notifications sent out, client by client. */
  function Told(objects: map<nat, Fence>, hwIds: seq<nat>, clients: seq<Client>): seq<Notice> {
    if clients == [] then []
    else
      var c := clients[|clients|-1];
      var ids := Delivered(objects, hwIds, c.id);
      Told(objects, hwIds, clients[..|clients|-1]) + if ids != [] && c.takesBreaches then [Notice(c.id, ids)] else []
  }

  /** A client is notified exactly if it takes breaches and one of its fences is breached, and then of all of
      them in one notification. */
  lemma {:induction false} ToldExactly(objects: map<nat, Fence>, hwIds: seq<nat>, clients: seq<Client>, notice: Notice)
    ensures notice in Told(objects, hwIds, clients) <==>
            Client(notice.client, true) in clients && notice.ids != []
            && notice.ids == Delivered(objects, hwIds, notice.client)
  {
    if clients != [] {
      var before, c := clients[..|clients|-1], clients[|clients|-1];
      ToldExactly(objects, hwIds, before, notice);
      assert clients == before + [c];
    }
  }
}
