/** The geofence adapter in its own form: its two maps, updated in place as answers of the modem arrive.
    Every method is proved to do what the function of Geofences says.
 */
module GeofenceMaps {
  import opened Wrappers
  import opened Geofences

  class GeofenceAdapter {
    var geofences: map<nat, Fence>
    var geofenceIds: map<Key, nat>
    /** The removals requested when clients left, not yet answered. */
    var erasing: set<nat>
    var registered: set<nat>
    ghost var silenced: set<nat>

    ghost function Value(): Fences
      reads this
    {
      Fences(geofences, geofenceIds, erasing, registered, silenced)
    }

    constructor ()
      ensures Value() == INITIAL
    {
      geofences, geofenceIds, erasing, registered, silenced := map[], map[], {}, {}, {};
    }

    method GetHwIdFromClient(client: nat, clientId: nat) returns (hwId: Option<nat>)
      ensures hwId.Some? <==> Key(client, clientId) in geofenceIds
      ensures Coherent(Value()) && hwId.Some? ==>
                hwId.value in geofences && geofences[hwId.value].key == Key(client, clientId)
    {
      var key := Key(client, clientId);
      if key in geofenceIds {
        return Some(geofenceIds[key]);
      }
      return None;
    }

    method GetGeofenceKeyFromHwId(hwId: nat) returns (key: Option<Key>)
      ensures key.Some? <==> hwId in geofences
      ensures key.Some? ==> key.value == geofences[hwId].key
    {
      if hwId in geofences {
        return Some(geofences[hwId].key);
      }
      return None;
    }

    method SaveGeofenceItem(client: nat, clientId: nat, hwId: nat, options: int, info: int)
      modifies this
      ensures Value() == Save(old(Value()), Key(client, clientId), hwId, options, info)
    {
      var key := Key(client, clientId);
      var fence := Fence(key, options, info, false);
      geofences := geofences[hwId := fence];
      geofenceIds := geofenceIds[key := hwId];
    }

    method RemoveGeofenceItem(hwId: nat)
      modifies this
      ensures Value() == RemoveItem(old(Value()), hwId)
    {
      var key := GetGeofenceKeyFromHwId(hwId);
      if key.Some? {
        if key.value in geofenceIds {
          geofenceIds := geofenceIds - {key.value};
          if hwId in geofences {
            geofences := geofences - {hwId};
          }
        }
      }
    }

    method PauseGeofenceItem(hwId: nat)
      modifies this
      ensures Value() == Step(old(Value()), PauseAnswered(hwId))
    {
      if hwId in geofences {
        geofences := geofences[hwId := geofences[hwId].(paused := true)];
      }
      silenced := silenced + {hwId};
    }

    method ResumeGeofenceItem(hwId: nat)
      modifies this
      ensures Value() == Step(old(Value()), ResumeAnswered(hwId))
    {
      if hwId in geofences {
        geofences := geofences[hwId := geofences[hwId].(paused := false)];
      }
      silenced := silenced - {hwId};
    }

    method ModifyGeofenceItem(hwId: nat, options: int)
      modifies this
      ensures Value() == Step(old(Value()), ModifyAnswered(hwId, options))
    {
      if hwId in geofences {
        geofences := geofences[hwId := geofences[hwId].(options := options)];
      }
    }

    method StopClientSessions(client: nat)
      modifies this
      ensures Value() == StopClient(old(Value()), client)
    {
      ghost var was := Value();
      var rest := geofenceIds.Keys;
      ghost var gone: set<Key> := {};
      while rest != {}
        invariant rest <= was.ids.Keys && geofenceIds == was.ids - gone
        invariant gone == KeysOf(was, client) - rest
        invariant erasing == was.erasing + set k | k in gone :: was.ids[k]
        invariant geofences == was.objects && registered == was.clients && silenced == was.silenced
        decreases rest
      {
        ghost var some := SomeMember(rest);
        var key :| key in rest;
        if key.client == client {
          ImageOneMore(was.ids, gone, key);
          erasing := erasing + {geofenceIds[key]};
          geofenceIds := geofenceIds - {key};
          gone := gone + {key};
        }
        rest := rest - {key};
      }
      assert gone == KeysOf(was, client);
    }

    /** Called when the modem answers the removal of a fence whose client had left. */
    method OnErased(hwId: nat, success: bool)
      requires hwId in erasing
      modifies this
      ensures Value() == Step(old(Value()), EraseAnswered(hwId, success))
    {
      if success {
        if hwId in geofences {
          geofences := geofences - {hwId};
        }
      }
      erasing := erasing - {hwId};
    }

    /** Returns the fences requested again, one for each old hardware id in `order`. */
    method RestartGeofences() returns (order: seq<nat>, requests: seq<Fence>)
      modifies this
      ensures Value() == Step(old(Value()), EngineUp)
      ensures Distinct(order) && forall h :: h in order <==> h in old(geofences)
      ensures |requests| == |order|
      ensures forall i :: 0 <= i < |order| ==> order[i] in old(geofences) && requests[i] == old(geofences)[order[i]]
    {
      order, requests := [], [];
      if geofences == map[] {
        return;
      }
      var oldGeofences := geofences;
      geofences, geofenceIds, silenced := map[], map[], {};
      ghost var now := Value();
      var rest := oldGeofences.Keys;
      while rest != {}
        invariant Value() == now
        invariant forall h :: h in oldGeofences <==> h in order || h in rest
        invariant forall i :: 0 <= i < |order| ==> order[i] !in rest
        invariant Distinct(order) && |requests| == |order|
        invariant forall i :: 0 <= i < |order| ==> order[i] in oldGeofences && requests[i] == oldGeofences[order[i]]
        decreases rest
      {
        ghost var some := SomeMember(rest);
        var hwId :| hwId in rest;
        order, requests, rest := order + [hwId], requests + [oldGeofences[hwId]], rest - {hwId};
      }
    }

    method GeofenceBreach(hwIds: seq<nat>, clients: seq<Client>) returns (notices: seq<Notice>)
      ensures notices == Told(geofences, hwIds, clients)
    {
      notices := [];
      var c := 0;
      while c < |clients|
        invariant c <= |clients| && notices == Told(geofences, hwIds, clients[..c])
      {
        var clientIds := new nat[|hwIds|];
        var index, i := 0, 0;
        while i < |hwIds|
          invariant index <= i <= |hwIds|
          invariant clientIds[..index] == Delivered(geofences, hwIds[..i], clients[c].id)
        {
          var key := GetGeofenceKeyFromHwId(hwIds[i]);
          if key.Some? && key.value.client == clients[c].id {
            clientIds[index] := key.value.id;
            index := index + 1;
          }
          i := i + 1;
          assert hwIds[..i][..i - 1] == hwIds[..i - 1];
        }
        assert hwIds[..i] == hwIds;
        if index > 0 && clients[c].takesBreaches {
          notices := notices + [Notice(clients[c].id, clientIds[..index])];
        }
        c := c + 1;
        assert clients[..c][..c - 1] == clients[..c - 1];
      }
      assert clients[..c] == clients;
    }
  }

  lemma ImageOneMore(ids: map<Key, nat>, keys: set<Key>, key: Key)
    requires keys <= ids.Keys && key in ids
    ensures (set k | k in keys + {key} :: ids[k]) == (set k | k in keys :: ids[k]) + {ids[key]}
  {
  }
}
