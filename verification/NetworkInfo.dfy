/** The network report in its own form: a fixed array of handles, copied from the current report and
    then rewritten in place.
 */
module NetworkInfo {
  import opened NetworkTable

  /** The data item that the framework handed in. */
  class NetworkInfoDataItem {
    const handles: array<Slot>
    var allTypes: set<int>

    constructor (kind: int, handle: nat)
      ensures fresh(handles) && handles.Length == MAX_HANDLES
      ensures handles[..] == [Slot(handle, kind)] + seq(MAX_HANDLES - 1, _ => BLANK) && allTypes == TypeBits(kind)
    {
      allTypes := TypeBits(kind);
      handles := new Slot[MAX_HANDLES](i => if i == 0 then Slot(handle, kind) else BLANK);
    }
  }

  class SystemStatusNetworkInfo {
    const handles: array<Slot>
    /** The data item this report was made from, if any: it is kept up to date with the report. */
    const source: NetworkInfoDataItem?
    var allTypes: set<int>
    const kind: int
    const connected: bool
    const handle: nat
    var apn: string

    predicate Valid() {
      && handles.Length == MAX_HANDLES
      && (source != null ==> source.handles.Length == MAX_HANDLES && source.handles != handles)
    }

    function Value(): Info
      reads this, handles
    {
      Info(handles[..], allTypes, kind, connected, handle, apn)
    }

    constructor (kind: int, connected: bool, handle: nat, apn: string, source: NetworkInfoDataItem?)
      requires source != null ==> source.handles.Length == MAX_HANDLES
      ensures Valid() && fresh(handles) && this.source == source
      ensures Value() == Info([Slot(handle, kind)] + seq(MAX_HANDLES - 1, _ => BLANK), TypeBits(kind), kind, connected,
                              handle, apn)
    {
      this.kind, this.connected, this.handle, this.apn, this.source := kind, connected, handle, apn, source;
      this.allTypes := TypeBits(kind);
      handles := new Slot[MAX_HANDLES](i => if i == 0 then Slot(handle, kind) else BLANK);
    }

    static method CopyTable(to: array<Slot>, from: array<Slot>)
      requires to.Length == from.Length && to != from
      modifies to
      ensures to[..] == from[..]
    {
      for i := 0 to from.Length
        invariant to[..i] == from[..i]
      {
        to[i] := from[i];
      }
      assert to[..to.Length] == to[..] && from[..from.Length] == from[..];
    }

    method ConnectHandle()
      modifies handles
      ensures handles[..] == Connect(old(handles[..]), handle, kind)
    {
      var i := 0;
      while i < handles.Length
        invariant i <= handles.Length && handles[..] == old(handles[..])
        invariant Scan(handles[..], handle) == i + Scan(handles[i..], handle)
      {
        assert handles[i..][1..] == handles[i + 1..];
        if handle == handles[i].handle {
          break;
        }
        if handles[i].handle == HANDLE_UNKNOWN {
          assert Scan(handles[..], handle) == i;
          handles[i] := Slot(handle, kind);
          return;
        }
        i := i + 1;
      }
    }

    /** One pass over the filled slots finds the entry to delete and counts the others of its type;
        the last filled slot then moves into the gap. */
    method DisconnectHandle() returns (typeCount: nat)
      modifies handles
      ensures handles[..] == Disconnect(old(handles[..]), Slot(handle, kind))
      ensures typeCount == Others(old(handles[..]), Filled(old(handles[..])), Slot(handle, kind))
    {
      ghost var t := handles[..];
      var deletedIndex := handles.Length;
      var lastValid := 0;
      typeCount := 0;
      while lastValid < handles.Length && handles[lastValid].handle != HANDLE_UNKNOWN
        invariant lastValid <= handles.Length && handles[..] == t
        invariant Filled(t) == lastValid + Filled(t[lastValid..])
        invariant deletedIndex == FindLast(t, lastValid, Slot(handle, kind))
        invariant typeCount == Others(t, lastValid, Slot(handle, kind))
      {
        assert t[lastValid..][1..] == t[lastValid + 1..];
        if kind == handles[lastValid].kind {
          if handle == handles[lastValid].handle {
            deletedIndex := lastValid;
          } else {
            typeCount := typeCount + 1;
          }
        }
        lastValid := lastValid + 1;
      }
      assert Filled(t) == lastValid;
      if lastValid > 0 {
        lastValid := lastValid - 1;
      }
      if deletedIndex != handles.Length {
        handles[deletedIndex] := handles[lastValid];
        handles[lastValid] := BLANK;
      }
    }

    method CollateWith(cur: SystemStatusNetworkInfo)
      requires Valid() && cur.Valid() && cur != this && cur.handles != handles
      requires source != null ==> source.handles != cur.handles
      modifies this, handles, source, if source == null then {} else {source.handles}
      ensures Value() == Collate(old(Value()), old(cur.Value()))
      ensures cur.Value() == old(cur.Value())
      ensures source != null ==> source.handles[..] == Value().table && source.allTypes == Value().allTypes
    {
      var curTypes := cur.allTypes;
      CopyTable(handles, cur.handles);
      if kind != TYPE_MOBILE && cur.apn != "" {
        apn := cur.apn;
      }
      if connected {
        allTypes := allTypes + curTypes;
        ConnectHandle();
      } else if allTypes != {} {
        var typeCount := DisconnectHandle();
        if typeCount == 0 {
          allTypes := curTypes - allTypes;
        }
      }
      if source != null {
        source.allTypes := allTypes;
        CopyTable(source.handles, handles);
      }
    }
  }
}
