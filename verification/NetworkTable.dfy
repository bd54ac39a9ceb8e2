/** The table of connected networks that network reports carry on: up to ten handles, compacted by moving the last
    one into a gap, and a mask of the types still connected, as a set of bit positions.
 */
module NetworkTable {

  const MAX_HANDLES := 10
  const HANDLE_UNKNOWN := 0xFFFF_FFFF_FFFF_FFFF
  const TYPE_MOBILE := 0
  const TYPE_UNKNOWN := 10

  datatype Slot = Slot(handle: nat, kind: int)

  const BLANK := Slot(HANDLE_UNKNOWN, TYPE_UNKNOWN)

  datatype Info = Info(table: seq<Slot>, allTypes: set<int>, kind: int, connected: bool, handle: nat, apn: string)

  predicate HasBit(kind: int) {
    TYPE_MOBILE <= kind < TYPE_UNKNOWN
  }

  function TypeBits(kind: int): set<int> {
    if HasBit(kind) then {kind} else {}
  }

  // ---------------------------------------------------------------- scanning the table

  /** The first slot that holds the handle or is free, or the length of the table. */
  function Scan(t: seq<Slot>, handle: nat): (k: nat)
    ensures k <= |t|
    ensures k < |t| ==> t[k].handle == handle || t[k].handle == HANDLE_UNKNOWN
    ensures forall i :: 0 <= i < k ==> t[i].handle != handle && t[i].handle != HANDLE_UNKNOWN
  {
    if t == [] || t[0].handle == handle || t[0].handle == HANDLE_UNKNOWN then 0
    else
      var k := Scan(t[1..], handle);
      assert forall i :: 1 <= i < k + 1 ==> t[i] == t[1..][i - 1];
      k + 1
  }

  function Filled(t: seq<Slot>): nat {
    Scan(t, HANDLE_UNKNOWN)
  }

  function Connect(t: seq<Slot>, handle: nat, kind: int): seq<Slot> {
    var k := Scan(t, handle);
    if k < |t| && t[k].handle != handle then t[k := Slot(handle, kind)] else t
  }

  /** The last filled slot with this handle and type, or the length of the table. */
  function FindLast(t: seq<Slot>, n: nat, s: Slot): (k: nat)
    requires n <= |t|
    ensures k == |t| || (k < n && t[k] == s)
    ensures k == |t| ==> forall i :: 0 <= i < n ==> t[i] != s
  {
    if n == 0 then |t| else if t[n - 1] == s then n - 1 else FindLast(t, n - 1, s)
  }

  /** How many other handles of this type are filled in. */
  function Others(t: seq<Slot>, n: nat, s: Slot): (k: nat)
    requires n <= |t|
    ensures k == 0 <==> forall i :: 0 <= i < n ==> t[i].kind != s.kind || t[i].handle == s.handle
  {
    if n == 0 then 0
    else Others(t, n - 1, s) + if t[n - 1].kind == s.kind && t[n - 1].handle != s.handle then 1 else 0
  }

  function Disconnect(t: seq<Slot>, s: Slot): seq<Slot> {
    var n := Filled(t);
    var k := FindLast(t, n, s);
    if k == |t| then t else t[k := t[n - 1]][n - 1 := BLANK]
  }

  /** The report after it has been collated with the current one. */
  function Collate(item: Info, cur: Info): Info {
    var apn := if item.kind != TYPE_MOBILE && cur.apn != "" then cur.apn else item.apn;
    var s := Slot(item.handle, item.kind);
    if item.connected then
      item.(apn := apn, table := Connect(cur.table, item.handle, item.kind), allTypes := item.allTypes + cur.allTypes)
    else if item.allTypes != {} then
      item.(apn := apn, table := Disconnect(cur.table, s),
            allTypes := if Others(cur.table, Filled(cur.table), s) == 0 then cur.allTypes - item.allTypes
                        else item.allTypes)
    else item.(apn := apn, table := cur.table)
  }

  // ---------------------------------------------------------------- the table as a set

  /** Ten slots, filled from the front, with distinct handles. */
  ghost predicate WellFormed(t: seq<Slot>) {
    && |t| == MAX_HANDLES
    && (forall i :: Filled(t) <= i < |t| ==> t[i].handle == HANDLE_UNKNOWN)
    && (forall i, j :: 0 <= i < j < Filled(t) ==> t[i].handle != t[j].handle)
  }

  function Entries(t: seq<Slot>): set<Slot> {
    set i | 0 <= i < |t| && t[i].handle != HANDLE_UNKNOWN :: t[i]
  }

  function Types(t: seq<Slot>): set<int> {
    set i | 0 <= i < |t| && t[i].handle != HANDLE_UNKNOWN && HasBit(t[i].kind) :: t[i].kind
  }

  predicate HasHandle(t: seq<Slot>, handle: nat) {
    exists i :: 0 <= i < |t| && t[i].handle != HANDLE_UNKNOWN && t[i].handle == handle
  }

  /** There is a free slot, and the handle is a real one not yet in the table. */
  predicate Inserts(t: seq<Slot>, handle: nat) {
    handle != HANDLE_UNKNOWN && !HasHandle(t, handle) && Filled(t) < |t|
  }

  lemma FilledIs(t: seq<Slot>, n: nat)
    requires n <= |t|
    requires forall i :: 0 <= i < n ==> t[i].handle != HANDLE_UNKNOWN
    requires n < |t| ==> t[n].handle == HANDLE_UNKNOWN
    ensures Filled(t) == n
  {
  }

  /** Connecting inserts a new handle when there is room, and changes nothing otherwise. */
  lemma ConnectRefinesInsert(t: seq<Slot>, handle: nat, kind: int)
    requires WellFormed(t)
    ensures WellFormed(Connect(t, handle, kind))
    ensures Entries(Connect(t, handle, kind)) == Entries(t) + (if Inserts(t, handle) then {Slot(handle, kind)} else {})
  {
    var k := Scan(t, handle);
    var n := Filled(t);
    var u := Connect(t, handle, kind);
    if Inserts(t, handle) {
      assert k == n;
      if n + 1 < |t| {
        assert t[n + 1].handle == HANDLE_UNKNOWN;
      }
      FilledIs(u, n + 1);
      forall s ensures s in Entries(u) <==> s in Entries(t) + {Slot(handle, kind)} {
        if s in Entries(t) {
          var i :| 0 <= i < |t| && t[i].handle != HANDLE_UNKNOWN && t[i] == s;
          assert u[i] == s;
        }
        assert u[n] == Slot(handle, kind);
      }
    } else {
      assert Entries(t) + {} == Entries(t);
    }
  }

  /** Disconnecting removes exactly the entry with this handle and this type. */
  lemma DisconnectRefinesDelete(t: seq<Slot>, s: Slot)
    requires WellFormed(t)
    ensures WellFormed(Disconnect(t, s))
    ensures Entries(Disconnect(t, s)) == Entries(t) - {s}
  {
    var n := Filled(t);
    var k := FindLast(t, n, s);
    var u := Disconnect(t, s);
    if k == |t| {
      assert s !in Entries(t);
    } else {
      FilledIs(u, n - 1);
      forall e ensures e in Entries(u) <==> e in Entries(t) - {s} {
        if e in Entries(t) - {s} {
          var i :| 0 <= i < |t| && t[i].handle != HANDLE_UNKNOWN && t[i] == e;
          assert i < n && i != k;
          assert if i == n - 1 then u[k] == e else u[i] == e;
        }
        if e in Entries(u) {
          var i :| 0 <= i < |u| && u[i].handle != HANDLE_UNKNOWN && u[i] == e;
          assert i < n - 1;
          assert e == t[if i == k then n - 1 else i];
        }
      }
    }
  }

  /** What a collated report keeps of itself, and what it takes over: it says the same of its own network, its
      access point gives way to the known one unless the network is mobile, and a lost network of no known type
      leaves the table alone and the mask empty. */
  lemma CollateKeepsItself(item: Info, cur: Info)
    ensures var c := Collate(item, cur);
            && c.kind == item.kind && c.connected == item.connected && c.handle == item.handle
            && c.apn in {item.apn, cur.apn}
            && (c.apn != item.apn ==> item.kind != TYPE_MOBILE)
            && (item.kind != TYPE_MOBILE && cur.apn != "" ==> c.apn == cur.apn)
            && (cur.apn == "" ==> c.apn == item.apn)
            && (!item.connected && item.allTypes == {} ==> c.table == cur.table && c.allTypes == {})
  {
  }

  // ---------------------------------------------------------------- the mask of connected types

  /** The mask tells exactly the types that have a handle in the table. */
  ghost predicate MaskTells(x: Info) {
    x.allTypes == Types(x.table)
  }

  lemma TypesOfEntries(t: seq<Slot>)
    ensures forall k :: k in Types(t) <==> HasBit(k) && exists s :: s in Entries(t) && s.kind == k
  {
    forall k ensures k in Types(t) <==> HasBit(k) && exists s :: s in Entries(t) && s.kind == k {
      if k in Types(t) {
        var i :| 0 <= i < |t| && t[i].handle != HANDLE_UNKNOWN && HasBit(t[i].kind) && t[i].kind == k;
        assert t[i] in Entries(t);
      }
      if s :| s in Entries(t) && s.kind == k {
        var i :| 0 <= i < |t| && t[i].handle != HANDLE_UNKNOWN && t[i] == s;
      }
    }
  }

  /** When a disconnect leaves other handles of its type, and when it does not. */
  lemma OthersLeft(t: seq<Slot>, s: Slot)
    requires WellFormed(t)
    ensures Others(t, Filled(t), s) == 0 <==> forall e :: e in Entries(t) - {s} ==> e.kind != s.kind
  {
    var n := Filled(t);
    forall e | Others(t, n, s) == 0 && e in Entries(t) - {s} ensures e.kind != s.kind {
      var i :| 0 <= i < |t| && t[i].handle != HANDLE_UNKNOWN && t[i] == e;
      assert i < n;
    }
    if Others(t, n, s) != 0 {
      var i :| 0 <= i < n && t[i].kind == s.kind && t[i].handle != s.handle;
      assert t[i] in Entries(t) - {s};
    }
  }

  /** When the last handle of a type goes, exactly the type's own bit leaves the mask. */
  lemma LastHandleClearsItsType(item: Info, cur: Info)
    requires WellFormed(cur.table) && !item.connected && item.allTypes == TypeBits(item.kind) != {}
    requires forall e :: e in Entries(cur.table) - {Slot(item.handle, item.kind)} ==> e.kind != item.kind
    ensures Collate(item, cur).allTypes == cur.allTypes - {item.kind}
    ensures MaskTells(cur) ==> MaskTells(Collate(item, cur))
  {
    var s := Slot(item.handle, item.kind);
    OthersLeft(cur.table, s);
    DisconnectRefinesDelete(cur.table, s);
    TypesOfEntries(cur.table);
    TypesOfEntries(Disconnect(cur.table, s));
    if MaskTells(cur) {
      assert Types(Disconnect(cur.table, s)) == cur.allTypes - {item.kind};
    }
  }

  /** What a report must be for the mask to stay true: a connect has to have its type in the table
      afterwards; a disconnect must be the last of its type, or its type the only one left. */
  ghost predicate KeepsMask(item: Info, cur: Info) {
    if item.connected then
      HasBit(item.kind) ==> item.kind in Types(cur.table) || Inserts(cur.table, item.handle)
    else if HasBit(item.kind) then
      || (forall e :: e in Entries(cur.table) - {Slot(item.handle, item.kind)} ==> e.kind != item.kind)
      || Types(cur.table) == {item.kind}
    else Types(cur.table) == {}
  }

  lemma ConnectKeepsMaskExactly(item: Info, cur: Info)
    requires WellFormed(cur.table) && MaskTells(cur) && item.connected && item.allTypes == TypeBits(item.kind)
    ensures MaskTells(Collate(item, cur)) <==> KeepsMask(item, cur)
  {
    var u := Connect(cur.table, item.handle, item.kind);
    ConnectRefinesInsert(cur.table, item.handle, item.kind);
    TypesOfEntries(cur.table);
    TypesOfEntries(u);
    if KeepsMask(item, cur) {
      if Inserts(cur.table, item.handle) {
        assert Slot(item.handle, item.kind) in Entries(u);
      }
      assert Types(u) == item.allTypes + cur.allTypes;
    } else {
      assert item.kind in item.allTypes + cur.allTypes && item.kind !in Types(u);
    }
  }

  lemma DisconnectKeepsMaskExactly(item: Info, cur: Info)
    requires WellFormed(cur.table) && MaskTells(cur) && !item.connected && item.allTypes == TypeBits(item.kind)
    ensures MaskTells(Collate(item, cur)) <==> KeepsMask(item, cur)
  {
    var s := Slot(item.handle, item.kind);
    if HasBit(item.kind) {
      OthersLeft(cur.table, s);
      if Others(cur.table, Filled(cur.table), s) == 0 {
        LastHandleClearsItsType(item, cur);
      } else {
        OthersKeepTheTypes(cur.table, s);
      }
    }
  }

  /** With another handle of its type left, a disconnect changes nothing about the types. */
  lemma OthersKeepTheTypes(t: seq<Slot>, s: Slot)
    requires WellFormed(t) && Others(t, Filled(t), s) != 0
    ensures Types(Disconnect(t, s)) == Types(t)
  {
    OthersLeft(t, s);
    DisconnectRefinesDelete(t, s);
    TypesOfEntries(t);
    TypesOfEntries(Disconnect(t, s));
    var e :| e in Entries(t) - {s} && e.kind == s.kind;
    forall k ensures k in Types(Disconnect(t, s)) <==> k in Types(t) {
      if k in Types(t) {
        var f :| f in Entries(t) && f.kind == k;
        assert (if f == s then e else f) in Entries(Disconnect(t, s));
      }
    }
  }

  /** Exactly when a report keeps the mask true to the table. */
  lemma CollateKeepsMaskExactly(item: Info, cur: Info)
    requires WellFormed(cur.table) && MaskTells(cur) && item.allTypes == TypeBits(item.kind)
    ensures WellFormed(Collate(item, cur).table)
    ensures MaskTells(Collate(item, cur)) <==> KeepsMask(item, cur)
  {
    ConnectRefinesInsert(cur.table, item.handle, item.kind);
    DisconnectRefinesDelete(cur.table, Slot(item.handle, item.kind));
    if item.connected {
      ConnectKeepsMaskExactly(item, cur);
    } else {
      DisconnectKeepsMaskExactly(item, cur);
    }
  }

  /** When one of several handles of a type goes, the mask is left with that type alone: every other type is
      forgotten, although its handles are still in the table. */
  lemma OneOfSeveralForgetsTheRest(item: Info, cur: Info)
    requires WellFormed(cur.table) && !item.connected && item.allTypes == TypeBits(item.kind) != {}
    requires exists e :: e in Entries(cur.table) - {Slot(item.handle, item.kind)} && e.kind == item.kind
    ensures Collate(item, cur).allTypes == {item.kind}
    ensures Entries(Collate(item, cur).table) == Entries(cur.table) - {Slot(item.handle, item.kind)}
  {
    OthersLeft(cur.table, Slot(item.handle, item.kind));
    DisconnectRefinesDelete(cur.table, Slot(item.handle, item.kind));
  }
}
