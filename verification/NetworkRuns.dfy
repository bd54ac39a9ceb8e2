/** The network reports as the status cache keeps them: the first one as it comes, every later one collated with
    the newest cached one, which it replaces unless the two compare equal.
 */
module NetworkRuns {
  import opened Wrappers
  import opened NetworkTable
  import ReportCache

  datatype Report = Report(kind: int, connected: bool, handle: nat, apn: string)

  /** What a report says of itself, before it is collated: its own handle in the first slot. */
  function Fresh(r: Report): Info {
    Info([Slot(r.handle, r.kind)] + seq(MAX_HANDLES - 1, _ => BLANK), TypeBits(r.kind), r.kind, r.connected, r.handle,
         r.apn)
  }

  /** The comparison looks at neither type, handle nor mask of the report itself. */
  predicate SameReport(a: Info, b: Info) {
    a.connected == b.connected && a.table == b.table && a.apn == b.apn
  }

  const NETWORK := ReportCache.Comparison((item, cur) => Collate(item, cur), (a, b) => SameReport(a, b))

  /** The newest cached report after one more. */
  function After(cur: Option<Info>, r: Report): Info {
    if cur.None? then Fresh(r)
    else
      var c := Collate(Fresh(r), cur.value);
      if SameReport(cur.value, c) then cur.value else c
  }

  function Run(reports: seq<Report>): Option<Info> {
    if reports == [] then None else Some(After(Run(reports[..|reports|-1]), reports[|reports|-1]))
  }

  function Items(reports: seq<Report>): seq<ReportCache.Item<Info>> {
    seq(|reports|, i requires 0 <= i < |reports| => ReportCache.Item(Fresh(reports[i]), i, false))
  }

  /** This is the newest entry of the five that the cache holds. */
  lemma {:induction false} RunIsNewestCached(reports: seq<Report>)
    ensures var cached := ReportCache.Run(NETWORK, Items(reports));
            Run(reports) == if cached == [] then None else Some(cached[|cached|-1].content)
  {
    RunIsNewest(reports);
    ReportCache.NewestIsLast(NETWORK, Items(reports));
  }

  lemma {:induction false} RunIsNewest(reports: seq<Report>)
    ensures Run(reports) == ReportCache.Newest(NETWORK, Items(reports))
  {
    if reports != [] {
      var n := |reports| - 1;
      RunIsNewest(reports[..n]);
      assert Items(reports)[..n] == Items(reports[..n]);
    }
  }

  lemma FreshIsWellFormed(r: Report)
    ensures WellFormed(Fresh(r).table)
    ensures Entries(Fresh(r).table) == if r.handle == HANDLE_UNKNOWN then {} else {Slot(r.handle, r.kind)}
  {
    var t := Fresh(r).table;
    FilledIs(t, if r.handle == HANDLE_UNKNOWN then 0 else 1);
    assert r.handle != HANDLE_UNKNOWN ==> t[0] in Entries(t);
  }

  /** Over every run of connects and disconnects the cached table is filled from the front with distinct
      handles, at most ten. */
  lemma {:induction false} EveryTableIsWellFormed(reports: seq<Report>)
    ensures Run(reports).Some? ==> WellFormed(Run(reports).value.table)
  {
    if reports != [] {
      var before, r := reports[..|reports|-1], reports[|reports|-1];
      EveryTableIsWellFormed(before);
      FreshIsWellFormed(r);
      if Run(before).Some? {
        ConnectRefinesInsert(Run(before).value.table, r.handle, r.kind);
        DisconnectRefinesDelete(Run(before).value.table, Slot(r.handle, r.kind));
      }
    }
  }

  /** Whether it is stored or only compares equal, the cache then holds the report's connectivity and access point
      and the table with it. */
  lemma ReportIsHeld(cur: Info, r: Report)
    ensures var held := After(Some(cur), r);
            && held.connected == r.connected
            && held.apn == (if r.kind != TYPE_MOBILE && cur.apn != "" then cur.apn else r.apn)
            && held.table == if r.connected then Connect(cur.table, r.handle, r.kind)
                             else if HasBit(r.kind) then Disconnect(cur.table, Slot(r.handle, r.kind))
                             else cur.table
  {
    assert HasBit(r.kind) ==> r.kind in TypeBits(r.kind);
  }

  /** Exactly when a report leaves a true mask in the cache: when it keeps it true, or compares equal and is
      forgotten. */
  lemma AfterTellsExactly(cur: Info, r: Report)
    requires WellFormed(cur.table) && MaskTells(cur)
    ensures MaskTells(After(Some(cur), r)) <==>
            SameReport(cur, Collate(Fresh(r), cur)) || KeepsMask(Fresh(r), cur)
  {
    CollateKeepsMaskExactly(Fresh(r), cur);
  }

  /** The first report is not collated: one that reports a lost network enters that network's handle and type. */
  lemma FirstLossIsEntered(kind: int, handle: nat, apn: string)
    requires HasBit(kind) && handle != HANDLE_UNKNOWN
    ensures var x := Run([Report(kind, false, handle, apn)]);
            x.Some? && Entries(x.value.table) == {Slot(handle, kind)} && x.value.allTypes == {kind}
  {
    var one := [Report(kind, false, handle, apn)];
    assert one[..0] == [] && Run(one[..0]) == None;
    FreshIsWellFormed(one[0]);
  }

  // ---------------------------------------------------------------- losing one of two

  /** A network of a known type is reported connected under a new handle while there is room. */
  lemma ConnectsAt(reports: seq<Report>, cur: Info, n: nat, kind: int, handle: nat)
    requires Run(reports) == Some(cur) && cur.connected && cur.apn == ""
    requires n < |cur.table| && cur.table[n].handle == HANDLE_UNKNOWN != handle
    requires forall i :: 0 <= i < n ==> cur.table[i].handle != HANDLE_UNKNOWN && cur.table[i].handle != handle
    ensures Run(reports + [Report(kind, true, handle, "")]) ==
            Some(Info(cur.table[n := Slot(handle, kind)], TypeBits(kind) + cur.allTypes, kind, true, handle, ""))
  {
    var r := Report(kind, true, handle, "");
    assert (reports + [r])[..|reports|] == reports;
    var t := cur.table[n := Slot(handle, kind)];
    assert Connect(cur.table, handle, kind) == t;
    assert t[n] != cur.table[n];
  }

  const MOBILE_7 := Report(TYPE_MOBILE, true, 7, "")
  const WIFI_8 := Report(1, true, 8, "")
  const WIFI_9 := Report(1, true, 9, "")

  lemma ThreeConnected()
    ensures var x := Run([MOBILE_7] + [WIFI_8] + [WIFI_9]);
            && x.Some? && WellFormed(x.value.table) && x.value.allTypes == {TYPE_MOBILE, 1}
            && Entries(x.value.table) == {Slot(7, TYPE_MOBILE), Slot(8, 1), Slot(9, 1)}
  {
    var t1 := Fresh(MOBILE_7).table;
    var t2 := t1[1 := Slot(8, 1)];
    var t3 := t2[2 := Slot(9, 1)];
    assert [MOBILE_7][..0] == [] && Run([MOBILE_7]) == Some(Fresh(MOBILE_7));
    ConnectsAt([MOBILE_7], Fresh(MOBILE_7), 1, 1, 8);
    ConnectsAt([MOBILE_7] + [WIFI_8], Info(t2, {1} + {TYPE_MOBILE}, 1, true, 8, ""), 2, 1, 9);
    EveryTableIsWellFormed([MOBILE_7] + [WIFI_8] + [WIFI_9]);
    assert t3[0] in Entries(t3) && t3[1] in Entries(t3) && t3[2] in Entries(t3);
    assert forall i :: 3 <= i < |t3| ==> t3[i] == BLANK;
  }

  /** Mobile handle 7 and Wi-Fi handles 8 and 9 are connected, then Wi-Fi 9 is lost: the mask has forgotten the
      mobile network, whose handle is still in the table. */
  lemma LosingOneOfTwoForgetsMobile()
    ensures var x := Run([MOBILE_7] + [WIFI_8] + [WIFI_9] + [Report(1, false, 9, "")]);
            && x.Some? && x.value.allTypes == {1}
            && Entries(x.value.table) == {Slot(7, TYPE_MOBILE), Slot(8, 1)}
  {
    var three := [MOBILE_7] + [WIFI_8] + [WIFI_9];
    var all := three + [Report(1, false, 9, "")];
    assert all[..3] == three;
    ThreeConnected();
    var cur := Run(three).value;
    assert Slot(8, 1) in Entries(cur.table) - {Slot(9, 1)};
    OneOfSeveralForgetsTheRest(Fresh(all[3]), cur);
    assert {Slot(7, TYPE_MOBILE), Slot(8, 1), Slot(9, 1)} - {Slot(9, 1)} == {Slot(7, TYPE_MOBILE), Slot(8, 1)};
    assert Entries(Collate(Fresh(all[3]), cur).table) != Entries(cur.table) by {
      assert Slot(9, 1) in Entries(cur.table);
    }
  }
}
