/** The table of adapters that listen to the modem, and the modem session opened on their behalf: the table
    is changed at once, while the session follows through a queue of messages.
 */
module AdapterTable {

  const MAX_ADAPTERS: nat := 10

  predicate Distinct<A(==)>(table: seq<A>) {
    forall i, j :: 0 <= i < j < |table| ==> table[i] != table[j]
  }

  function IndexOf<A(==)>(table: seq<A>, a: A): (k: nat)
    requires a in table
    ensures k < |table| && table[k] == a
  {
    if table[0] == a then 0 else 1 + IndexOf(table[1..], a)
  }

  function Add<A(==)>(table: seq<A>, a: A): seq<A> {
    if a in table || |table| >= MAX_ADAPTERS then table else table + [a]
  }

  /** The last adapter moves into the place of the removed one. */
  function Remove<A(==)>(table: seq<A>, a: A): seq<A> {
    if a in table then table[IndexOf(table, a) := table[|table|-1]][..|table|-1] else table
  }

  function Members<A(==)>(table: seq<A>): set<A> {
    set a | a in table
  }

  lemma MembersOfSnoc<A>(table: seq<A>, a: A)
    ensures Members(table + [a]) == Members(table) + {a}
  {
    assert forall b :: b in table + [a] <==> b in table || b == a;
  }

  lemma {:induction false} SizeOfMembers<A>(table: seq<A>)
    requires Distinct(table)
    ensures |Members(table)| == |table|
  {
    if table == [] {
      assert Members(table) == {};
    } else {
      var rest, last := table[..|table|-1], table[|table|-1];
      SizeOfMembers(rest);
      MembersOfSnoc(rest, last);
      assert rest + [last] == table;
    }
  }

  /** Adding inserts into a set of at most ten. */
  lemma AddRefinesInsert<A(!new)>(table: seq<A>, a: A)
    requires Distinct(table) && |table| <= MAX_ADAPTERS
    ensures Distinct(Add(table, a)) && |Add(table, a)| <= MAX_ADAPTERS
    ensures Members(Add(table, a)) ==
            if |Members(table)| < MAX_ADAPTERS then Members(table) + {a} else Members(table)
  {
    SizeOfMembers(table);
    if a in table {
      assert Members(table) == Members(table) + {a};
    } else if |table| < MAX_ADAPTERS {
      assert Members(table + [a]) == Members(table) + {a};
    }
  }

  /** Removing deletes exactly the one adapter. */
  lemma RemoveRefinesDelete<A(!new)>(table: seq<A>, a: A)
    requires Distinct(table)
    ensures Distinct(Remove(table, a))
    ensures Members(Remove(table, a)) == Members(table) - {a}
    ensures |Remove(table, a)| == |table| - if a in table then 1 else 0
  {
    if a in table {
      var k, last := IndexOf(table, a), |table| - 1;
      var after := Remove(table, a);
      assert forall i :: 0 <= i < last ==> after[i] == if i == k then table[last] else table[i];
      forall b | b in table && b != a ensures b in after {
        var i :| 0 <= i < |table| && table[i] == b;
        assert after[if i == last then k else i] == b;
      }
    }
  }

  // ---------------------------------------------------------------- the session with the modem

  datatype Message = Open | Close | Restart

  datatype Modem = Closed | Opened(mask: set<nat>)

  /** `masks` holds the event bits each existing adapter asks for, listed or not. A modem that goes down loses its
      session. */
  datatype Session = Session(table: seq<nat>, masks: map<nat, set<nat>>, queue: seq<Message>, modem: Modem)

  datatype Event = Added(adapter: nat) | Removed(adapter: nat) | MaskSet(adapter: nat, mask: set<nat>)
                 | EngineDown | Handled

  const INITIAL := Session([], map[], [], Closed)

  function MaskOf(s: Session, a: nat): set<nat> {
    if a in s.masks then s.masks[a] else {}
  }

  /** The event bits that some listed adapter asks for and that are not excluded. */
  function EvtMask(s: Session, excluded: set<nat>): set<nat> {
    set a, b | a in s.table && b in MaskOf(s, a) && b !in excluded :: b
  }

  /** What the modem reports on: nothing without a session. */
  function Heard(s: Session): set<nat> {
    if s.modem.Opened? then s.modem.mask else {}
  }

  function Step(s: Session, e: Event, excluded: set<nat>): Session {
    match e
    case Added(a) =>
      if Add(s.table, a) == s.table then s else s.(table := Add(s.table, a), queue := s.queue + [Open])
    case Removed(a) =>
      if a !in s.table then s
      else
        var after := Remove(s.table, a);
        s.(table := after, queue := s.queue + [if after == [] then Close else Open])
    case MaskSet(a, mask) => s.(masks := s.masks[a := mask], queue := s.queue + [Open])
    case EngineDown => s.(queue := s.queue + [Restart], modem := Closed)
    case Handled =>
      if s.queue == [] then s
      else s.(queue := s.queue[1..], modem := if s.queue[0] == Close then Closed else Opened(EvtMask(s, excluded)))
  }

  function Run(events: seq<Event>, excluded: set<nat>): Session {
    if events == [] then INITIAL
    else Step(Run(events[..|events|-1], excluded), events[|events|-1], excluded)
  }

  /** A drained queue leaves the modem reporting what is asked for; a close ending the queue means that
      nobody listens. */
  predicate InStep(s: Session, excluded: set<nat>) {
    && (s.queue == [] ==> Heard(s) == EvtMask(s, excluded))
    && (s.queue == [] && s.modem == Closed ==> s.table == [])
    && (s.queue != [] && s.queue[|s.queue|-1] == Close ==> s.table == [])
  }

  lemma StepKeepsInStep(s: Session, e: Event, excluded: set<nat>)
    requires InStep(s, excluded)
    ensures InStep(Step(s, e, excluded), excluded)
  {
    var after := Step(s, e, excluded);
    if e.Handled? && s.queue != [] {
      assert EvtMask(after, excluded) == EvtMask(s, excluded);
      if |s.queue| > 1 {
        assert after.queue[|after.queue|-1] == s.queue[|s.queue|-1];
      }
    }
  }

  /** Over every run of additions, removals, mask changes and engine restarts: once the queue is drained the
      modem reports exactly the union of the listed adapters' events minus the excluded ones, and it has a
      session if anyone listens. */
  lemma {:induction false} DrainedModemHearsTheUnion(events: seq<Event>, excluded: set<nat>)
    ensures InStep(Run(events, excluded), excluded)
    ensures var s := Run(events, excluded);
            s.queue == [] ==> Heard(s) == EvtMask(s, excluded) && (s.table != [] ==> s.modem.Opened?)
  {
    if events == [] {
      assert EvtMask(INITIAL, excluded) == {};
    } else {
      var before := events[..|events|-1];
      DrainedModemHearsTheUnion(before, excluded);
      StepKeepsInStep(Run(before, excluded), events[|events|-1], excluded);
    }
  }

  // ---------------------------------------------------------------- what the events alone say

  /** The adapters added while there was room and not removed since. */
  function ListedBy(events: seq<Event>): set<nat> {
    if events == [] then {}
    else
      var before := ListedBy(events[..|events|-1]);
      match events[|events|-1]
      case Added(a) => if |before| < MAX_ADAPTERS then before + {a} else before
      case Removed(a) => before - {a}
      case MaskSet(_, _) => before
      case EngineDown => before
      case Handled => before
  }

  /** The mask an adapter has set last. */
  function LastMask(events: seq<Event>, a: nat): set<nat> {
    if events == [] then {}
    else
      var e := events[|events|-1];
      if e.MaskSet? && e.adapter == a then e.mask else LastMask(events[..|events|-1], a)
  }

  predicate IsRecorded(s: Session, listed: set<nat>) {
    Distinct(s.table) && |s.table| <= MAX_ADAPTERS && Members(s.table) == listed
  }

  lemma StepRecordsTable(s: Session, e: Event, excluded: set<nat>, listed: set<nat>)
    requires IsRecorded(s, listed)
    ensures e.Added? ==>
              IsRecorded(Step(s, e, excluded), if |listed| < MAX_ADAPTERS then listed + {e.adapter} else listed)
    ensures e.Removed? ==> IsRecorded(Step(s, e, excluded), listed - {e.adapter})
    ensures !e.Added? && !e.Removed? ==> IsRecorded(Step(s, e, excluded), listed)
  {
    match e
    case Added(a) => AddRefinesInsert(s.table, a);
    case Removed(a) => RemoveRefinesDelete(s.table, a);
    case _ =>
  }

  lemma {:induction false} EveryTableIsRecorded(events: seq<Event>, excluded: set<nat>)
    ensures IsRecorded(Run(events, excluded), ListedBy(events))
  {
    if events == [] {
      assert Members<nat>([]) == {};
    } else {
      var before, e := events[..|events|-1], events[|events|-1];
      EveryTableIsRecorded(before, excluded);
      StepRecordsTable(Run(before, excluded), e, excluded, ListedBy(before));
    }
  }

  lemma {:induction false} EveryMaskIsRecorded(events: seq<Event>, excluded: set<nat>, a: nat)
    ensures MaskOf(Run(events, excluded), a) == LastMask(events, a)
  {
    if events != [] {
      EveryMaskIsRecorded(events[..|events|-1], excluded, a);
    }
  }

  /** Over every run: the table lists each adapter added and not removed once, and holds the masks they set last. */
  lemma EveryRunIsRecorded(events: seq<Event>, excluded: set<nat>, a: nat)
    ensures var s := Run(events, excluded);
            && Distinct(s.table) && Members(s.table) == ListedBy(events)
            && MaskOf(s, a) == LastMask(events, a)
  {
    EveryTableIsRecorded(events, excluded);
    EveryMaskIsRecorded(events, excluded, a);
  }

  /** An adapter added and not removed has last asked for the event bit. */
  ghost predicate IsAskedFor(events: seq<Event>, b: nat) {
    exists a :: a in ListedBy(events) && b in LastMask(events, a)
  }

  /** Over every run, once the queue is drained the modem reports exactly what the adapters added and not removed
      have last asked for, minus what is excluded, whether or not it went down in between. */
  lemma DrainedModemHearsTheAsked(events: seq<Event>, excluded: set<nat>, b: nat)
    requires Run(events, excluded).queue == []
    ensures b in Heard(Run(events, excluded)) <==>
            b !in excluded && IsAskedFor(events, b)
  {
    var s := Run(events, excluded);
    EveryTableIsRecorded(events, excluded);
    DrainedModemHearsTheUnion(events, excluded);
    assert forall a :: a in s.table <==> a in Members(s.table);
    forall a ensures MaskOf(s, a) == LastMask(events, a) {
      EveryMaskIsRecorded(events, excluded, a);
    }
    assert IsAskedFor(events, b) <==> exists a :: a in s.table && b in MaskOf(s, a);
  }

  /** The session is closed, or about to be, when nobody listens. */
  predicate ClosesForNobody(s: Session) {
    s.table == [] ==> if s.queue == [] then s.modem == Closed else s.queue[|s.queue|-1] == Close
  }

  /** A message that opens a session is posted although nobody listens. */
  predicate OpensForNobody(s: Session, e: Event) {
    s.table == [] && (e.MaskSet? || e.EngineDown?)
  }

  /** The modem session is given up with the last listener exactly if no mask change and no engine restart
      comes while nobody listens. */
  lemma ClosesForNobodyExactly(s: Session, e: Event, excluded: set<nat>)
    requires ClosesForNobody(s)
    ensures ClosesForNobody(Step(s, e, excluded)) <==> !OpensForNobody(s, e)
  {
    var after := Step(s, e, excluded);
    if e.Handled? && |s.queue| > 1 {
      assert after.queue[|after.queue|-1] == s.queue[|s.queue|-1];
    }
  }

  /** A mask update while no adapter is listed opens a session that nobody listens to. */
  lemma LateUpdateOpensForNobody(excluded: set<nat>)
    ensures var s := Run([MaskSet(1, {2})] + [Handled], excluded);
            s.table == [] && s.queue == [] && s.modem == Opened({})
  {
    var e := MaskSet(1, {2});
    RunOfSnoc([], e, excluded);
    assert [] + [e] == [e];
    RunOfSnoc([e], Handled, excluded);
    assert EvtMask(Run([e], excluded), excluded) == {};
  }

  lemma RunOfSnoc(events: seq<Event>, e: Event, excluded: set<nat>)
    ensures Run(events + [e], excluded) == Step(Run(events, excluded), e, excluded)
  {
    assert (events + [e])[..|events|] == events;
  }

  predicate NobodyOpens(events: seq<Event>, excluded: set<nat>) {
    events == []
    || (NobodyOpens(events[..|events|-1], excluded)
        && !OpensForNobody(Run(events[..|events|-1], excluded), events[|events|-1]))
  }

  /** Over every such run, a drained queue means: a session exactly if someone listens. */
  lemma {:induction false} SessionExactlyForListeners(events: seq<Event>, excluded: set<nat>)
    requires NobodyOpens(events, excluded)
    ensures ClosesForNobody(Run(events, excluded))
    ensures var s := Run(events, excluded); s.queue == [] ==> (s.modem.Opened? <==> s.table != [])
  {
    DrainedModemHearsTheUnion(events, excluded);
    if events != [] {
      var before := events[..|events|-1];
      SessionExactlyForListeners(before, excluded);
      ClosesForNobodyExactly(Run(before, excluded), events[|events|-1], excluded);
    }
  }
}

/** The owner of the adapter array: a fixed array of ten, filled from the front without holes. */
module LocApi {
  import opened AdapterTable

  class LocAdapterBase {
    var evtMask: set<nat>

    constructor (mask: set<nat>)
      ensures evtMask == mask
    {
      evtMask := mask;
    }
  }

  class LocApiBase {
    const adapters: array<LocAdapterBase?>
    const excludedMask: set<nat>
    var queue: seq<Message>
    /** How many slots are filled. */
    ghost var count: nat

    ghost predicate Valid()
      reads this, adapters
    {
      && adapters.Length == MAX_ADAPTERS && count <= MAX_ADAPTERS
      && (forall k :: 0 <= k < count ==> adapters[k] != null)
      && (forall k :: count <= k < MAX_ADAPTERS ==> adapters[k] == null)
      && Distinct(adapters[..count])
    }

    ghost function Table(): seq<LocAdapterBase?>
      requires Valid()
      reads this, adapters
    {
      adapters[..count]
    }

    constructor (excluded: set<nat>)
      ensures Valid() && fresh(adapters) && Table() == [] && queue == [] && excludedMask == excluded
    {
      adapters := new LocAdapterBase?[MAX_ADAPTERS](_ => null);
      excludedMask, queue, count := excluded, [], 0;
    }

    method AddAdapter(adapter: LocAdapterBase)
      requires Valid()
      modifies this, adapters
      ensures Valid() && Table() == Add(old(Table()), adapter)
      ensures queue == old(queue) + if Table() == old(Table()) then [] else [Open]
    {
      ghost var was := Table();
      var i := 0;
      while i < MAX_ADAPTERS && adapters[i] != adapter
        invariant 0 <= i <= count && Valid() && Table() == was && queue == old(queue)
        invariant adapter !in was[..i]
        decreases MAX_ADAPTERS - i
      {
        if adapters[i] == null {
          assert was[..i] == was;
          adapters[i] := adapter;
          count := count + 1;
          assert Table() == was + [adapter];
          queue := queue + [Open];
          break;
        }
        i := i + 1;
      }
    }

    method RemoveAdapter(adapter: LocAdapterBase)
      requires Valid()
      modifies this, adapters
      ensures Valid() && Table() == Remove(old(Table()), adapter)
      ensures queue == old(queue) + if adapter !in old(Table()) then [] else if Table() == [] then [Close] else [Open]
    {
      ghost var was := Table();
      ghost var removed := false;
      var i := 0;
      while i < MAX_ADAPTERS && adapters[i] != null
        invariant 0 <= i <= |was| <= MAX_ADAPTERS && Valid()
        invariant !removed ==> Table() == was && queue == old(queue) && adapter !in was[..i]
        invariant removed ==> i == |was| == count + 1 && adapter in was && Table() == Remove(was, adapter)
        invariant removed ==> queue == old(queue) + if Table() == [] then [Close] else [Open]
        decreases MAX_ADAPTERS - i
      {
        if adapters[i] == adapter {
          adapters[i] := null;
          var j := i;
          i := i + 1;
          while i < MAX_ADAPTERS && adapters[i] != null
            invariant j < i <= count == |was| && queue == old(queue)
            invariant adapters[j] == null
            invariant forall k :: 0 <= k < MAX_ADAPTERS && k != j ==> adapters[k] == old(adapters[k])
            decreases MAX_ADAPTERS - i
          {
            i := i + 1;
          }
          assert i == |was|;
          i := i - 1;
          adapters[j] := adapters[i];
          adapters[i] := null;
          assert forall k :: 0 <= k < i ==> adapters[k] == if k == j then was[i] else was[k];
          assert forall k :: i <= k < MAX_ADAPTERS ==> adapters[k] == null;
          count, removed := i, true;
          SwapFillsTheHole(was, adapter, j, adapters[..count]);
          queue := queue + [if 0 == i then Close else Open];
        }
        i := i + 1;
      }
      assert !removed ==> was[..i] == was;
    }

    method GetEvtMask() returns (mask: set<nat>)
      requires Valid()
      ensures forall b :: b in mask <==>
                          b !in excludedMask && exists k :: 0 <= k < count && b in Table()[k].evtMask
    {
      mask := {};
      var i := 0;
      while i < MAX_ADAPTERS && adapters[i] != null
        invariant 0 <= i <= count
        invariant forall b :: b in mask <==> exists k :: 0 <= k < i && b in Table()[k].evtMask
      {
        ghost var before := mask;
        mask := mask + adapters[i].evtMask;
        forall b
          ensures b in mask <==> exists k :: 0 <= k < i + 1 && b in Table()[k].evtMask
        {
          if b in adapters[i].evtMask {
            assert b in Table()[i].evtMask;
          } else if b in before {
            var k :| 0 <= k < i && b in Table()[k].evtMask;
          }
        }
        i := i + 1;
      }
      mask := mask - excludedMask;
    }
  }

  lemma SwapFillsTheHole(was: seq<LocAdapterBase?>, adapter: LocAdapterBase, j: nat, after: seq<LocAdapterBase?>)
    requires Distinct(was) && j < |was| && was[j] == adapter && |after| == |was| - 1
    requires forall k :: 0 <= k < |after| ==> after[k] == if k == j then was[|was|-1] else was[k]
    ensures adapter in was && after == Remove(was, adapter) && Distinct(after)
  {
    assert IndexOf(was, adapter) == j;
  }
}
