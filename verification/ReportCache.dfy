/** The cached history of one kind of status item: a new item is first collated with the newest cached one; if
    it then compares equal it only renews the report time, otherwise it is appended, and the oldest entry is
    dropped beyond five.
 */
module ReportCache {
  import opened Wrappers

  const MAX_ITEM: nat := 5

  /** How the items of one kind are collated (the new one with the newest cached one) and compared. */
  datatype Comparison<!T> = Comparison(collate: (T, T) -> T, same: (T, T) -> bool)

  datatype Item<T> = Item(content: T, reported: nat, ignored: bool)

  function Last<T>(s: seq<T>, n: nat): seq<T> {
    if |s| <= n then s else s[|s| - n..]
  }

  /** The new item as it is compared and stored. */
  function Collated<T>(k: Comparison<T>, newest: Item<T>, s: Item<T>): Item<T> {
    s.(content := k.collate(s.content, newest.content))
  }

  /** One item handed to a report, as the new report. */
  function SetItem<T>(k: Comparison<T>, report: seq<Item<T>>, s: Item<T>): seq<Item<T>> {
    if s.ignored then report
    else if report == [] then [s]
    else
      var newest := report[|report|-1];
      var c := Collated(k, newest, s);
      if k.same(newest.content, c.content) then report[|report|-1 := newest.(reported := s.reported)]
      else Last(report + [c], MAX_ITEM)
  }

  function Run<T>(k: Comparison<T>, items: seq<Item<T>>): seq<Item<T>> {
    if items == [] then [] else SetItem(k, Run(k, items[..|items|-1]), items[|items|-1])
  }

  /** The unbounded history: items that compare equal to the one before them as one entry, timed by the latest. */
  function Changes<T>(k: Comparison<T>, items: seq<Item<T>>): seq<Item<T>> {
    if items == [] then []
    else
      var before, s := Changes(k, items[..|items|-1]), items[|items|-1];
      if s.ignored then before
      else if before == [] then [s]
      else
        var newest := before[|before|-1];
        var c := Collated(k, newest, s);
        if k.same(newest.content, c.content) then before[..|before|-1] + [newest.(reported := s.reported)]
        else before + [c]
  }

  /** Setting an item commutes with forgetting all but the newest five. */
  lemma SetKeepsNewest<T>(k: Comparison<T>, h: seq<Item<T>>, s: Item<T>)
    requires !s.ignored && h != []
    ensures var newest := h[|h|-1];
            var c := Collated(k, newest, s);
            SetItem(k, Last(h, MAX_ITEM), s) ==
            if k.same(newest.content, c.content)
            then Last(h[..|h|-1] + [newest.(reported := s.reported)], MAX_ITEM)
            else Last(h + [c], MAX_ITEM)
  {
  }

  /** The bounded report is exactly the newest five entries of the unbounded history. */
  lemma {:induction false} ReportIsTheNewestHistory<T>(k: Comparison<T>, items: seq<Item<T>>)
    ensures Run(k, items) == Last(Changes(k, items), MAX_ITEM)
  {
    if items != [] {
      var before, s := items[..|items|-1], items[|items|-1];
      ReportIsTheNewestHistory(k, before);
      if !s.ignored && Changes(k, before) != [] {
        SetKeepsNewest(k, Changes(k, before), s);
      }
    }
  }

  predicate Changing<T>(k: Comparison<T>, s: seq<Item<T>>) {
    forall i, j :: 0 <= i < |s| && j == i + 1 < |s| ==> !k.same(s[i].content, s[j].content)
  }

  /** Neighbours in the history compare different, so the five cached entries are five real changes. */
  lemma {:induction false} NeighboursDiffer<T>(k: Comparison<T>, items: seq<Item<T>>)
    ensures Changing(k, Changes(k, items)) && Changing(k, Run(k, items)) && |Run(k, items)| <= MAX_ITEM
  {
    if items != [] {
      NeighboursDiffer(k, items[..|items|-1]);
    }
    ReportIsTheNewestHistory(k, items);
  }

  /** The newest content alone, as the next item will be collated with it. */
  function Newest<T>(k: Comparison<T>, items: seq<Item<T>>): Option<T> {
    if items == [] then None
    else
      var before, s := Newest(k, items[..|items|-1]), items[|items|-1];
      if s.ignored then before
      else if before.None? then Some(s.content)
      else
        var c := k.collate(s.content, before.value);
        if k.same(before.value, c) then before else Some(c)
  }

  /** What becomes of the newest content does not depend on the older entries or on the bound. */
  lemma {:induction false} NewestIsLast<T>(k: Comparison<T>, items: seq<Item<T>>)
    ensures var r := Run(k, items); Newest(k, items) == if r == [] then None else Some(r[|r|-1].content)
  {
    if items != [] {
      NewestIsLast(k, items[..|items|-1]);
    }
  }

  /** When the last item that was not ignored was reported. */
  function LastReported<T>(items: seq<Item<T>>): Option<nat> {
    if items == [] then None
    else if !items[|items|-1].ignored then Some(items[|items|-1].reported)
    else LastReported(items[..|items|-1])
  }

  /** Over every run something is cached exactly once an item was not ignored, and the newest entry carries the time
      of the last such item, a change or not. */
  lemma {:induction false} NewestIsTimed<T>(k: Comparison<T>, items: seq<Item<T>>)
    ensures var r := Run(k, items);
            LastReported(items) == if r == [] then None else Some(r[|r|-1].reported)
  {
    if items != [] {
      NewestIsTimed(k, items[..|items|-1]);
    }
  }

  class Report<!T> {
    const kind: Comparison<T>
    var items: seq<Item<T>>

    ghost predicate Valid()
      reads this
    {
      |items| <= MAX_ITEM
    }

    constructor (kind: Comparison<T>)
      ensures Valid() && items == [] && this.kind == kind
    {
      this.kind, items := kind, [];
    }

    method SetIteminReport(s: Item<T>) returns (updated: bool)
      requires Valid()
      modifies this
      ensures Valid() && items == SetItem(kind, old(items), s)
      ensures updated <==> !s.ignored && (old(items) == [] || var newest := old(items)[|old(items)|-1].content;
                                          !kind.same(newest, kind.collate(s.content, newest)))
    {
      if s.ignored {
        return false;
      }
      var item := s;
      if items != [] {
        var newest := items[|items|-1];
        item := s.(content := kind.collate(s.content, newest.content));
        if kind.same(newest.content, item.content) {
          items := items[|items|-1 := newest.(reported := s.reported)];
          return false;
        }
      }
      items := items + [item];
      if |items| > MAX_ITEM {
        items := items[1..];
      }
      return true;
    }
  }
}
