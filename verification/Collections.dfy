/** Small containers shared by the models. */
module Wrappers {
  datatype Option<+T> = None | Some(value: T)

  lemma EmptyOrNot<T>(s: set<T>)
    ensures s == {} || exists x :: x in s
  {
    if forall x :: x !in s {
      assert s == {};
    }
  }

  lemma SomeMember<T>(s: set<T>) returns (x: T)
    requires s != {}
    ensures x in s
  {
    EmptyOrNot(s);
    x :| x in s;
  }
}

/** An ordered map as the sequence of its entries, in iteration order: keys are distinct, a new key
    goes in front of the first larger one, and an old key keeps its place. */
module OrderedMaps {

  datatype Entry<+K, +V> = Entry(key: K, value: V)

  predicate Has<K(==), V>(m: seq<Entry<K, V>>, key: K) {
    exists i :: 0 <= i < |m| && m[i].key == key
  }

  ghost predicate Distinct<K, V>(m: seq<Entry<K, V>>) {
    forall i, j :: 0 <= i < j < |m| ==> m[i].key != m[j].key
  }

  function Lookup<K(==), V>(m: seq<Entry<K, V>>, key: K): (v: V)
    requires Has(m, key)
    ensures Entry(key, v) in m
  {
    if m[0].key == key then m[0].value
    else
      assert Has(m[1..], key) by {
        var i :| 0 <= i < |m| && m[i].key == key;
        assert m[1..][i - 1] == m[i];
      }
      Lookup(m[1..], key)
  }

  function Replace<K(==), V>(m: seq<Entry<K, V>>, key: K, value: V): seq<Entry<K, V>> {
    if m == [] then []
    else [if m[0].key == key then Entry(key, value) else m[0]] + Replace(m[1..], key, value)
  }

  function Insert<K, V>(less: (K, K) -> bool, m: seq<Entry<K, V>>, key: K, value: V): seq<Entry<K, V>> {
    if m == [] || less(key, m[0].key) then [Entry(key, value)] + m
    else [m[0]] + Insert(less, m[1..], key, value)
  }

  function Put<K(==), V>(less: (K, K) -> bool, m: seq<Entry<K, V>>, key: K, value: V): seq<Entry<K, V>> {
    if Has(m, key) then Replace(m, key, value) else Insert(less, m, key, value)
  }

  function Erase<K(==), V>(m: seq<Entry<K, V>>, key: K): seq<Entry<K, V>> {
    if m == [] then []
    else (if m[0].key == key then [] else [m[0]]) + Erase(m[1..], key)
  }

  // ---------------------------------------------------------------- membership

  lemma {:induction false} ReplaceMembers<K(!new), V(!new)>(m: seq<Entry<K, V>>, key: K, value: V)
    ensures forall e :: e in Replace(m, key, value) <==>
              (e in m && e.key != key) || (Has(m, key) && e == Entry(key, value))
    ensures |Replace(m, key, value)| == |m|
    ensures forall i :: 0 <= i < |m| ==> Replace(m, key, value)[i].key == m[i].key
  {
    if m != [] {
      ReplaceMembers(m[1..], key, value);
      assert m == [m[0]] + m[1..];
      assert Has(m, key) <==> m[0].key == key || Has(m[1..], key) by { HasSplits(m, key); }
    }
  }

  lemma HasSplits<K(!new), V(!new)>(m: seq<Entry<K, V>>, key: K)
    requires m != []
    ensures Has(m, key) <==> m[0].key == key || Has(m[1..], key)
  {
    if i :| 0 <= i < |m| && m[i].key == key {
      assert i > 0 ==> m[1..][i - 1] == m[i];
    }
    if i :| 0 <= i < |m[1..]| && m[1..][i].key == key {
      assert m[i + 1].key == key;
    }
  }

  lemma {:induction false} InsertMembers<K(!new), V(!new)>(less: (K, K) -> bool, m: seq<Entry<K, V>>, key: K, value: V)
    ensures forall e :: e in Insert(less, m, key, value) <==> e in m || e == Entry(key, value)
    ensures |Insert(less, m, key, value)| == |m| + 1
  {
    if m != [] && !less(key, m[0].key) {
      InsertMembers(less, m[1..], key, value);
      assert m == [m[0]] + m[1..];
    }
  }

  lemma PutMembers<K(!new), V(!new)>(less: (K, K) -> bool, m: seq<Entry<K, V>>, key: K, value: V)
    ensures forall e :: e in Put(less, m, key, value) <==> (e in m && e.key != key) || e == Entry(key, value)
    ensures |Put(less, m, key, value)| == if Has(m, key) then |m| else |m| + 1
  {
    if Has(m, key) {
      ReplaceMembers(m, key, value);
    } else {
      InsertMembers(less, m, key, value);
      assert forall e :: e in m ==> e.key != key;
    }
  }

  lemma {:induction false} EraseMembers<K(!new), V(!new)>(m: seq<Entry<K, V>>, key: K)
    ensures forall e :: e in Erase(m, key) <==> e in m && e.key != key
    ensures !Has(m, key) ==> Erase(m, key) == m
  {
    if m != [] {
      EraseMembers(m[1..], key);
      assert m == [m[0]] + m[1..];
      HasSplits(m, key);
    }
  }

  lemma DistinctTail<K(!new), V(!new)>(m: seq<Entry<K, V>>)
    requires m != [] && Distinct(m)
    ensures Distinct(m[1..])
    ensures forall f :: f in m[1..] ==> f.key != m[0].key
  {
    forall f | f in m[1..] ensures f.key != m[0].key {
      var i :| 0 <= i < |m[1..]| && m[1..][i] == f;
      assert m[0].key != m[i + 1].key;
    }
  }

  lemma DistinctCons<K(!new), V(!new)>(e: Entry<K, V>, m: seq<Entry<K, V>>)
    requires Distinct(m)
    requires forall f :: f in m ==> f.key != e.key
    ensures Distinct([e] + m)
  {
    assert forall j :: 0 <= j < |m| ==> m[j] in m;
  }

  lemma {:induction false} EraseIsDistinct<K(!new), V(!new)>(m: seq<Entry<K, V>>, key: K)
    requires Distinct(m)
    ensures Distinct(Erase(m, key))
    ensures |Erase(m, key)| == if Has(m, key) then |m| - 1 else |m|
  {
    if m != [] {
      assert m == [m[0]] + m[1..];
      DistinctTail(m);
      EraseIsDistinct(m[1..], key);
      EraseMembers(m[1..], key);
      if m[0].key == key {
        assert Erase(m, key) == Erase(m[1..], key);
      } else {
        DistinctCons(m[0], Erase(m[1..], key));
        assert Erase(m, key) == [m[0]] + Erase(m[1..], key);
      }
      HasSplits(m, key);
      if Has(m[1..], key) {
        var i :| 0 <= i < |m[1..]| && m[1..][i].key == key;
        assert m[1..][i] in m[1..];
      }
    }
  }

  lemma {:induction false} InsertIsDistinct<K(!new), V(!new)>(less: (K, K) -> bool, m: seq<Entry<K, V>>,
                                                              key: K, value: V)
    requires Distinct(m) && !Has(m, key)
    ensures Distinct(Insert(less, m, key, value))
  {
    if m == [] || less(key, m[0].key) {
      assert forall e :: e in m ==> e.key != key;
      DistinctCons(Entry(key, value), m);
      assert Insert(less, m, key, value) == [Entry(key, value)] + m;
    } else {
      assert m == [m[0]] + m[1..];
      DistinctTail(m);
      HasSplits(m, key);
      InsertIsDistinct(less, m[1..], key, value);
      InsertMembers(less, m[1..], key, value);
      DistinctCons(m[0], Insert(less, m[1..], key, value));
      assert Insert(less, m, key, value) == [m[0]] + Insert(less, m[1..], key, value);
    }
  }

  lemma PutIsDistinct<K(!new), V(!new)>(less: (K, K) -> bool, m: seq<Entry<K, V>>, key: K, value: V)
    requires Distinct(m)
    ensures Distinct(Put(less, m, key, value))
  {
    if Has(m, key) {
      ReplaceMembers(m, key, value);
    } else {
      InsertIsDistinct(less, m, key, value);
    }
  }

  /** In a map with distinct keys, an entry is found under its key. */
  lemma {:induction false} LookupFinds<K(!new), V(!new)>(m: seq<Entry<K, V>>, e: Entry<K, V>)
    requires Distinct(m) && e in m
    ensures Has(m, e.key) && Lookup(m, e.key) == e.value
  {
    var i :| 0 <= i < |m| && m[i] == e;
    if m[0].key != e.key {
      assert m == [m[0]] + m[1..];
      DistinctTail(m);
      assert e in m[1..];
      LookupFinds(m[1..], e);
    } else {
      assert i == 0;
    }
  }
}
