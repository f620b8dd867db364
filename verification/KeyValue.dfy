/** Lists of key-value entries in which no key occurs twice. */
module KeyValue {

  datatype Entry<+K, +V> = Entry(key: K, value: V)

  function InsertAt<T>(s: seq<T>, c: nat, x: T): seq<T>
    requires c <= |s|
  {
    s[..c] + [x] + s[c..]
  }

  function EraseAt<T>(s: seq<T>, c: nat): seq<T>
    requires c < |s|
  {
    s[..c] + s[c + 1..]
  }

  ghost predicate Distinct<K, V>(entries: seq<Entry<K, V>>) {
    forall i, j :: 0 <= i < j < |entries| ==> entries[i].key != entries[j].key
  }

  ghost predicate SameEntries<K(!new), V(!new)>(a: seq<Entry<K, V>>, b: seq<Entry<K, V>>) {
    forall e :: e in a <==> e in b
  }

  /** The entries are those of the map, each once. */
  ghost predicate Lists<K(!new), V(!new)>(entries: seq<Entry<K, V>>, c: map<K, V>) {
    && Distinct(entries)
    && forall k, v :: Entry(k, v) in entries <==> k in c && c[k] == v
  }

  function Total<K, V>(weight: Entry<K, V> -> nat, entries: seq<Entry<K, V>>): nat {
    if entries == [] then 0 else weight(entries[0]) + Total(weight, entries[1..])
  }

  lemma {:induction false} TotalConcat<K, V>(weight: Entry<K, V> -> nat, a: seq<Entry<K, V>>, b: seq<Entry<K, V>>)
    ensures Total(weight, a + b) == Total(weight, a) + Total(weight, b)
  {
    if a == [] {
      assert a + b == b;
    } else {
      TotalConcat(weight, a[1..], b);
      assert (a + b)[1..] == a[1..] + b;
    }
  }

  lemma TotalOne<K, V>(weight: Entry<K, V> -> nat, e: Entry<K, V>)
    ensures Total(weight, [e]) == weight(e)
  {
    var one := [e];
    assert one[1..] == [];
  }

  lemma TotalAround<K, V>(weight: Entry<K, V> -> nat, s: seq<Entry<K, V>>, i: nat)
    requires i < |s|
    ensures Total(weight, s) == Total(weight, EraseAt(s, i)) + weight(s[i])
  {
    hide Total;
    assert s == s[..i] + ([s[i]] + s[i + 1..]);
    TotalConcat(weight, s[..i], [s[i]] + s[i + 1..]);
    TotalConcat(weight, [s[i]], s[i + 1..]);
    TotalConcat(weight, s[..i], s[i + 1..]);
    TotalOne(weight, s[i]);
  }

  lemma TotalReplace<K, V>(weight: Entry<K, V> -> nat, s: seq<Entry<K, V>>, i: nat, e: Entry<K, V>)
    requires i < |s|
    ensures Total(weight, s[i := e]) == Total(weight, s) - weight(s[i]) + weight(e)
  {
    TotalAround(weight, s, i);
    TotalAround(weight, s[i := e], i);
    assert EraseAt(s[i := e], i) == EraseAt(s, i);
  }

  lemma DistinctErase<K(!new), V(!new)>(s: seq<Entry<K, V>>, i: nat)
    requires Distinct(s) && i < |s|
    ensures Distinct(EraseAt(s, i))
    ensures forall e :: e in EraseAt(s, i) <==> e in s && e != s[i]
  {
    var s' := EraseAt(s, i);
    forall e
      ensures e in s' <==> e in s && e != s[i]
    {
      if e in s && e != s[i] {
        var j :| 0 <= j < |s| && s[j] == e;
        assert s'[if j < i then j else j - 1] == e;
      }
    }
  }

  lemma SomeEntry<T(!new)>(s: seq<T>)
    requires s != []
    ensures exists x :: x in s
  {
    assert s[0] in s;
  }

  /** A total does not depend on the order of the entries. */
  lemma {:induction false} TotalOrderFree<K(!new), V(!new)>(weight: Entry<K, V> -> nat, a: seq<Entry<K, V>>, b: seq<Entry<K, V>>)
    requires Distinct(a) && Distinct(b) && SameEntries(a, b)
    ensures Total(weight, a) == Total(weight, b) && |a| == |b|
    decreases |a|
  {
    if a == [] {
      if b != [] {
        SomeEntry(b);
        assert false;
      }
    } else {
      assert a[0] in b;
      var i :| 0 <= i < |b| && b[i] == a[0];
      DistinctErase(b, i);
      DistinctErase(a, 0);
      assert EraseAt(a, 0) == a[1..];
      TotalOrderFree(weight, a[1..], EraseAt(b, i));
      TotalAround(weight, b, i);
    }
  }

  /** As many entries as the map has keys. */
  lemma {:induction false} ListsLength<K(!new), V(!new)>(entries: seq<Entry<K, V>>, c: map<K, V>)
    requires Lists(entries, c)
    ensures |entries| == |c|
    decreases |entries|
  {
    if entries == [] {
      assert forall k :: k in c ==> Entry(k, c[k]) in entries;
      assert c.Keys == {};
    } else {
      var e := entries[0];
      assert Entry(e.key, e.value) in entries;
      DistinctErase(entries, 0);
      assert EraseAt(entries, 0) == entries[1..];
      ListsRest(entries, c);
      ListsLength(entries[1..], c - {e.key});
      assert c.Keys == (c - {e.key}).Keys + {e.key};
    }
  }

  lemma ListsRest<K(!new), V(!new)>(entries: seq<Entry<K, V>>, c: map<K, V>)
    requires Lists(entries, c) && entries != []
    ensures Lists(entries[1..], c - {entries[0].key})
  {
    var rest, e := entries[1..], entries[0];
    DistinctErase(entries, 0);
    assert EraseAt(entries, 0) == rest;
    assert Entry(e.key, e.value) in entries;
    forall k, v
      ensures Entry(k, v) in rest <==> k in c - {e.key} && (c - {e.key})[k] == v
    {
      assert Entry(k, v) in entries <==> k in c && c[k] == v;
    }
  }

  /** Two lists of one map have the same entries. */
  lemma ListsSame<K(!new), V(!new)>(a: seq<Entry<K, V>>, b: seq<Entry<K, V>>, c: map<K, V>)
    requires Lists(a, c) && Lists(b, c)
    ensures SameEntries(a, b)
  {
    forall e: Entry<K, V>
      ensures e in a <==> e in b
    {
      assert Entry(e.key, e.value) in a <==> Entry(e.key, e.value) in b;
    }
  }
}
