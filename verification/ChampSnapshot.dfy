/** Snapshots of the key-value store's CHAMP map: the entries in the order of their hashes. */
module ChampSnapshot {
  import opened Options
  import opened KeyValue
  import opened MapSerializers
  import opened Champ
  import opened ChampOps
  import opened ChampMap
  import opened ChampSize

  type Store = Map<Key, Versioned>

  /** The map's type parameters in the key-value store, with any hash function. */
  function StoreTraits(hash: Key -> Hash): Traits<Key, Versioned> {
    Traits(hash, KeySize, ValueSize)
  }

  /** Any order a sort by hash may leave the entries in; it says nothing about equal hashes. */
  ghost predicate SnapshotOrder(hash: Key -> Hash, m: Store, order: seq<StoreEntry>) {
    && Distinct(order)
    && SameEntries(order, Entries(m))
    && forall i, j :: 0 <= i < j < |order| ==> hash(order[i].key) <= hash(order[j].key)
  }

  lemma OrderLists(hash: Key -> Hash, m: Store, c: map<Key, Versioned>, order: seq<StoreEntry>)
    requires Represents(StoreTraits(hash), m, c) && SnapshotOrder(hash, m, order)
    ensures Lists(order, c)
  {
    hide Represents, Entries;
    EntriesListed(StoreTraits(hash), m, c);
  }

  /** A snapshot is as long as the entries' real sizes add up to; the buffer its caller has made from
      the kept size fits it exactly when that size has not drifted. */
  lemma SnapshotLength(hash: Key -> Hash, m: Store, c: map<Key, Versioned>, order: seq<StoreEntry>)
    requires Represents(StoreTraits(hash), m, c) && SnapshotOrder(hash, m, order)
    ensures |SerializeAll(order)| == m.serializedSize <==> Drift(StoreTraits(hash), m) == 0
  {
    hide Represents, Entries, SerializeAll;
    var t := StoreTraits(hash);
    var weight := (e: StoreEntry) => PaddedSize(t, e);
    SerializedLength(order);
    EntriesListed(t, m, c);
    TotalOrderFree(weight, order, Entries(m));
    TotalSame(weight, EntrySize, order);
    TotalSame(weight, e => PaddedSize(t, e), Entries(m));
  }

  lemma {:induction false} TotalSame<K, V>(f: Entry<K, V> -> nat, g: Entry<K, V> -> nat, entries: seq<Entry<K, V>>)
    requires forall i :: 0 <= i < |entries| ==> f(entries[i]) == g(entries[i])
    ensures Total(f, entries) == Total(g, entries)
  {
    if entries != [] {
      TotalSame(f, g, entries[1..]);
    }
  }

  // ----- Reading a snapshot back

  function Puts(entries: seq<StoreEntry>): (ops: seq<Op<Key, Versioned>>)
    ensures |ops| == |entries|
    ensures forall i :: 0 <= i < |entries| ==> ops[i] == PutOp(entries[i].key, entries[i].value)
  {
    seq(|entries|, i requires 0 <= i < |entries| => PutOp(entries[i].key, entries[i].value))
  }

  function ForgetMap(c: map<Key, Versioned>): map<Key, Versioned> {
    map k | k in c :: c[k].(readVersion := 0)
  }

  lemma ForgetLists(entries: seq<StoreEntry>, c: map<Key, Versioned>)
    requires Lists(entries, c)
    ensures Lists(ForgetAll(entries), ForgetMap(c))
  {
    var es := ForgetAll(entries);
    forall k, v
      ensures Entry(k, v) in es <==> k in ForgetMap(c) && ForgetMap(c)[k] == v
    {
      if Entry(k, v) in es {
        var i :| 0 <= i < |es| && es[i] == Entry(k, v);
        assert Entry(entries[i].key, entries[i].value) in entries;
      }
      if k in c && ForgetMap(c)[k] == v {
        assert Entry(k, c[k]) in entries;
        var i :| 0 <= i < |entries| && entries[i] == Entry(k, c[k]);
        assert es[i] == Entry(k, v);
      }
    }
  }

  /** Putting the entries of a map one after another builds that map. */
  lemma {:induction false} PutsModel(entries: seq<StoreEntry>, c: map<Key, Versioned>)
    requires Lists(entries, c)
    ensures Model(Puts(entries)) == c
    decreases |entries|
  {
    hide Lists;
    var n := |entries|;
    if n == 0 {
      ListsLength(entries, c);
    } else {
      var e := entries[n - 1];
      LastEntry(entries, c);
      PutsModel(entries[..n - 1], c - {e.key});
      assert Puts(entries)[..n - 1] == Puts(entries[..n - 1]);
      assert (c - {e.key})[e.key := e.value] == c;
    }
  }

  lemma LastEntry(entries: seq<StoreEntry>, c: map<Key, Versioned>)
    requires Lists(entries, c) && entries != []
    ensures var e := entries[|entries| - 1];
      && e.key in c && c[e.key] == e.value
      && Lists(entries[..|entries| - 1], c - {e.key})
  {
    hide Lists;
    var n := |entries|;
    ListsErase(entries, c, n - 1);
    assert EraseAt(entries, n - 1) == entries[..n - 1];
    ListsHave(entries, c, n - 1);
  }

  lemma ListsHave<K(!new), V(!new)>(entries: seq<Entry<K, V>>, c: map<K, V>, i: nat)
    requires Lists(entries, c) && i < |entries|
    ensures entries[i].key in c && c[entries[i].key] == entries[i].value
  {
    assert Entry(entries[i].key, entries[i].value) in entries;
  }

  /** Reading a snapshot and putting its entries into an empty map gives a map with the same
      contents, except that the read versions are gone. */
  lemma SnapshotRoundTrip(hash: Key -> Hash, m: Store, c: map<Key, Versioned>, order: seq<StoreEntry>)
    requires Represents(StoreTraits(hash), m, c) && SnapshotOrder(hash, m, order)
    requires forall i :: 0 <= i < |order| ==> Encodable(order[i])
    ensures ReadAll(SerializeAll(order)) == Some(ForgetAll(order))
    ensures Sized(StoreTraits(hash))
    ensures Represents(StoreTraits(hash), History(StoreTraits(hash), Puts(ForgetAll(order))), ForgetMap(c))
  {
    hide Represents, SnapshotOrder, Lists, History, SerializeAll, ReadAll;
    OrderLists(hash, m, c, order);
    RoundTrip(order);
    ForgetLists(order, c);
    PutsModel(ForgetAll(order), ForgetMap(c));
    HistoryRepresents(StoreTraits(hash), Puts(ForgetAll(order)));
  }

  // ----- When snapshots are byte for byte the same

  ghost predicate DistinctHashes(hash: Key -> Hash, c: map<Key, Versioned>) {
    forall k0, k1 :: k0 in c && k1 in c && k0 != k1 ==> hash(k0) != hash(k1)
  }

  ghost predicate HashSorted(hash: Key -> Hash, order: seq<StoreEntry>) {
    forall i, j :: 0 <= i < j < |order| ==> hash(order[i].key) < hash(order[j].key)
  }

  /** Strictly sorted lists of the same entries are the same list. */
  lemma {:induction false} SortedUnique(hash: Key -> Hash, a: seq<StoreEntry>, b: seq<StoreEntry>)
    requires HashSorted(hash, a) && HashSorted(hash, b) && SameEntries(a, b)
    ensures a == b
    decreases |a|
  {
    if a == [] {
      if b != [] {
        SomeEntry(b);
        assert false;
      }
    } else {
      FirstEntry(hash, a, b);
      RestSame(hash, a, b);
      SortedUnique(hash, a[1..], b[1..]);
      assert a == [a[0]] + a[1..] && b == [b[0]] + b[1..];
    }
  }

  lemma FirstEntry(hash: Key -> Hash, a: seq<StoreEntry>, b: seq<StoreEntry>)
    requires HashSorted(hash, a) && HashSorted(hash, b) && SameEntries(a, b) && a != []
    ensures b != [] && a[0] == b[0]
  {
    assert a[0] in b;
    var i :| 0 <= i < |b| && b[i] == a[0];
    assert b[0] in a;
    var j :| 0 <= j < |a| && a[j] == b[0];
  }

  lemma RestSame(hash: Key -> Hash, a: seq<StoreEntry>, b: seq<StoreEntry>)
    requires HashSorted(hash, a) && HashSorted(hash, b) && SameEntries(a, b)
    requires a != [] && b != [] && a[0] == b[0]
    ensures SameEntries(a[1..], b[1..])
  {
    forall e
      ensures e in a[1..] <==> e in b[1..]
    {
      assert e in a <==> e in b;
    }
  }

  lemma OrderSorted(hash: Key -> Hash, m: Store, c: map<Key, Versioned>, order: seq<StoreEntry>)
    requires Represents(StoreTraits(hash), m, c) && SnapshotOrder(hash, m, order)
    requires DistinctHashes(hash, c)
    ensures HashSorted(hash, order)
  {
    hide Represents, Entries, Lists;
    OrderLists(hash, m, c, order);
    forall i, j | 0 <= i < j < |order|
      ensures hash(order[i].key) < hash(order[j].key)
    {
      ListsHave(order, c, i);
      ListsHave(order, c, j);
    }
  }

  /** Two maps with the same contents and no colliding keys have the same snapshot, whatever their
      histories and however the sort treats ties. */
  lemma ByteIdentical(hash: Key -> Hash, m1: Store, m2: Store, c: map<Key, Versioned>,
                      o1: seq<StoreEntry>, o2: seq<StoreEntry>)
    requires Represents(StoreTraits(hash), m1, c) && Represents(StoreTraits(hash), m2, c)
    requires SnapshotOrder(hash, m1, o1) && SnapshotOrder(hash, m2, o2) && DistinctHashes(hash, c)
    ensures SerializeAll(o1) == SerializeAll(o2)
  {
    hide Represents, SnapshotOrder, Lists, SerializeAll, DistinctHashes, HashSorted;
    OrderLists(hash, m1, c, o1);
    OrderLists(hash, m2, c, o2);
    ListsSame(o1, o2, c);
    OrderSorted(hash, m1, c, o1);
    OrderSorted(hash, m2, c, o2);
    SortedUnique(hash, o1, o2);
  }

  lemma DifferentBytes(a: seq<StoreEntry>, b: seq<StoreEntry>, i: nat)
    requires forall k :: 0 <= k < |a| ==> Encodable(a[k])
    requires forall k :: 0 <= k < |b| ==> Encodable(b[k])
    requires i < |a| && i < |b| && a[i].key != b[i].key
    ensures SerializeAll(a) != SerializeAll(b)
  {
    hide SerializeAll, ReadAll, Encodable;
    RoundTrip(a);
    RoundTrip(b);
    assert ForgetAll(a)[i] != ForgetAll(b)[i];
  }
}
