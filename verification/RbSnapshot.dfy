/** Snapshots of the red-black map, and their exchange with those of the CHAMP map. */
module RbSnapshot {
  import opened Bytes
  import opened KeyValue
  import opened MapSerializers
  import opened RbMap
  import opened RbCorrect
  import Champ
  import ChampMap
  import ChampSize
  import ChampSnapshot
  import ChampHistories

  function StoreTraits(less: (Key, Key) -> bool): Traits<Key, Versioned> {
    Traits(less, KeySize, ValueSize)
  }

  function Snapshot(m: Tree<Key, Versioned>): seq<byte> {
    SerializeAll(InOrder(m))
  }

  /** Maps with the same contents have the same snapshot, whatever puts built them, and it fills a
      buffer of the kept size exactly. */
  lemma ByteIdentical(less: (Key, Key) -> bool, puts1: seq<StoreEntry>, puts2: seq<StoreEntry>)
    requires StrictOrder(StoreTraits(less)) && BuildModel(puts1) == BuildModel(puts2)
    ensures var t := StoreTraits(less);
      && Snapshot(Build(t, puts1)) == Snapshot(Build(t, puts2))
      && |Snapshot(Build(t, puts1))| == SerializedSize(Build(t, puts1))
  {
    hide StrictOrder, Sorted, Lists, Build, BuildModel, InOrder, SerializeAll;
    var t := StoreTraits(less);
    var m1, m2 := Build(t, puts1), Build(t, puts2);
    BuildRepresents(t, puts1, []);
    BuildRepresents(t, puts2, []);
    ListsSame(InOrder(m1), InOrder(m2), BuildModel(puts1));
    SortedUnique(t, InOrder(m1), InOrder(m2));
    SerializedLength(InOrder(m1));
    ChampSnapshot.TotalSame(e => Weight(t, e), EntrySize, InOrder(m1));
  }

  /** Sorted lists of the same entries are the same list. */
  lemma {:induction false} SortedUnique<K(!new), V(!new)>(t: Traits<K, V>, a: seq<Entry<K, V>>, b: seq<Entry<K, V>>)
    requires StrictOrder(t) && Sorted(t, a) && Sorted(t, b) && SameEntries(a, b)
    ensures a == b
    decreases |a|
  {
    hide StrictOrder;
    if a == [] {
      if b != [] {
        SomeEntry(b);
        assert false;
      }
    } else {
      FirstEntry(t, a, b);
      RestSame(t, a, b);
      SortedUnique(t, a[1..], b[1..]);
      assert a == [a[0]] + a[1..] && b == [b[0]] + b[1..];
    }
  }

  lemma FirstEntry<K(!new), V(!new)>(t: Traits<K, V>, a: seq<Entry<K, V>>, b: seq<Entry<K, V>>)
    requires StrictOrder(t) && Sorted(t, a) && Sorted(t, b) && SameEntries(a, b) && a != []
    ensures b != [] && a[0] == b[0]
  {
    assert a[0] in b;
    var i :| 0 <= i < |b| && b[i] == a[0];
    assert b[0] in a;
    var j :| 0 <= j < |a| && a[j] == b[0];
    Transitive(t, a[0].key, b[0].key, a[0].key);
  }

  lemma RestSame<K(!new), V(!new)>(t: Traits<K, V>, a: seq<Entry<K, V>>, b: seq<Entry<K, V>>)
    requires StrictOrder(t) && Sorted(t, a) && Sorted(t, b) && SameEntries(a, b)
    requires a != [] && b != [] && a[0] == b[0]
    ensures SameEntries(a[1..], b[1..])
  {
    forall e
      ensures e in a[1..] <==> e in b[1..]
    {
      assert e in a <==> e in b;
    }
  }

  // ----- Reading back

  lemma {:induction false} BuildListed(entries: seq<StoreEntry>, c: map<Key, Versioned>)
    requires Lists(entries, c)
    ensures BuildModel(entries) == c
    decreases |entries|
  {
    hide Lists;
    var n := |entries|;
    if n == 0 {
      ListsLength(entries, c);
    } else {
      var e := entries[n - 1];
      ChampSnapshot.LastEntry(entries, c);
      BuildListed(entries[..n - 1], c - {e.key});
      assert (c - {e.key})[e.key := e.value] == c;
    }
  }

  /** The bytes read as entries that, put into an empty map of either kind, give these contents. */
  ghost predicate LoadsAs(less: (Key, Key) -> bool, hash: Key -> Champ.Hash, bytes: seq<byte>, c: map<Key, Versioned>)
    requires ChampMap.Sized(ChampSnapshot.StoreTraits(hash))
  {
    && ReadAll(bytes).Some?
    && var entries := ReadAll(bytes).value;
    && BuildModel(entries) == c
    && Lists(InOrder(Build(StoreTraits(less), entries)), c)
    && var t := ChampSnapshot.StoreTraits(hash);
    ChampMap.Represents(t, ChampMap.History(t, ChampSnapshot.Puts(entries)), c)
  }

  lemma ListLoads(less: (Key, Key) -> bool, hash: Key -> Champ.Hash, entries: seq<StoreEntry>, c: map<Key, Versioned>)
    requires StrictOrder(StoreTraits(less)) && Lists(entries, c)
    requires forall k <- c :: Encodable(Entry(k, c[k]))
    ensures ChampMap.Sized(ChampSnapshot.StoreTraits(hash))
    ensures LoadsAs(less, hash, SerializeAll(entries), ChampSnapshot.ForgetMap(c))
  {
    ChampHistories.AllEncodable(entries, c);
    hide StrictOrder, Sorted, Lists, Build, BuildModel, InOrder, SerializeAll, ReadAll, ChampMap.Represents,
      ChampMap.History, Encodable;
    RoundTrip(entries);
    ChampSnapshot.ForgetLists(entries, c);
    BuildListed(ForgetAll(entries), ChampSnapshot.ForgetMap(c));
    BuildInvariant(StoreTraits(less), ForgetAll(entries));
    ChampSnapshot.PutsModel(ForgetAll(entries), ChampSnapshot.ForgetMap(c));
    ChampMap.HistoryRepresents(ChampSnapshot.StoreTraits(hash), ChampSnapshot.Puts(ForgetAll(entries)));
  }

  /**
  Take a red-black map after any puts and a CHAMP map after any history, with the same contents.  The snapshot of
  either, read into an empty map of either kind, gives these contents without the read versions.
  */
  lemma SnapshotCompatible(less: (Key, Key) -> bool, hash: Key -> Champ.Hash, sort: ChampHistories.Sort,
                           puts: seq<StoreEntry>, ops: seq<ChampMap.Op<Key, Versioned>>)
    requires StrictOrder(StoreTraits(less)) && ChampHistories.IsSort(sort)
    requires BuildModel(puts) == ChampMap.Model(ops)
    requires forall k <- BuildModel(puts) :: Encodable(Entry(k, BuildModel(puts)[k]))
    ensures ChampMap.Sized(ChampSnapshot.StoreTraits(hash))
    ensures var c, t := ChampSnapshot.ForgetMap(BuildModel(puts)), ChampSnapshot.StoreTraits(hash);
      && LoadsAs(less, hash, Snapshot(Build(StoreTraits(less), puts)), c)
      && LoadsAs(less, hash, ChampHistories.SnapshotBytes(sort, hash, ChampMap.History(t, ops)), c)
  {
    hide StrictOrder, Sorted, Lists, Build, BuildModel, InOrder, SerializeAll, ReadAll, ChampMap.Represents,
      ChampMap.History, ChampMap.Model, ChampHistories.IsSort, ChampSnapshot.SnapshotOrder, ChampSize.Entries, Encodable,
      LoadsAs;
    var c, t := BuildModel(puts), ChampSnapshot.StoreTraits(hash);
    BuildInvariant(StoreTraits(less), puts);
    ListLoads(less, hash, InOrder(Build(StoreTraits(less), puts)), c);
    ChampHistories.StoreSized(hash);
    ChampHistories.HistoryOrder(sort, hash, ops);
    var m := ChampMap.History(t, ops);
    var order := ChampHistories.Ordered(sort, hash, ChampSize.Entries(m));
    ChampSnapshot.OrderLists(hash, m, c, order);
    ListLoads(less, hash, order, c);
  }
}
