/**
Snapshots over histories: which maps with the same contents, put together in different orders, have the same
snapshot bytes.
*/
module ChampHistories {
  import opened Options
  import opened Bytes
  import opened KeyValue
  import opened MapSerializers
  import opened Champ
  import opened ChampOps
  import opened ChampMap
  import opened ChampSize
  import opened ChampSnapshot
  import opened ChampTies
  import opened ChampEntries

  /** A sort that compares nothing but hashes: where it takes each element of its result from. */
  type Sort = seq<Hash> -> seq<nat>

  ghost predicate IsSort(sort: Sort) {
    forall hashes :: Sorts(hashes, sort(hashes))
  }

  /** A permutation that leaves the hashes in order. */
  ghost predicate Sorts(hashes: seq<Hash>, p: seq<nat>) {
    && |p| == |hashes|
    && (forall i :: 0 <= i < |p| ==> p[i] < |hashes|)
    && (forall i, j :: 0 <= i < j < |p| ==> p[i] != p[j])
    && (forall i :: 0 <= i < |hashes| ==> i in p)
    && (forall i, j :: 0 <= i < j < |p| ==> hashes[p[i]] <= hashes[p[j]])
  }

  function Hashes(hash: Key -> Hash, entries: seq<StoreEntry>): (hashes: seq<Hash>)
    ensures |hashes| == |entries|
    ensures forall i :: 0 <= i < |entries| ==> hashes[i] == hash(entries[i].key)
  {
    seq<Hash>(|entries|, i requires 0 <= i < |entries| => hash(entries[i].key))
  }

  /** The entries as the sort leaves them. */
  ghost function Ordered(sort: Sort, hash: Key -> Hash, entries: seq<StoreEntry>): (order: seq<StoreEntry>)
    requires IsSort(sort)
    ensures |order| == |entries|
    ensures var p := sort(Hashes(hash, entries));
      Sorts(Hashes(hash, entries), p) && forall i :: 0 <= i < |order| ==> order[i] == entries[p[i]]
  {
    var p := sort(Hashes(hash, entries));
    assert Sorts(Hashes(hash, entries), p);
    seq(|entries|, i requires 0 <= i < |entries| => entries[p[i]])
  }

  /** What a snapshot of the map writes. */
  ghost function SnapshotBytes(sort: Sort, hash: Key -> Hash, m: Store): seq<byte>
    requires IsSort(sort)
  {
    SerializeAll(Ordered(sort, hash, Entries(m)))
  }

  lemma OrderedIsOrder(sort: Sort, hash: Key -> Hash, m: Store)
    requires IsSort(sort) && Distinct(Entries(m))
    ensures SnapshotOrder(hash, m, Ordered(sort, hash, Entries(m)))
  {
    hide Entries, IsSort;
    var entries := Entries(m);
    var order, p := Ordered(sort, hash, entries), sort(Hashes(hash, entries));
    forall e
      ensures e in order <==> e in entries
    {
      if e in entries {
        var i :| 0 <= i < |entries| && entries[i] == e;
        assert i in p;
        var j :| 0 <= j < |p| && p[j] == i;
        assert order[j] == e;
      }
    }
    forall i, j | 0 <= i < j < |order|
      ensures order[i].key != order[j].key
    {
      assert entries[p[i]].key != entries[p[j]].key;
    }
  }

  // ----- Every contents has a history

  lemma {:induction false} SomeHistory(c: map<Key, Versioned>) returns (ops: seq<Op<Key, Versioned>>)
    ensures Model(ops) == c
    decreases |c|
  {
    if |c| == 0 {
      assert c == map[];
      ops := [];
    } else {
      var k :| k in c.Keys;
      assert (c - {k}).Keys == c.Keys - {k};
      var before := SomeHistory(c - {k});
      ops := before + [PutOp(k, c[k])];
      assert ops[..|ops| - 1] == before;
      assert (c - {k})[k := c[k]] == c;
    }
  }

  lemma ModelPut(ops: seq<Op<Key, Versioned>>, k: Key, v: Versioned)
    ensures Model(ops + [PutOp(k, v)]) == Model(ops)[k := v]
  {
    assert (ops + [PutOp(k, v)])[..|ops|] == ops;
  }

  lemma HistoryPut(t: Traits<Key, Versioned>, ops: seq<Op<Key, Versioned>>, k: Key, v: Versioned)
    requires Sized(t)
    ensures History(t, ops + [PutOp(k, v)]) == MapPut(t, History(t, ops), k, v)
  {
    assert (ops + [PutOp(k, v)])[..|ops|] == ops;
  }

  // ----- Two orders of putting

  function PutBoth(ops: seq<Op<Key, Versioned>>, e0: StoreEntry, e1: StoreEntry): seq<Op<Key, Versioned>> {
    ops + [PutOp(e0.key, e0.value)] + [PutOp(e1.key, e1.value)]
  }

  lemma StoreSized(hash: Key -> Hash)
    ensures Sized(StoreTraits(hash))
  {
  }

  /** Different keys of one hash, put in either order, are iterated over in that order. */
  lemma HistoriesTwisted(hash: Key -> Hash, ops: seq<Op<Key, Versioned>>, e0: StoreEntry, e1: StoreEntry)
    requires e0.key != e1.key && hash(e0.key) == hash(e1.key)
    requires e0.key !in Model(ops) && e1.key !in Model(ops)
    ensures Sized(StoreTraits(hash))
    ensures var t := StoreTraits(hash);
      Twisted(Entries(History(t, PutBoth(ops, e0, e1))), Entries(History(t, PutBoth(ops, e1, e0))), e0, e1)
  {
    hide Wf, Put, Get, NodesEntries, Twisted;
    var t := StoreTraits(hash);
    var m := History(t, ops);
    HistoryRepresents(t, ops);
    assert MapGet(t, m, e0.key) == None && MapGet(t, m, e1.key) == None;
    BothRoot(t, ops, e0, e1);
    BothRoot(t, ops, e1, e0);
    SubTwisted(t, m.root, [], e0, e1);
  }

  lemma BothRoot(t: Traits<Key, Versioned>, ops: seq<Op<Key, Versioned>>, e0: StoreEntry, e1: StoreEntry)
    requires Sized(t) && e0.key != e1.key && t.hash(e0.key) == t.hash(e1.key)
    ensures Tie(t, [], e0, e1)
    ensures History(t, PutBoth(ops, e0, e1)).root == Twice(t, History(t, ops).root, [], e0, e1)
  {
    hide Wf, Put, History, Mask;
    var mid := ops + [PutOp(e0.key, e0.value)];
    HistoryPut(t, ops, e0.key, e0.value);
    HistoryPut(t, mid, e1.key, e1.value);
  }

  lemma TwistedBytes(sort: Sort, hash: Key -> Hash, a: seq<StoreEntry>, b: seq<StoreEntry>,
                     e0: StoreEntry, e1: StoreEntry)
    requires IsSort(sort) && Twisted(a, b, e0, e1) && e0.key != e1.key && hash(e0.key) == hash(e1.key)
    requires forall e <- a :: Encodable(e)
    ensures SerializeAll(Ordered(sort, hash, a)) != SerializeAll(Ordered(sort, hash, b))
  {
    hide IsSort, SerializeAll, Encodable;
    var i :| TwistedAt(a, b, e0, e1, i);
    assert Hashes(hash, a) == Hashes(hash, b);
    var x, y, p := Ordered(sort, hash, a), Ordered(sort, hash, b), sort(Hashes(hash, a));
    assert i in p;
    var j :| 0 <= j < |p| && p[j] == i;
    forall k | 0 <= k < |x|
      ensures Encodable(x[k]) && Encodable(y[k])
    {
      assert a[p[k]] in a;
      assert b[p[k]] in a by {
        assert b[p[k]] == a[if p[k] == i then i + 1 else if p[k] == i + 1 then i else p[k]];
      }
    }
    DifferentBytes(x, y, j);
  }

  /** All histories that lead to the contents `c` give one snapshot. */
  ghost predicate OneSnapshot(sort: Sort, hash: Key -> Hash, c: map<Key, Versioned>)
    requires IsSort(sort) && Sized(StoreTraits(hash))
  {
    forall h0, h1 :: Model(h0) == c && Model(h1) == c ==>
      var t := StoreTraits(hash);
      SnapshotBytes(sort, hash, History(t, h0)) == SnapshotBytes(sort, hash, History(t, h1))
  }

  /**
  Whatever sort by hash is used, the snapshots of all maps with the same contents are the same bytes if and only
  if no two of the keys have the same hash.
  */
  lemma SameSnapshotIff(sort: Sort, hash: Key -> Hash, c: map<Key, Versioned>)
    requires IsSort(sort)
    requires forall k <- c :: Encodable(Entry(k, c[k]))
    ensures Sized(StoreTraits(hash))
    ensures OneSnapshot(sort, hash, c) <==> DistinctHashes(hash, c)
  {
    StoreSized(hash);
    if DistinctHashes(hash, c) {
      SnapshotsAgree(sort, hash, c);
    } else {
      var k0, k1 :| k0 in c && k1 in c && k0 != k1 && hash(k0) == hash(k1);
      SnapshotsDiffer(sort, hash, c, k0, k1);
    }
  }

  lemma SnapshotsAgree(sort: Sort, hash: Key -> Hash, c: map<Key, Versioned>)
    requires IsSort(sort) && Sized(StoreTraits(hash)) && DistinctHashes(hash, c)
    ensures OneSnapshot(sort, hash, c)
  {
    hide Represents, SnapshotOrder, SerializeAll, DistinctHashes, IsSort, Model, History, Entries, Lists, Distinct;
    var t := StoreTraits(hash);
    forall h0, h1 | Model(h0) == c && Model(h1) == c
      ensures SnapshotBytes(sort, hash, History(t, h0)) == SnapshotBytes(sort, hash, History(t, h1))
    {
      HistoryOrder(sort, hash, h0);
      HistoryOrder(sort, hash, h1);
      var m0, m1 := History(t, h0), History(t, h1);
      ByteIdentical(hash, m0, m1, c, Ordered(sort, hash, Entries(m0)), Ordered(sort, hash, Entries(m1)));
    }
  }

  lemma HistoryOrder(sort: Sort, hash: Key -> Hash, ops: seq<Op<Key, Versioned>>)
    requires IsSort(sort) && Sized(StoreTraits(hash))
    ensures var t := StoreTraits(hash); var m := History(t, ops);
      Represents(t, m, Model(ops)) && SnapshotOrder(hash, m, Ordered(sort, hash, Entries(m)))
  {
    hide Represents, SnapshotOrder, IsSort, Model, History, Entries;
    var t := StoreTraits(hash);
    HistoryRepresents(t, ops);
    EntriesListed(t, History(t, ops), Model(ops));
    OrderedIsOrder(sort, hash, History(t, ops));
  }

  lemma SnapshotsDiffer(sort: Sort, hash: Key -> Hash, c: map<Key, Versioned>, k0: Key, k1: Key)
    requires IsSort(sort) && Sized(StoreTraits(hash))
    requires forall k <- c :: Encodable(Entry(k, c[k]))
    requires k0 in c && k1 in c && k0 != k1 && hash(k0) == hash(k1)
    ensures !OneSnapshot(sort, hash, c)
  {
    hide SerializeAll, IsSort, History, Entries, Twisted, Encodable, Ordered, Represents;
    var t, e0, e1 := StoreTraits(hash), Entry(k0, c[k0]), Entry(k1, c[k1]);
    var ops := SomeHistory(c - {k0, k1});
    var h0, h1 := PutBoth(ops, e0, e1), PutBoth(ops, e1, e0);
    BothModel(ops, c, e0, e1);
    BothModel(ops, c, e1, e0);
    HistoriesTwisted(hash, ops, e0, e1);
    HistoryRepresents(t, h0);
    EntriesListed(t, History(t, h0), c);
    AllEncodable(Entries(History(t, h0)), c);
    TwistedBytes(sort, hash, Entries(History(t, h0)), Entries(History(t, h1)), e0, e1);
  }

  lemma AllEncodable(entries: seq<StoreEntry>, c: map<Key, Versioned>)
    requires Lists(entries, c) && forall k <- c :: Encodable(Entry(k, c[k]))
    ensures forall e <- entries :: Encodable(e)
  {
    hide Encodable;
    forall e | e in entries
      ensures Encodable(e)
    {
      assert Entry(e.key, e.value) in entries;
    }
  }

  lemma BothModel(ops: seq<Op<Key, Versioned>>, c: map<Key, Versioned>, e0: StoreEntry, e1: StoreEntry)
    requires e0.key in c && e1.key in c && c[e0.key] == e0.value && c[e1.key] == e1.value && e0.key != e1.key
    requires Model(ops) == c - {e0.key, e1.key}
    ensures Model(PutBoth(ops, e0, e1)) == c
  {
    hide Model;
    ModelPut(ops, e0.key, e0.value);
    ModelPut(ops + [PutOp(e0.key, e0.value)], e1.key, e1.value);
  }
}
