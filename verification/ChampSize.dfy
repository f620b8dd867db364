/**
The serialised size a CHAMP map keeps, against the size its entries really have.

Replacing or removing a key in a collision bin reports sizes without padding, and a replace there
reports the size of the new value in place of the old one, so the kept size can drift away from
the real one.  This module says exactly when.
*/
module ChampSize {
  import opened Options
  import opened KeyValue
  import opened MapSerializers
  import opened Champ
  import opened ChampOps
  import opened ChampMap
  import opened ChampEntries

  function Entries<K, V>(m: Map<K, V>): seq<Entry<K, V>> {
    NodesEntries(m.root.nodes)
  }

  /** `foreach` lists the contents of the map, each key once. */
  lemma EntriesListed<K(!new), V(!new)>(t: Traits<K, V>, m: Map<K, V>, c: map<K, V>)
    requires Represents(t, m, c)
    ensures Lists(Entries(m), c)
  {
    hide Wf, Get, NodesEntries, Distinct;
    SubDistinct(t, m.root, []);
    forall k, v
      ensures Entry(k, v) in Entries(m) <==> k in c && c[k] == v
    {
      assert MapGet(t, m, k) == if k in c then Some(c[k]) else None;
      if Entry(k, v) in Entries(m) {
        SubFound(t, m.root, [], Entry(k, v));
      }
      if k in c && c[k] == v {
        SubListed(t, m.root, [], k);
      }
    }
  }

  ghost function TrueSize<K, V>(t: Traits<K, V>, m: Map<K, V>): nat {
    Total(e => PaddedSize(t, e), Entries(m))
  }

  ghost function Drift<K, V>(t: Traits<K, V>, m: Map<K, V>): int {
    m.serializedSize - TrueSize(t, m)
  }

  // ----- What put and remove report

  /** The lookup of `k` ends in a collision bin. */
  ghost predicate InBins<K, V>(t: Traits<K, V>, sn: SubNodes<K, V>, path: seq<nat>, k: K)
    requires Fits(t, sn, path, k)
    decreases COLLISION_DEPTH - |path|
  {
    Lookup(t, sn, path, k);
    var idx := Mask(t.hash(k), |path|);
    var c := CompressedIdx(sn, idx);
    && c != NO_INDEX
    && match sn.nodes[c]
       case Leaf(_) => false
       case Inner(sub) => InBins(t, sub, path + [idx], k)
       case Bins(_) => true
  }

  lemma {:induction false} PutReturns<K, V>(t: Traits<K, V>, sn: SubNodes<K, V>, path: seq<nat>, k: K, v: V)
    requires Fits(t, sn, path, k)
    ensures Put(t, sn, path, |path|, k, v).1 ==
      match Get(t, sn, path, |path|, k)
      case None => 0
      case Some(v0) => if InBins(t, sn, path, k) then PlainSize(t, k, v) else PaddedSize(t, Entry(k, v0))
    decreases COLLISION_DEPTH - |path|
  {
    hide Mask, CompressedIdx, Slot, Branch, BinsOf, Single, FindKey;
    Lookup(t, sn, path, k);
    var idx := Mask(t.hash(k), |path|);
    var c := CompressedIdx(sn, idx);
    if c != NO_INDEX && sn.nodes[c].Inner? {
      PutReturns(t, sn.nodes[c].sub, path + [idx], k, v);
    }
  }

  lemma {:induction false} RemoveReturns<K, V>(t: Traits<K, V>, sn: SubNodes<K, V>, path: seq<nat>, k: K)
    requires Fits(t, sn, path, k)
    ensures Remove(t, sn, path, |path|, k).1 ==
      match Get(t, sn, path, |path|, k)
      case None => 0
      case Some(v0) => if InBins(t, sn, path, k) then PlainSize(t, k, v0) else PaddedSize(t, Entry(k, v0))
    decreases COLLISION_DEPTH - |path|
  {
    hide Mask, CompressedIdx, Slot, Wf, FindKey;
    Lookup(t, sn, path, k);
    var idx := Mask(t.hash(k), |path|);
    var c := CompressedIdx(sn, idx);
    if c != NO_INDEX && sn.nodes[c].Inner? {
      RemoveReturns(t, sn.nodes[c].sub, path + [idx], k);
    }
  }

  // ----- What happens to the real size

  /** A list of `c` updated at one key is a list of the updated map. */
  lemma ListsPut<K(!new), V(!new)>(entries: seq<Entry<K, V>>, c: map<K, V>, i: nat, k: K, v: V)
    requires Lists(entries, c) && i <= |entries|
    requires if i < |entries| then entries[i].key == k else k !in c
    ensures Lists(if i < |entries| then entries[i := Entry(k, v)] else entries + [Entry(k, v)], c[k := v])
  {
    var entries' := if i < |entries| then entries[i := Entry(k, v)] else entries + [Entry(k, v)];
    forall j | 0 <= j < |entries| && j != i
      ensures entries[j].key != k
    {
      assert Entry(entries[j].key, entries[j].value) in entries;
    }
    assert entries'[i] == Entry(k, v);
    forall k2, v2
      ensures Entry(k2, v2) in entries' <==> k2 in c[k := v] && c[k := v][k2] == v2
    {
      assert Entry(k2, v2) in entries <==> k2 in c && c[k2] == v2;
      if k2 != k {
        OtherKeys(entries, entries', i, Entry(k2, v2));
      }
    }
  }

  lemma OtherKeys<K, V>(a: seq<Entry<K, V>>, b: seq<Entry<K, V>>, i: nat, e: Entry<K, V>)
    requires i <= |a| <= |b| && i < |b|
    requires forall j :: 0 <= j < |b| && j != i ==> j < |a| && b[j] == a[j]
    requires b[i].key != e.key && (i < |a| ==> a[i].key == b[i].key)
    ensures e in a <==> e in b
  {
    if e in a {
      var j :| 0 <= j < |a| && a[j] == e;
      assert b[j] == e;
    }
  }

  lemma PutTrueSize<K(!new), V(!new)>(t: Traits<K, V>, m: Map<K, V>, c: map<K, V>, k: K, v: V)
    requires Represents(t, m, c) && t.keySize(k) > 0
    ensures MapOk(t, MapPut(t, m, k, v))
    ensures TrueSize(t, MapPut(t, m, k, v)) ==
      TrueSize(t, m) + PaddedSize(t, Entry(k, v)) - if k in c then PaddedSize(t, Entry(k, c[k])) else 0
  {
    hide Wf, Get, Put, NodesEntries, Lists, Represents;
    RepresentsOk(t, m, c);
    PutKeepsWf(t, m, k, v);
    PutRepresents(t, m, c, k, v);
    EntriesListed(t, m, c);
    EntriesListed(t, MapPut(t, m, k, v), c[k := v]);
    ListTotalPut(e => PaddedSize(t, e), Entries(m), Entries(MapPut(t, m, k, v)), c, k, v);
  }

  lemma RepresentsOk<K(!new), V>(t: Traits<K, V>, m: Map<K, V>, c: map<K, V>)
    requires Represents(t, m, c)
    ensures MapOk(t, m)
  {
  }

  lemma ListTotalPut<K(!new), V(!new)>(weight: Entry<K, V> -> nat, a: seq<Entry<K, V>>, b: seq<Entry<K, V>>,
                                       c: map<K, V>, k: K, v: V)
    requires Lists(a, c) && Lists(b, c[k := v])
    ensures Total(weight, b) ==
      Total(weight, a) + weight(Entry(k, v)) - if k in c then weight(Entry(k, c[k])) else 0
  {
    hide Total;
    var i := |a|;
    if k in c {
      assert Entry(k, c[k]) in a;
      i :| 0 <= i < |a| && a[i] == Entry(k, c[k]);
      TotalReplace(weight, a, i, Entry(k, v));
    } else {
      TotalConcat(weight, a, [Entry(k, v)]);
      TotalOne(weight, Entry(k, v));
    }
    ListsPut(a, c, i, k, v);
    var a' := if i < |a| then a[i := Entry(k, v)] else a + [Entry(k, v)];
    ListsSame(a', b, c[k := v]);
    TotalOrderFree(weight, a', b);
  }

  lemma TotalOne<K, V>(weight: Entry<K, V> -> nat, e: Entry<K, V>)
    ensures Total(weight, [e]) == weight(e)
  {
  }

  lemma ListTotalRemove<K(!new), V(!new)>(weight: Entry<K, V> -> nat, a: seq<Entry<K, V>>, b: seq<Entry<K, V>>,
                                          c: map<K, V>, k: K)
    requires Lists(a, c) && Lists(b, c - {k})
    ensures Total(weight, b) == Total(weight, a) - if k in c then weight(Entry(k, c[k])) else 0
  {
    hide Total;
    if k in c {
      assert Entry(k, c[k]) in a;
      var i :| 0 <= i < |a| && a[i] == Entry(k, c[k]);
      TotalAround(weight, a, i);
      ListsErase(a, c, i);
      ListsSame(EraseAt(a, i), b, c - {k});
      TotalOrderFree(weight, EraseAt(a, i), b);
    } else {
      assert c - {k} == c;
      ListsSame(a, b, c);
      TotalOrderFree(weight, a, b);
    }
  }

  lemma ListsErase<K(!new), V(!new)>(entries: seq<Entry<K, V>>, c: map<K, V>, i: nat)
    requires Lists(entries, c) && i < |entries|
    ensures Lists(EraseAt(entries, i), c - {entries[i].key})
  {
    var e := entries[i];
    DistinctErase(entries, i);
    assert Entry(e.key, e.value) in entries;
    forall k, v
      ensures Entry(k, v) in EraseAt(entries, i) <==> k in c - {e.key} && (c - {e.key})[k] == v
    {
      assert Entry(k, v) in entries <==> k in c && c[k] == v;
    }
  }

  lemma RemoveTrueSize<K(!new), V(!new)>(t: Traits<K, V>, m: Map<K, V>, c: map<K, V>, k: K)
    requires Represents(t, m, c) && t.keySize(k) > 0
    ensures TrueSize(t, MapRemove(t, m, k)) ==
      TrueSize(t, m) - if k in c then PaddedSize(t, Entry(k, c[k])) else 0
  {
    hide Wf, Get, Remove, NodesEntries, Lists, Represents;
    RepresentsOk(t, m, c);
    RemoveRepresents(t, m, c, k);
    EntriesListed(t, m, c);
    EntriesListed(t, MapRemove(t, m, k), c - {k});
    ListTotalRemove(e => PaddedSize(t, e), Entries(m), Entries(MapRemove(t, m, k)), c, k);
  }

  // ----- Drift

  /** A put moves the kept size away from the real one only when it replaces a key in a bin. */
  lemma PutDrift<K(!new), V(!new)>(t: Traits<K, V>, m: Map<K, V>, c: map<K, V>, k: K, v: V)
    requires Represents(t, m, c) && t.keySize(k) > 0
    ensures Drift(t, MapPut(t, m, k, v)) == Drift(t, m) +
      if k in c && InBins(t, m.root, [], k) then PaddedSize(t, Entry(k, c[k])) - PlainSize(t, k, v) else 0
  {
    hide Wf, Get, Put, Entries, InBins;
    PutTrueSize(t, m, c, k, v);
    PutReturns(t, m.root, [], k, v);
    assert MapGet(t, m, k) == if k in c then Some(c[k]) else None;
  }

  lemma RemoveDrift<K(!new), V(!new)>(t: Traits<K, V>, m: Map<K, V>, c: map<K, V>, k: K)
    requires Represents(t, m, c) && t.keySize(k) > 0
    ensures Drift(t, MapRemove(t, m, k)) == Drift(t, m) +
      if k in c && InBins(t, m.root, [], k) then PaddedSize(t, Entry(k, c[k])) - PlainSize(t, k, c[k]) else 0
  {
    hide Wf, Get, Remove, Entries, InBins;
    RemoveTrueSize(t, m, c, k);
    RemoveReturns(t, m.root, [], k);
    assert MapGet(t, m, k) == if k in c then Some(c[k]) else None;
  }

  /** A put on a map whose kept size is right leaves it right exactly when it does not replace a key
      in a bin by one of a different size, the old size counted with its padding. */
  lemma PutExactIff<K(!new), V(!new)>(t: Traits<K, V>, m: Map<K, V>, c: map<K, V>, k: K, v: V)
    requires Represents(t, m, c) && t.keySize(k) > 0 && Drift(t, m) == 0
    ensures Drift(t, MapPut(t, m, k, v)) == 0 <==>
      !(k in c && InBins(t, m.root, [], k) && PaddedSize(t, Entry(k, c[k])) != PlainSize(t, k, v))
  {
    hide Wf, Get, Put, Entries, InBins, Drift;
    PutDrift(t, m, c, k, v);
  }

  /** Keys and values whose sizes need no padding, all values of one size. */
  ghost predicate Uniform<K(!new), V(!new)>(t: Traits<K, V>) {
    && Sized(t)
    && (forall k :: Padding(t.keySize(k)) == 0)
    && (forall v :: Padding(t.valueSize(v)) == 0)
    && (forall v, w :: t.valueSize(v) == t.valueSize(w))
  }

  /** With such sizes the kept size is right after every history. */
  lemma {:induction false} UniformExact<K(!new), V(!new)>(t: Traits<K, V>, ops: seq<Op<K, V>>)
    requires Uniform(t)
    ensures History(t, ops).serializedSize == TrueSize(t, History(t, ops))
  {
    hide Wf, Get, Put, Remove, InBins, Represents, Padding, Entries;
    if ops == [] {
      assert Entries(Empty<K, V>()) == [] by { EmptyEntries<K, V>(); }
    } else {
      var before := ops[..|ops| - 1];
      UniformExact(t, before);
      HistoryRepresents(t, before);
      match ops[|ops| - 1]
      case PutOp(k, v) => PutDrift(t, History(t, before), Model(before), k, v);
      case RemoveOp(k) => RemoveDrift(t, History(t, before), Model(before), k);
    }
  }

  lemma EmptyEntries<K, V>()
    ensures Entries(Empty<K, V>()) == []
  {
  }

  /** Two keys with the same hash that are both present are in bins. */
  lemma {:induction false} CollidingInBins<K, V>(t: Traits<K, V>, sn: SubNodes<K, V>, path: seq<nat>, k0: K, k1: K)
    requires Fits(t, sn, path, k0) && Fits(t, sn, path, k1) && k0 != k1 && t.hash(k0) == t.hash(k1)
    requires Get(t, sn, path, |path|, k0).Some? && Get(t, sn, path, |path|, k1).Some?
    ensures InBins(t, sn, path, k0)
    decreases COLLISION_DEPTH - |path|
  {
    hide Mask, CompressedIdx, Slot, Wf, BinsGet;
    Lookup(t, sn, path, k0);
    var idx := Mask(t.hash(k0), |path|);
    var c := CompressedIdx(sn, idx);
    if sn.nodes[c].Inner? {
      CollidingInBins(t, sn.nodes[c].sub, path + [idx], k0, k1);
    }
  }

  /** Whenever two keys collide, overwriting one of them with a value of another size makes the kept
      size wrong: every hash function with a collision has such a history. */
  lemma SizeDrifts<K(!new), V(!new)>(t: Traits<K, V>, k0: K, k1: K, v: V, u: V, w: V)
    requires Sized(t) && k0 != k1 && t.hash(k0) == t.hash(k1)
    requires PaddedSize(t, Entry(k0, v)) != PlainSize(t, k0, w)
    ensures var m := History(t, [PutOp(k0, v), PutOp(k1, u), PutOp(k0, w)]);
      m.serializedSize - TrueSize(t, m) == PaddedSize(t, Entry(k0, v)) - PlainSize(t, k0, w) != 0
  {
    hide Wf, Get, Put, InBins, PaddedSize, PlainSize;
    var one, two := [PutOp(k0, v)], [PutOp(k0, v), PutOp(k1, u)];
    var three := [PutOp(k0, v), PutOp(k1, u), PutOp(k0, w)];
    assert one[..0] == [] && two[..1] == one && three[..2] == two;
    var none: seq<Op<K, V>> := [];
    HistoryRepresents(t, none);
    HistoryRepresents(t, one);
    HistoryRepresents(t, two);
    EmptyEntries<K, V>();
    assert Model(none) == map[] && Model(one) == map[k0 := v] && Model(two) == map[k0 := v, k1 := u];
    PutDrift(t, History(t, none), Model(none), k0, v);
    PutDrift(t, History(t, one), Model(one), k1, u);
    PutDrift(t, History(t, two), Model(two), k0, w);
    assert MapGet(t, History(t, two), k0) == Some(v) && MapGet(t, History(t, two), k1) == Some(u);
    CollidingInBins(t, History(t, two).root, [], k0, k1);
  }
}
