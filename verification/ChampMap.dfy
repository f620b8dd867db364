/** The map object over the trie: contents, size and serialised size over whole histories. */
module ChampMap {
  import opened Options
  import opened KeyValue
  import opened ChampBits
  import opened Champ
  import opened ChampOps
  import opened ChampCorrect

  datatype Map<+K, +V> = Map(root: SubNodes<K, V>, mapSize: int, serializedSize: int)

  function Empty<K, V>(): Map<K, V> {
    Map(SubNodes([], EMPTY, EMPTY), 0, 0)
  }

  ghost predicate MapOk<K, V>(t: Traits<K, V>, m: Map<K, V>) {
    Wf(t, m.root, [])
  }

  lemma EmptyWf<K, V>(t: Traits<K, V>)
    ensures MapOk(t, Empty<K, V>())
  {
    CountEmpty(WORD);
  }

  function MapGet<K(==), V>(t: Traits<K, V>, m: Map<K, V>, k: K): Option<V>
    requires MapOk(t, m)
  {
    Get(t, m.root, [], 0, k)
  }

  function MapPut<K(==), V>(t: Traits<K, V>, m: Map<K, V>, k: K, v: V): Map<K, V>
    requires MapOk(t, m)
  {
    var (root, r) := Put(t, m.root, [], 0, k, v);
    var sizeChange := PaddedSize(t, Entry(k, v)) - r;
    Map(root, if r == 0 then m.mapSize + 1 else m.mapSize, sizeChange + m.serializedSize)
  }

  function MapRemove<K(==), V>(t: Traits<K, V>, m: Map<K, V>, k: K): Map<K, V>
    requires MapOk(t, m)
  {
    var (root, r) := Remove(t, m.root, [], 0, k);
    Map(root, if r > 0 then m.mapSize - 1 else m.mapSize, m.serializedSize - r)
  }

  // ----- Contents

  /** `m` stands for the mathematical map `c`. */
  ghost predicate Represents<K(!new), V>(t: Traits<K, V>, m: Map<K, V>, c: map<K, V>) {
    && MapOk(t, m)
    && (forall k :: MapGet(t, m, k) == if k in c then Some(c[k]) else None)
    && m.mapSize == |c|
  }

  /** Every key has a serialised size, its length field at the least. */
  ghost predicate Sized<K(!new), V>(t: Traits<K, V>) {
    forall k :: t.keySize(k) > 0
  }

  lemma PutKeepsWf<K(!new), V>(t: Traits<K, V>, m: Map<K, V>, k: K, v: V)
    requires MapOk(t, m) && t.keySize(k) > 0
    ensures MapOk(t, MapPut(t, m, k, v))
  {
    hide Put, Wf;
    PutCorrect(t, m.root, [], k, v, k);
  }

  lemma PutRepresents<K(!new), V>(t: Traits<K, V>, m: Map<K, V>, c: map<K, V>, k: K, v: V)
    requires Represents(t, m, c) && t.keySize(k) > 0
    ensures Represents(t, MapPut(t, m, k, v), c[k := v])
  {
    hide Put, Wf, Get;
    PutKeepsWf(t, m, k, v);
    PutCorrect(t, m.root, [], k, v, k);
    var m' := MapPut(t, m, k, v);
    forall k2
      ensures MapGet(t, m', k2) == if k2 in c[k := v] then Some(c[k := v][k2]) else None
    {
      PutCorrect(t, m.root, [], k, v, k2);
    }
    assert MapGet(t, m, k) == if k in c then Some(c[k]) else None;
    UpdateSize(c, k, v);
  }

  lemma UpdateSize<K, V>(c: map<K, V>, k: K, v: V)
    ensures |c[k := v]| == if k in c then |c| else |c| + 1
  {
    assert c[k := v].Keys == c.Keys + {k};
  }

  lemma RemoveRepresents<K(!new), V>(t: Traits<K, V>, m: Map<K, V>, c: map<K, V>, k: K)
    requires Represents(t, m, c) && t.keySize(k) > 0
    ensures Represents(t, MapRemove(t, m, k), c - {k})
  {
    hide Remove, Wf, Get;
    RemoveCorrect(t, m.root, [], k, k);
    var m' := MapRemove(t, m, k);
    forall k2
      ensures MapGet(t, m', k2) == if k2 in c - {k} then Some((c - {k})[k2]) else None
    {
      RemoveCorrect(t, m.root, [], k, k2);
    }
    assert MapGet(t, m, k) == if k in c then Some(c[k]) else None;
    assert (c - {k}).Keys == c.Keys - {k};
  }

  // ----- Histories

  datatype Op<K, V> = PutOp(k: K, v: V) | RemoveOp(k: K)

  /** The map after a history, starting empty. */
  ghost function History<K(!new), V>(t: Traits<K, V>, ops: seq<Op<K, V>>): (m: Map<K, V>)
    requires Sized(t)
    ensures MapOk(t, m)
  {
    if ops == [] then EmptyWf<K, V>(t); Empty()
    else
      var before := History(t, ops[..|ops| - 1]);
      match ops[|ops| - 1]
      case PutOp(k, v) => PutKeepsWf(t, before, k, v); MapPut(t, before, k, v)
      case RemoveOp(k) => RemoveCorrect(t, before.root, [], k, k); MapRemove(t, before, k)
  }

  /** The mathematical map after the same history. */
  function Model<K, V>(ops: seq<Op<K, V>>): map<K, V> {
    if ops == [] then map[]
    else
      var before := Model(ops[..|ops| - 1]);
      match ops[|ops| - 1]
      case PutOp(k, v) => before[k := v]
      case RemoveOp(k) => before - {k}
  }

  /** After every history of puts and removes, for every hash function, lookups are those of a
      mathematical map and the stored size is its number of keys. */
  lemma {:induction false} HistoryRepresents<K(!new), V>(t: Traits<K, V>, ops: seq<Op<K, V>>)
    requires Sized(t)
    ensures Represents(t, History(t, ops), Model(ops))
  {
    hide Put, Remove, Wf, Get;
    if ops == [] {
      EmptyRepresents<K, V>(t);
    } else {
      var before := ops[..|ops| - 1];
      HistoryRepresents(t, before);
      match ops[|ops| - 1]
      case PutOp(k, v) => PutRepresents(t, History(t, before), Model(before), k, v);
      case RemoveOp(k) => RemoveRepresents(t, History(t, before), Model(before), k);
    }
  }

  lemma EmptyRepresents<K(!new), V>(t: Traits<K, V>)
    ensures Represents(t, Empty<K, V>(), map[])
  {
    EmptyWf<K, V>(t);
    forall k: K
      ensures MapGet(t, Empty<K, V>(), k) == None
    {
      CompressedBounds(Empty<K, V>().root, Mask(t.hash(k), 0));
    }
  }
}
