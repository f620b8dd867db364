/** Lookup, put and remove in a CHAMP trie. */
module ChampOps {
  import opened Options
  import opened KeyValue
  import opened MapSerializers
  import opened ChampBits
  import opened Champ

  /** The type parameters of the source's map: its hash function and the serialised sizes of keys and
      values, each of which counts its own eight-byte length field. */
  datatype Traits<!K, !V> = Traits(hash: K -> Hash, keySize: K -> nat, valueSize: V -> nat)

  function PaddedSize<K, V>(t: Traits<K, V>, e: Entry<K, V>): nat {
    Padded(t.keySize(e.key)) + Padded(t.valueSize(e.value))
  }

  function PlainSize<K, V>(t: Traits<K, V>, k: K, v: V): nat {
    t.keySize(k) + t.valueSize(v)
  }

  // ----- Collision bins

  /** The first place of a key in a bin, or the end of the bin. */
  function FindKey<K(==), V>(bin: seq<Entry<K, V>>, k: K): (i: nat)
    ensures i <= |bin|
    ensures i < |bin| ==> bin[i].key == k
    ensures forall j :: 0 <= j < i ==> bin[j].key != k
  {
    if bin == [] || bin[0].key == k then 0 else 1 + FindKey(bin[1..], k)
  }

  function BinsGet<K(==), V>(bins: seq<seq<Entry<K, V>>>, hash: Hash, k: K): Option<V>
    requires |bins| == COLLISION_BINS
  {
    var bin := bins[Mask(hash, COLLISION_DEPTH)];
    var i := FindKey(bin, k);
    if i < |bin| then Some(bin[i].value) else None
  }

  function BinsPut<K(==), V>(t: Traits<K, V>, bins: seq<seq<Entry<K, V>>>, hash: Hash, k: K, v: V)
    : (r: (seq<seq<Entry<K, V>>>, nat))
    requires |bins| == COLLISION_BINS
    ensures |r.0| == COLLISION_BINS
  {
    var idx := Mask(hash, COLLISION_DEPTH);
    var bin := bins[idx];
    var i := FindKey(bin, k);
    if i < |bin| then (bins[idx := bin[i := Entry(k, v)]], PlainSize(t, k, v))
    else (bins[idx := bin + [Entry(k, v)]], 0)
  }

  function BinsRemove<K(==), V>(t: Traits<K, V>, bins: seq<seq<Entry<K, V>>>, hash: Hash, k: K)
    : (r: (seq<seq<Entry<K, V>>>, nat))
    requires |bins| == COLLISION_BINS
    ensures |r.0| == COLLISION_BINS
  {
    var idx := Mask(hash, COLLISION_DEPTH);
    var bin := bins[idx];
    var i := FindKey(bin, k);
    if i < |bin| then (bins[idx := EraseAt(bin, i)], PlainSize(t, bin[i].key, bin[i].value))
    else (bins, 0)
  }

  /** The node made when two keys agree on every level above the bins. */
  function BinsOf<K, V>(t: Traits<K, V>, e0: Entry<K, V>, e1: Entry<K, V>): (bins: seq<seq<Entry<K, V>>>)
    ensures |bins| == COLLISION_BINS
  {
    var idx0 := Mask(t.hash(e0.key), COLLISION_DEPTH);
    var idx1 := Mask(t.hash(e1.key), COLLISION_DEPTH);
    var bins: seq<seq<Entry<K, V>>> := [[], [], [], []][idx0 := [e0]];
    bins[idx1 := bins[idx1] + [e1]]
  }

  // ----- Well-formed tries

  predicate OnPath(hash: Hash, path: seq<nat>)
    requires |path| <= COLLISION_DEPTH
  {
    forall d :: 0 <= d < |path| ==> Mask(hash, d) == path[d]
  }

  ghost predicate BinsOk<K, V>(t: Traits<K, V>, bins: seq<seq<Entry<K, V>>>, path: seq<nat>)
    requires |path| == COLLISION_DEPTH
  {
    && |bins| == COLLISION_BINS
    && forall b, j :: 0 <= b < COLLISION_BINS && 0 <= j < |bins[b]| ==>
         && OnPath(t.hash(bins[b][j].key), path)
         && Mask(t.hash(bins[b][j].key), COLLISION_DEPTH) == b
         && forall i :: 0 <= i < j ==> bins[b][i].key != bins[b][j].key
  }

  /** Every key sits where its hash sends it: below the branches of `path`, one per level. */
  ghost predicate Wf<K, V>(t: Traits<K, V>, sn: SubNodes<K, V>, path: seq<nat>)
    requires |path| < COLLISION_DEPTH
    decreases COLLISION_DEPTH - |path|, 0
  {
    && Shape(sn)
    && forall i :: 0 <= i < WORD ==>
         match Slot(sn, i)
         case None => true
         case Some(n) => (n.Leaf? <==> sn.dataMap[i]) && NodeOk(t, n, path + [i])
  }

  ghost predicate NodeOk<K, V>(t: Traits<K, V>, n: Node<K, V>, path: seq<nat>)
    requires |path| <= COLLISION_DEPTH
    decreases COLLISION_DEPTH - |path|, 1
  {
    match n
    case Leaf(e) => OnPath(t.hash(e.key), path)
    case Inner(sub) => |path| < COLLISION_DEPTH && Wf(t, sub, path)
    case Bins(bins) => |path| == COLLISION_DEPTH && BinsOk(t, bins, path)
  }

  // ----- Lookup

  ghost predicate Fits<K, V>(t: Traits<K, V>, sn: SubNodes<K, V>, path: seq<nat>, k: K) {
    |path| < COLLISION_DEPTH && Wf(t, sn, path) && OnPath(t.hash(k), path)
  }

  /** The child that the hash of `k` leads to. */
  lemma Lookup<K, V>(t: Traits<K, V>, sn: SubNodes<K, V>, path: seq<nat>, k: K)
    requires Fits(t, sn, path, k)
    ensures var idx := Mask(t.hash(k), |path|);
      var c := CompressedIdx(sn, idx);
      && OnPath(t.hash(k), path + [idx])
      && NO_INDEX <= c < |sn.nodes|
      && Slot(sn, idx) == (if c == NO_INDEX then None else Some(sn.nodes[c]))
      && (c == NO_INDEX <==> !sn.dataMap[idx] && !sn.nodeMap[idx])
      && (c != NO_INDEX ==>
            && NodeOk(t, sn.nodes[c], path + [idx])
            && (sn.nodes[c].Leaf? <==> sn.dataMap[idx])
            && (sn.nodes[c].Bins? <==> sn.nodeMap[idx] && |path| == COLLISION_DEPTH - 1))
  {
    hide Mask, BinsOk, CompressedIdx;
    var idx := Mask(t.hash(k), |path|);
    CompressedBounds(sn, idx);
    var slot := Slot(sn, idx);
  }

  function Get<K(==), V>(t: Traits<K, V>, sn: SubNodes<K, V>, ghost path: seq<nat>, depth: nat, k: K): Option<V>
    requires Fits(t, sn, path, k) && depth == |path|
    decreases COLLISION_DEPTH - depth
  {
    Lookup(t, sn, path, k);
    var idx := Mask(t.hash(k), depth);
    var c := CompressedIdx(sn, idx);
    if c == NO_INDEX then None
    else if Check(sn.dataMap, idx) then
      var e := sn.nodes[c].entry;
      if k == e.key then Some(e.value) else None
    else if depth == COLLISION_DEPTH - 1 then BinsGet(sn.nodes[c].bins, t.hash(k), k)
    else Get(t, sn.nodes[c].sub, path + [idx], depth + 1, k)
  }

  /** Lookup below one node. */
  ghost function NodeGet<K, V>(t: Traits<K, V>, n: Node<K, V>, path: seq<nat>, k: K): Option<V>
    requires |path| <= COLLISION_DEPTH && NodeOk(t, n, path) && OnPath(t.hash(k), path)
  {
    match n
    case Leaf(e) => if e.key == k then Some(e.value) else None
    case Inner(sub) => Get(t, sub, path, |path|, k)
    case Bins(bins) => BinsGet(bins, t.hash(k), k)
  }

  lemma GetBySlot<K, V>(t: Traits<K, V>, sn: SubNodes<K, V>, path: seq<nat>, k: K)
    requires Fits(t, sn, path, k)
    ensures var idx := Mask(t.hash(k), |path|);
      && OnPath(t.hash(k), path + [idx])
      && match Slot(sn, idx)
         case None => Get(t, sn, path, |path|, k) == None
         case Some(n) => NodeOk(t, n, path + [idx]) && Get(t, sn, path, |path|, k) == NodeGet(t, n, path + [idx], k)
  {
    hide Mask, BinsOk, CompressedIdx, BinsGet, Wf, Slot;
    Lookup(t, sn, path, k);
  }

  // ----- Put

  /** A fresh node holding one entry. */
  function Single<K, V>(e: Entry<K, V>, idx: nat): SubNodes<K, V>
    requires idx < WORD
  {
    SubNodes([Leaf(e)], EMPTY, Set(EMPTY, idx))
  }

  lemma SingleSlots<K, V>(e: Entry<K, V>, idx: nat, i: nat)
    requires idx < WORD && i < WORD
    ensures Shape(Single(e, idx))
    ensures Slot(Single(e, idx), i) == if i == idx then Some(Leaf(e)) else None
  {
    hide Count, CompressedIdx, Slot;
    var none: SubNodes<K, V> := SubNodes([], EMPTY, EMPTY);
    NoneShape<K, V>();
    NoneSlot<K, V>(i);
    CountEmpty(idx);
    InsertSlot(none, idx, Leaf(e));
    assert InsertAt(none.nodes, 0, Leaf(e)) == [Leaf(e)];
  }

  lemma NoneShape<K, V>()
    ensures Shape(SubNodes<K, V>.SubNodes([], EMPTY, EMPTY))
  {
    CountEmpty(WORD);
  }

  lemma NoneSlot<K, V>(i: nat)
    requires i < WORD
    ensures var none: SubNodes<K, V> := SubNodes([], EMPTY, EMPTY); Shape(none) && Slot(none, i) == None
  {
    NoneShape<K, V>();
    CompressedBounds(SubNodes<K, V>.SubNodes([], EMPTY, EMPTY), i);
  }

  lemma SingleWf<K, V>(t: Traits<K, V>, e: Entry<K, V>, path: seq<nat>)
    requires |path| < COLLISION_DEPTH && OnPath(t.hash(e.key), path)
    ensures Wf(t, Single(e, Mask(t.hash(e.key), |path|)), path)
  {
    hide Mask, BinsOk, Slot;
    var idx := Mask(t.hash(e.key), |path|);
    SingleSlots(e, idx, 0);
    forall i | 0 <= i < WORD
      ensures Slot(Single(e, idx), i) == if i == idx then Some(Leaf(e)) else None
    {
      SingleSlots(e, idx, i);
    }
  }

  function Put<K(==), V>(t: Traits<K, V>, sn: SubNodes<K, V>, ghost path: seq<nat>, depth: nat, k: K, v: V)
    : (r: (SubNodes<K, V>, nat))
    requires Fits(t, sn, path, k) && depth == |path|
    decreases COLLISION_DEPTH - depth
  {
    Lookup(t, sn, path, k);
    var idx := Mask(t.hash(k), depth);
    var c := CompressedIdx(sn, idx);
    if c == NO_INDEX then
      InsertBounds(sn, idx);
      var dataMap := Set(sn.dataMap, idx);
      var c' := CompressedIdx(sn.(dataMap := dataMap), idx);
      (SubNodes(InsertAt(sn.nodes, c', Leaf(Entry(k, v))), sn.nodeMap, dataMap), 0)
    else if Check(sn.nodeMap, idx) then
      if depth < COLLISION_DEPTH - 1 then
        var (sub, r) := Put(t, sn.nodes[c].sub, path + [idx], depth + 1, k, v);
        (sn.(nodes := sn.nodes[c := Inner(sub)]), r)
      else
        var (bins, r) := BinsPut(t, sn.nodes[c].bins, t.hash(k), k, v);
        (sn.(nodes := sn.nodes[c := Bins(bins)]), r)
    else
      var entry0 := sn.nodes[c].entry;
      if k == entry0.key then
        (sn.(nodes := sn.nodes[c := Leaf(Entry(k, v))]), PaddedSize(t, entry0))
      else
        var child :=
          if depth < COLLISION_DEPTH - 1 then
            SingleWf(t, entry0, path + [idx]);
            var single := Single(entry0, Mask(t.hash(entry0.key), depth + 1));
            Inner(Put(t, single, path + [idx], depth + 1, k, v).0)
          else Bins(BinsOf(t, entry0, Entry(k, v)));
        (Branch(sn, idx, child), 0)
  }

  /** The entry at `idx` makes way for a node that holds it together with another entry. */
  function Branch<K, V>(sn: SubNodes<K, V>, idx: nat, child: Node<K, V>): SubNodes<K, V>
    requires Shape(sn) && idx < WORD && sn.dataMap[idx]
  {
    BranchBounds(sn, idx);
    var nodes := EraseAt(sn.nodes, CompressedIdx(sn, idx));
    var dataMap, nodeMap := Clear(sn.dataMap, idx), Set(sn.nodeMap, idx);
    var c := CompressedIdx(SubNodes(nodes, nodeMap, dataMap), idx);
    SubNodes(InsertAt(nodes, c, child), nodeMap, dataMap)
  }

  function Remove<K(==), V>(t: Traits<K, V>, sn: SubNodes<K, V>, ghost path: seq<nat>, depth: nat, k: K)
    : (r: (SubNodes<K, V>, nat))
    requires Fits(t, sn, path, k) && depth == |path|
    decreases COLLISION_DEPTH - depth
  {
    Lookup(t, sn, path, k);
    var idx := Mask(t.hash(k), depth);
    var c := CompressedIdx(sn, idx);
    if c == NO_INDEX then (sn, 0)
    else if Check(sn.dataMap, idx) then
      var e := sn.nodes[c].entry;
      if e.key != k then (sn, 0)
      else (SubNodes(EraseAt(sn.nodes, c), sn.nodeMap, Clear(sn.dataMap, idx)), PaddedSize(t, e))
    else if depth == COLLISION_DEPTH - 1 then
      var (bins, r) := BinsRemove(t, sn.nodes[c].bins, t.hash(k), k);
      (sn.(nodes := sn.nodes[c := Bins(bins)]), r)
    else
      var (sub, r) := Remove(t, sn.nodes[c].sub, path + [idx], depth + 1, k);
      (sn.(nodes := sn.nodes[c := Inner(sub)]), r)
  }
}
