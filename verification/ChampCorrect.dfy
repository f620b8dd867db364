/** The trie operations agree with a mathematical map. */
module ChampCorrect {
  import opened Options
  import opened KeyValue
  import opened ChampBits
  import opened Champ
  import opened ChampOps

  // ----- Bins

  function BinGet<K(==), V>(bin: seq<Entry<K, V>>, k: K): Option<V> {
    var i := FindKey(bin, k);
    if i < |bin| then Some(bin[i].value) else None
  }

  lemma FindIs<K, V>(bin: seq<Entry<K, V>>, k: K, i: nat)
    requires i <= |bin| && (i < |bin| ==> bin[i].key == k)
    requires forall j :: 0 <= j < i ==> bin[j].key != k
    ensures FindKey(bin, k) == i
  {
    hide FindKey;
    var f := FindKey(bin, k);
    assert !(i < f);
  }

  lemma BinAppend<K, V>(bin: seq<Entry<K, V>>, e: Entry<K, V>, k: K)
    requires Distinct(bin) && FindKey(bin, e.key) == |bin|
    ensures Distinct(bin + [e])
    ensures BinGet(bin + [e], k) == if k == e.key then Some(e.value) else BinGet(bin, k)
  {
    hide FindKey;
    var f := FindKey(bin, k);
    FindIs(bin + [e], k, if f < |bin| || k == e.key then f else |bin| + 1);
  }

  lemma BinReplace<K, V>(bin: seq<Entry<K, V>>, i: nat, v: V, k: K)
    requires Distinct(bin) && i < |bin|
    ensures var bin' := bin[i := Entry(bin[i].key, v)];
      && Distinct(bin')
      && BinGet(bin', k) == if k == bin[i].key then Some(v) else BinGet(bin, k)
  {
    hide FindKey;
    FindIs(bin[i := Entry(bin[i].key, v)], k, FindKey(bin, k));
    if k == bin[i].key {
      FindIs(bin, k, i);
    }
  }

  lemma BinErase<K, V>(bin: seq<Entry<K, V>>, i: nat, k: K)
    requires Distinct(bin) && i < |bin|
    ensures Distinct(EraseAt(bin, i))
    ensures BinGet(EraseAt(bin, i), k) == if k == bin[i].key then None else BinGet(bin, k)
  {
    hide FindKey;
    var f := FindKey(bin, k);
    if k == bin[i].key {
      FindIs(bin, k, i);
      FindIs(EraseAt(bin, i), k, |bin| - 1);
    } else {
      FindIs(EraseAt(bin, i), k, if f <= i then f else f - 1);
    }
  }

  /** Changing the bin that the hash of `k` selects. */
  lemma BinsUpdate<K, V>(t: Traits<K, V>, bins: seq<seq<Entry<K, V>>>, path: seq<nat>, k: K,
                         bin: seq<Entry<K, V>>)
    requires |path| == COLLISION_DEPTH && BinsOk(t, bins, path) && OnPath(t.hash(k), path)
    requires Distinct(bin)
    requires var idx := Mask(t.hash(k), COLLISION_DEPTH);
      forall j :: 0 <= j < |bin| ==> bin[j].key == k || exists i :: 0 <= i < |bins[idx]| && bins[idx][i].key == bin[j].key
    ensures BinsOk(t, bins[Mask(t.hash(k), COLLISION_DEPTH) := bin], path)
  {
    hide Mask;
  }

  lemma BinDistinct<K, V>(t: Traits<K, V>, bins: seq<seq<Entry<K, V>>>, path: seq<nat>, idx: nat)
    requires |path| == COLLISION_DEPTH && BinsOk(t, bins, path) && idx < COLLISION_BINS
    ensures Distinct(bins[idx])
  {
    hide Mask, OnPath;
  }

  lemma BinsPutCorrect<K, V>(t: Traits<K, V>, bins: seq<seq<Entry<K, V>>>, path: seq<nat>, k: K, v: V, k2: K)
    requires |path| == COLLISION_DEPTH && BinsOk(t, bins, path) && OnPath(t.hash(k), path)
    requires t.keySize(k) > 0
    ensures var r := BinsPut(t, bins, t.hash(k), k, v);
      && BinsOk(t, r.0, path)
      && (r.1 == 0 <==> BinsGet(bins, t.hash(k), k) == None)
      && BinsGet(r.0, t.hash(k2), k2) == if k2 == k then Some(v) else BinsGet(bins, t.hash(k2), k2)
  {
    hide Mask;
    var idx := Mask(t.hash(k), COLLISION_DEPTH);
    var bin := bins[idx];
    BinDistinct(t, bins, path, idx);
    var i := FindKey(bin, k);
    if i < |bin| {
      BinReplace(bin, i, v, k2);
      BinsUpdate(t, bins, path, k, bin[i := Entry(k, v)]);
    } else {
      BinAppend(bin, Entry(k, v), k2);
      BinsUpdate(t, bins, path, k, bin + [Entry(k, v)]);
    }
  }

  lemma BinsRemoveCorrect<K, V>(t: Traits<K, V>, bins: seq<seq<Entry<K, V>>>, path: seq<nat>, k: K, k2: K)
    requires |path| == COLLISION_DEPTH && BinsOk(t, bins, path) && OnPath(t.hash(k), path)
    requires t.keySize(k) > 0
    ensures var r := BinsRemove(t, bins, t.hash(k), k);
      && BinsOk(t, r.0, path)
      && (r.1 == 0 <==> BinsGet(bins, t.hash(k), k) == None)
      && BinsGet(r.0, t.hash(k2), k2) == if k2 == k then None else BinsGet(bins, t.hash(k2), k2)
  {
    hide Mask;
    var idx := Mask(t.hash(k), COLLISION_DEPTH);
    var bin := bins[idx];
    BinDistinct(t, bins, path, idx);
    var i := FindKey(bin, k);
    if i < |bin| {
      BinErase(bin, i, k2);
      BinsUpdate(t, bins, path, k, EraseAt(bin, i));
    }
  }

  lemma BinsOfCorrect<K, V>(t: Traits<K, V>, e0: Entry<K, V>, e1: Entry<K, V>, path: seq<nat>, k2: K)
    requires |path| == COLLISION_DEPTH && OnPath(t.hash(e0.key), path) && OnPath(t.hash(e1.key), path)
    requires e0.key != e1.key
    ensures BinsOk(t, BinsOf(t, e0, e1), path)
    ensures BinsGet(BinsOf(t, e0, e1), t.hash(k2), k2) ==
      if k2 == e1.key then Some(e1.value) else if k2 == e0.key then Some(e0.value) else None
  {
    hide Mask;
    var empty: seq<seq<Entry<K, V>>> := [[], [], [], []];
    var idx0, idx1 := Mask(t.hash(e0.key), COLLISION_DEPTH), Mask(t.hash(e1.key), COLLISION_DEPTH);
    BinsUpdate(t, empty, path, e0.key, [e0]);
    var one := empty[idx0 := [e0]];
    BinDistinct(t, one, path, idx1);
    BinAppend(one[idx1], e1, k2);
    BinsUpdate(t, one, path, e1.key, one[idx1] + [e1]);
  }

  // ----- One slot changes

  /** `sn'` differs from `sn` in slot `idx` alone, which now is `x`. */
  ghost predicate Updated<K, V>(t: Traits<K, V>, sn: SubNodes<K, V>, sn': SubNodes<K, V>,
                                path: seq<nat>, idx: nat, x: Option<Node<K, V>>)
    requires |path| < COLLISION_DEPTH && idx < WORD
  {
    && Wf(t, sn, path) && Shape(sn')
    && (forall i :: 0 <= i < WORD ==> Slot(sn', i) == if i == idx then x else Slot(sn, i))
    && (forall i :: 0 <= i < WORD && i != idx ==> sn'.dataMap[i] == sn.dataMap[i])
    && (x.Some? ==> (x.value.Leaf? <==> sn'.dataMap[idx]) && NodeOk(t, x.value, path + [idx]))
  }

  lemma UpdatedWf<K, V>(t: Traits<K, V>, sn: SubNodes<K, V>, sn': SubNodes<K, V>,
                        path: seq<nat>, idx: nat, x: Option<Node<K, V>>)
    requires |path| < COLLISION_DEPTH && idx < WORD && Updated(t, sn, sn', path, idx, x)
    ensures Wf(t, sn', path)
  {
    hide Slot, NodeOk;
  }

  ghost function OptionGet<K, V>(t: Traits<K, V>, x: Option<Node<K, V>>, path: seq<nat>, k: K): Option<V>
    requires |path| <= COLLISION_DEPTH && OnPath(t.hash(k), path)
    requires x.Some? ==> NodeOk(t, x.value, path)
  {
    if x.Some? then NodeGet(t, x.value, path, k) else None
  }

  lemma UpdatedGet<K, V>(t: Traits<K, V>, sn: SubNodes<K, V>, sn': SubNodes<K, V>,
                         path: seq<nat>, idx: nat, x: Option<Node<K, V>>, k: K)
    requires |path| < COLLISION_DEPTH && idx < WORD && Updated(t, sn, sn', path, idx, x)
    requires OnPath(t.hash(k), path)
    ensures Fits(t, sn, path, k) && Fits(t, sn', path, k)
    ensures OnPath(t.hash(k), path + [Mask(t.hash(k), |path|)])
    ensures Get(t, sn', path, |path|, k) ==
      if Mask(t.hash(k), |path|) == idx then OptionGet(t, x, path + [idx], k)
      else Get(t, sn, path, |path|, k)
  {
    hide Slot, Get, NodeGet, NodeOk, Mask, Wf;
    UpdatedWf(t, sn, sn', path, idx, x);
    GetBySlot(t, sn, path, k);
    GetBySlot(t, sn', path, k);
  }

  /** What a put must do at a node: where it goes, the rest of the node stays. */
  lemma PutAt<K, V>(t: Traits<K, V>, sn: SubNodes<K, V>, sn': SubNodes<K, V>, path: seq<nat>,
                    k: K, v: V, x: Node<K, V>, k2: K)
    requires Fits(t, sn, path, k) && OnPath(t.hash(k2), path)
    requires Updated(t, sn, sn', path, Mask(t.hash(k), |path|), Some(x))
    requires OnPath(t.hash(k2), path + [Mask(t.hash(k), |path|)]) ==>
      var idx := Mask(t.hash(k), |path|);
      && (Slot(sn, idx).Some? ==> NodeOk(t, Slot(sn, idx).value, path + [idx]))
      && NodeGet(t, x, path + [idx], k2) ==
           if k2 == k then Some(v) else OptionGet(t, Slot(sn, idx), path + [idx], k2)
    ensures Fits(t, sn', path, k2) && Fits(t, sn, path, k2)
    ensures Get(t, sn', path, |path|, k2) == if k2 == k then Some(v) else Get(t, sn, path, |path|, k2)
  {
    hide Slot, Get, NodeGet, NodeOk, Mask, Wf;
    var idx := Mask(t.hash(k), |path|);
    UpdatedGet(t, sn, sn', path, idx, Some(x), k2);
    GetBySlot(t, sn, path, k2);
  }

  // ----- Put

  ghost predicate PutOk<K, V>(t: Traits<K, V>, sn: SubNodes<K, V>, r: (SubNodes<K, V>, nat),
                              path: seq<nat>, k: K, v: V, k2: K)
    requires Fits(t, sn, path, k) && OnPath(t.hash(k2), path)
  {
    && Fits(t, r.0, path, k2)
    && (r.1 == 0 <==> Get(t, sn, path, |path|, k) == None)
    && Get(t, r.0, path, |path|, k2) == if k2 == k then Some(v) else Get(t, sn, path, |path|, k2)
  }

  lemma PutInsert<K, V>(t: Traits<K, V>, sn: SubNodes<K, V>, path: seq<nat>, k: K, v: V, k2: K)
    requires Fits(t, sn, path, k) && OnPath(t.hash(k2), path)
    requires CompressedIdx(sn, Mask(t.hash(k), |path|)) == NO_INDEX
    ensures PutOk(t, sn, Put(t, sn, path, |path|, k, v), path, k, v, k2)
  {
    hide Mask, CompressedIdx, NodeOk, Get;
    Lookup(t, sn, path, k);
    GetBySlot(t, sn, path, k);
    var idx := Mask(t.hash(k), |path|);
    InsertBounds(sn, idx);
    InsertSlot(sn, idx, Leaf(Entry(k, v)));
    var sn' := Put(t, sn, path, |path|, k, v).0;
    LeafOk(t, Entry(k, v), path + [idx]);
    PutAt(t, sn, sn', path, k, v, Leaf(Entry(k, v)), k2);
  }

  lemma LeafOk<K, V>(t: Traits<K, V>, e: Entry<K, V>, path: seq<nat>)
    requires |path| <= COLLISION_DEPTH && OnPath(t.hash(e.key), path)
    ensures NodeOk(t, Leaf(e), path)
  {
    hide Mask;
  }

  /** The slot that the hash of `k` leads to is occupied. */
  ghost predicate Occupied<K, V>(t: Traits<K, V>, sn: SubNodes<K, V>, path: seq<nat>, k: K)
    requires Fits(t, sn, path, k)
  {
    var idx := Mask(t.hash(k), |path|);
    CompressedIdx(sn, idx) != NO_INDEX
  }

  /** Putting `x` in the occupied slot of `k`, as put and remove do below a node. */
  lemma Replaced<K, V>(t: Traits<K, V>, sn: SubNodes<K, V>, path: seq<nat>, k: K, x: Node<K, V>)
    requires Fits(t, sn, path, k) && Occupied(t, sn, path, k)
    requires NodeOk(t, x, path + [Mask(t.hash(k), |path|)])
    requires x.Leaf? <==> sn.dataMap[Mask(t.hash(k), |path|)]
    ensures var idx := Mask(t.hash(k), |path|);
      && 0 <= CompressedIdx(sn, idx) < |sn.nodes|
      && Updated(t, sn, sn.(nodes := sn.nodes[CompressedIdx(sn, idx) := x]), path, idx, Some(x))
  {
    hide Mask, CompressedIdx, NodeOk, Slot;
    Lookup(t, sn, path, k);
    ReplaceSlot(sn, Mask(t.hash(k), |path|), x);
  }

  lemma PutReplace<K, V>(t: Traits<K, V>, sn: SubNodes<K, V>, path: seq<nat>, k: K, v: V, k2: K)
    requires Fits(t, sn, path, k) && OnPath(t.hash(k2), path) && t.keySize(k) > 0
    requires Occupied(t, sn, path, k) && sn.dataMap[Mask(t.hash(k), |path|)]
    requires Get(t, sn, path, |path|, k) != None
    ensures PutOk(t, sn, Put(t, sn, path, |path|, k, v), path, k, v, k2)
  {
    hide Mask, CompressedIdx, NodeOk, Slot, Wf;
    Lookup(t, sn, path, k);
    GetBySlot(t, sn, path, k);
    var idx := Mask(t.hash(k), |path|);
    var x := Leaf(Entry(k, v));
    LeafOk(t, Entry(k, v), path + [idx]);
    Replaced(t, sn, path, k, x);
    PutAt(t, sn, Put(t, sn, path, |path|, k, v).0, path, k, v, x, k2);
  }

  lemma PutBins<K, V>(t: Traits<K, V>, sn: SubNodes<K, V>, path: seq<nat>, k: K, v: V, k2: K)
    requires Fits(t, sn, path, k) && OnPath(t.hash(k2), path) && t.keySize(k) > 0
    requires Occupied(t, sn, path, k) && !sn.dataMap[Mask(t.hash(k), |path|)]
    requires |path| == COLLISION_DEPTH - 1
    ensures PutOk(t, sn, Put(t, sn, path, |path|, k, v), path, k, v, k2)
  {
    hide Mask, CompressedIdx, BinsGet, Slot, Wf;
    Lookup(t, sn, path, k);
    GetBySlot(t, sn, path, k);
    var idx := Mask(t.hash(k), |path|);
    var n := sn.nodes[CompressedIdx(sn, idx)];
    BinsPutCorrect(t, n.bins, path + [idx], k, v, k2);
    var x := Bins(BinsPut(t, n.bins, t.hash(k), k, v).0);
    Replaced(t, sn, path, k, x);
    PutAt(t, sn, Put(t, sn, path, |path|, k, v).0, path, k, v, x, k2);
  }

  lemma BranchUpdated<K, V>(t: Traits<K, V>, sn: SubNodes<K, V>, path: seq<nat>, idx: nat, x: Node<K, V>)
    requires |path| < COLLISION_DEPTH && Wf(t, sn, path) && idx < WORD && sn.dataMap[idx]
    requires !x.Leaf? && NodeOk(t, x, path + [idx])
    ensures Updated(t, sn, Branch(sn, idx, x), path, idx, Some(x))
  {
    hide CompressedIdx, NodeOk, Slot;
    BranchSlot(sn, idx, x);
  }

  /** Two entries that part ways below this node. */
  lemma PutBranch<K, V>(t: Traits<K, V>, sn: SubNodes<K, V>, path: seq<nat>, k: K, v: V, x: Node<K, V>, k2: K)
    requires Fits(t, sn, path, k) && OnPath(t.hash(k2), path)
    requires Occupied(t, sn, path, k) && sn.dataMap[Mask(t.hash(k), |path|)]
    requires !x.Leaf? && NodeOk(t, x, path + [Mask(t.hash(k), |path|)])
    requires OnPath(t.hash(k2), path + [Mask(t.hash(k), |path|)]) ==>
      var idx := Mask(t.hash(k), |path|);
      && (Slot(sn, idx).Some? ==> NodeOk(t, Slot(sn, idx).value, path + [idx]))
      && NodeGet(t, x, path + [idx], k2) ==
           if k2 == k then Some(v) else OptionGet(t, Slot(sn, idx), path + [idx], k2)
    ensures var sn' := Branch(sn, Mask(t.hash(k), |path|), x);
      && Fits(t, sn', path, k2)
      && Get(t, sn', path, |path|, k2) == if k2 == k then Some(v) else Get(t, sn, path, |path|, k2)
  {
    hide Mask, CompressedIdx, NodeOk, Slot, NodeGet, Get, Branch, Updated;
    var idx := Mask(t.hash(k), |path|);
    BranchUpdated(t, sn, path, idx, x);
    PutAt(t, sn, Branch(sn, idx, x), path, k, v, x, k2);
  }

  lemma SingleGet<K, V>(t: Traits<K, V>, e: Entry<K, V>, path: seq<nat>, k: K)
    requires |path| < COLLISION_DEPTH && OnPath(t.hash(e.key), path) && OnPath(t.hash(k), path)
    ensures Fits(t, Single(e, Mask(t.hash(e.key), |path|)), path, k)
    ensures Get(t, Single(e, Mask(t.hash(e.key), |path|)), path, |path|, k) ==
      if k == e.key then Some(e.value) else None
  {
    hide Mask, Single, Slot, Wf, NodeOk, Get;
    var single := Single(e, Mask(t.hash(e.key), |path|));
    SingleWf(t, e, path);
    SingleSlots(e, Mask(t.hash(e.key), |path|), Mask(t.hash(k), |path|));
    GetBySlot(t, single, path, k);
  }

  /** Put is map update: it maps `k` to `v`, leaves every other key alone, and returns zero exactly
      when `k` was not there. */
  lemma {:induction false} PutCorrect<K, V>(t: Traits<K, V>, sn: SubNodes<K, V>, path: seq<nat>, k: K, v: V, k2: K)
    requires Fits(t, sn, path, k) && OnPath(t.hash(k2), path) && t.keySize(k) > 0
    ensures PutOk(t, sn, Put(t, sn, path, |path|, k, v), path, k, v, k2)
    decreases COLLISION_DEPTH - |path|, 1
  {
    hide Mask, CompressedIdx, NodeOk, Slot, PutOk, Put, Wf, Get;
    Lookup(t, sn, path, k);
    GetBySlot(t, sn, path, k);
    var idx := Mask(t.hash(k), |path|);
    if CompressedIdx(sn, idx) == NO_INDEX {
      PutInsert(t, sn, path, k, v, k2);
    } else if sn.dataMap[idx] {
      if Get(t, sn, path, |path|, k) != None {
        PutReplace(t, sn, path, k, v, k2);
      } else {
        PutSplit(t, sn, path, k, v, k2);
      }
    } else if |path| == COLLISION_DEPTH - 1 {
      PutBins(t, sn, path, k, v, k2);
    } else {
      PutInner(t, sn, path, k, v, k2);
    }
  }

  lemma {:induction false} PutInner<K, V>(t: Traits<K, V>, sn: SubNodes<K, V>, path: seq<nat>, k: K, v: V, k2: K)
    requires Fits(t, sn, path, k) && OnPath(t.hash(k2), path) && t.keySize(k) > 0
    requires Occupied(t, sn, path, k) && !sn.dataMap[Mask(t.hash(k), |path|)]
    requires |path| < COLLISION_DEPTH - 1
    ensures PutOk(t, sn, Put(t, sn, path, |path|, k, v), path, k, v, k2)
    decreases COLLISION_DEPTH - |path|, 0
  {
    hide Mask, CompressedIdx, Slot, Wf;
    Lookup(t, sn, path, k);
    GetBySlot(t, sn, path, k);
    var idx := Mask(t.hash(k), |path|);
    var sub := sn.nodes[CompressedIdx(sn, idx)].sub;
    PutCorrect(t, sub, path + [idx], k, v, k);
    if OnPath(t.hash(k2), path + [idx]) {
      PutCorrect(t, sub, path + [idx], k, v, k2);
    }
    var x := Inner(Put(t, sub, path + [idx], |path| + 1, k, v).0);
    Replaced(t, sn, path, k, x);
    PutAt(t, sn, Put(t, sn, path, |path|, k, v).0, path, k, v, x, k2);
  }

  lemma {:induction false} PutSplit<K, V>(t: Traits<K, V>, sn: SubNodes<K, V>, path: seq<nat>, k: K, v: V, k2: K)
    requires Fits(t, sn, path, k) && OnPath(t.hash(k2), path) && t.keySize(k) > 0
    requires Occupied(t, sn, path, k) && sn.dataMap[Mask(t.hash(k), |path|)]
    requires Get(t, sn, path, |path|, k) == None
    ensures PutOk(t, sn, Put(t, sn, path, |path|, k, v), path, k, v, k2)
    decreases COLLISION_DEPTH - |path|, 0
  {
    hide Mask, CompressedIdx, Slot, Branch, BinsOf, BinsOk, Single, BinsGet;
    Lookup(t, sn, path, k);
    GetBySlot(t, sn, path, k);
    var idx := Mask(t.hash(k), |path|);
    var e0 := sn.nodes[CompressedIdx(sn, idx)].entry;
    if |path| < COLLISION_DEPTH - 1 {
      SplitInner(t, path + [idx], e0, k, v, k2);
      var single := Single(e0, Mask(t.hash(e0.key), |path| + 1));
      PutBranch(t, sn, path, k, v, Inner(Put(t, single, path + [idx], |path| + 1, k, v).0), k2);
    } else {
      BinsOfCorrect(t, e0, Entry(k, v), path + [idx], k2);
      PutBranch(t, sn, path, k, v, Bins(BinsOf(t, e0, Entry(k, v))), k2);
    }
  }

  lemma {:induction false} SplitInner<K, V>(t: Traits<K, V>, path: seq<nat>, e0: Entry<K, V>, k: K, v: V, k2: K)
    requires |path| < COLLISION_DEPTH && OnPath(t.hash(e0.key), path) && OnPath(t.hash(k), path)
    requires k != e0.key && t.keySize(k) > 0
    ensures Fits(t, Single(e0, Mask(t.hash(e0.key), |path|)), path, k)
    ensures var sub := Put(t, Single(e0, Mask(t.hash(e0.key), |path|)), path, |path|, k, v).0;
      && Wf(t, sub, path)
      && (OnPath(t.hash(k2), path) ==>
            Get(t, sub, path, |path|, k2) ==
              if k2 == k then Some(v) else if k2 == e0.key then Some(e0.value) else None)
    decreases COLLISION_DEPTH - |path|, 2
  {
    hide Mask, Single, Slot, Wf, NodeOk, Get, Put;
    var single := Single(e0, Mask(t.hash(e0.key), |path|));
    SingleGet(t, e0, path, k);
    PutCorrect(t, single, path, k, v, k);
    if OnPath(t.hash(k2), path) {
      SingleGet(t, e0, path, k2);
      PutCorrect(t, single, path, k, v, k2);
    }
  }

  // ----- Remove

  ghost predicate RemoveOk<K, V>(t: Traits<K, V>, sn: SubNodes<K, V>, r: (SubNodes<K, V>, nat),
                                 path: seq<nat>, k: K, k2: K)
    requires Fits(t, sn, path, k) && OnPath(t.hash(k2), path)
  {
    && Fits(t, r.0, path, k2)
    && (r.1 == 0 <==> Get(t, sn, path, |path|, k) == None)
    && Get(t, r.0, path, |path|, k2) == if k2 == k then None else Get(t, sn, path, |path|, k2)
  }

  /** What a remove must do at a node. */
  lemma RemoveAt<K, V>(t: Traits<K, V>, sn: SubNodes<K, V>, sn': SubNodes<K, V>, path: seq<nat>,
                       k: K, x: Option<Node<K, V>>, k2: K)
    requires Fits(t, sn, path, k) && OnPath(t.hash(k2), path)
    requires Updated(t, sn, sn', path, Mask(t.hash(k), |path|), x)
    requires OnPath(t.hash(k2), path + [Mask(t.hash(k), |path|)]) ==>
      var idx := Mask(t.hash(k), |path|);
      && (Slot(sn, idx).Some? ==> NodeOk(t, Slot(sn, idx).value, path + [idx]))
      && OptionGet(t, x, path + [idx], k2) ==
           if k2 == k then None else OptionGet(t, Slot(sn, idx), path + [idx], k2)
    ensures Fits(t, sn', path, k2) && Fits(t, sn, path, k2)
    ensures Get(t, sn', path, |path|, k2) == if k2 == k then None else Get(t, sn, path, |path|, k2)
  {
    hide Slot, Get, NodeGet, NodeOk, Mask, Wf;
    UpdatedGet(t, sn, sn', path, Mask(t.hash(k), |path|), x, k2);
    GetBySlot(t, sn, path, k2);
  }

  lemma RemoveLeaf<K, V>(t: Traits<K, V>, sn: SubNodes<K, V>, path: seq<nat>, k: K, k2: K)
    requires Fits(t, sn, path, k) && OnPath(t.hash(k2), path) && t.keySize(k) > 0
    requires Occupied(t, sn, path, k) && sn.dataMap[Mask(t.hash(k), |path|)]
    requires Get(t, sn, path, |path|, k) != None
    ensures RemoveOk(t, sn, Remove(t, sn, path, |path|, k), path, k, k2)
  {
    hide Mask, CompressedIdx, NodeOk, Slot;
    Lookup(t, sn, path, k);
    GetBySlot(t, sn, path, k);
    EraseSlot(sn, Mask(t.hash(k), |path|));
    RemoveAt(t, sn, Remove(t, sn, path, |path|, k).0, path, k, None, k2);
  }

  /** A key that is not in the trie. */
  lemma RemoveNothing<K, V>(t: Traits<K, V>, sn: SubNodes<K, V>, path: seq<nat>, k: K, k2: K)
    requires Fits(t, sn, path, k) && OnPath(t.hash(k2), path)
    requires Get(t, sn, path, |path|, k) == None
    ensures RemoveOk(t, sn, (sn, 0), path, k, k2)
  {
    hide Get, Wf;
  }

  lemma RemoveBins<K, V>(t: Traits<K, V>, sn: SubNodes<K, V>, path: seq<nat>, k: K, k2: K)
    requires Fits(t, sn, path, k) && OnPath(t.hash(k2), path) && t.keySize(k) > 0
    requires Occupied(t, sn, path, k) && !sn.dataMap[Mask(t.hash(k), |path|)]
    requires |path| == COLLISION_DEPTH - 1
    ensures RemoveOk(t, sn, Remove(t, sn, path, |path|, k), path, k, k2)
  {
    hide Mask, CompressedIdx, BinsGet, Slot, Wf;
    Lookup(t, sn, path, k);
    GetBySlot(t, sn, path, k);
    var idx := Mask(t.hash(k), |path|);
    var n := sn.nodes[CompressedIdx(sn, idx)];
    BinsRemoveCorrect(t, n.bins, path + [idx], k, k2);
    var x := Bins(BinsRemove(t, n.bins, t.hash(k), k).0);
    Replaced(t, sn, path, k, x);
    RemoveAt(t, sn, Remove(t, sn, path, |path|, k).0, path, k, Some(x), k2);
  }

  /** Remove takes `k` out, leaves every other key alone, and returns zero exactly when `k` was not
      there. */
  lemma {:induction false} RemoveCorrect<K, V>(t: Traits<K, V>, sn: SubNodes<K, V>, path: seq<nat>, k: K, k2: K)
    requires Fits(t, sn, path, k) && OnPath(t.hash(k2), path) && t.keySize(k) > 0
    ensures RemoveOk(t, sn, Remove(t, sn, path, |path|, k), path, k, k2)
    decreases COLLISION_DEPTH - |path|, 1
  {
    hide Mask, CompressedIdx, NodeOk, Slot, RemoveOk, Wf, Get;
    Lookup(t, sn, path, k);
    GetBySlot(t, sn, path, k);
    var idx := Mask(t.hash(k), |path|);
    if CompressedIdx(sn, idx) == NO_INDEX {
      RemoveNothing(t, sn, path, k, k2);
    } else if sn.dataMap[idx] {
      if Get(t, sn, path, |path|, k) != None {
        RemoveLeaf(t, sn, path, k, k2);
      } else {
        RemoveNothing(t, sn, path, k, k2);
      }
    } else if |path| == COLLISION_DEPTH - 1 {
      RemoveBins(t, sn, path, k, k2);
    } else {
      RemoveInner(t, sn, path, k, k2);
    }
  }

  lemma {:induction false} RemoveInner<K, V>(t: Traits<K, V>, sn: SubNodes<K, V>, path: seq<nat>, k: K, k2: K)
    requires Fits(t, sn, path, k) && OnPath(t.hash(k2), path) && t.keySize(k) > 0
    requires Occupied(t, sn, path, k) && !sn.dataMap[Mask(t.hash(k), |path|)]
    requires |path| < COLLISION_DEPTH - 1
    ensures RemoveOk(t, sn, Remove(t, sn, path, |path|, k), path, k, k2)
    decreases COLLISION_DEPTH - |path|, 0
  {
    hide Mask, CompressedIdx, Slot, Wf;
    Lookup(t, sn, path, k);
    GetBySlot(t, sn, path, k);
    var idx := Mask(t.hash(k), |path|);
    var sub := sn.nodes[CompressedIdx(sn, idx)].sub;
    RemoveCorrect(t, sub, path + [idx], k, k);
    if OnPath(t.hash(k2), path + [idx]) {
      RemoveCorrect(t, sub, path + [idx], k, k2);
    }
    var x := Inner(Remove(t, sub, path + [idx], |path| + 1, k).0);
    Replaced(t, sn, path, k, x);
    RemoveAt(t, sn, Remove(t, sn, path, |path|, k).0, path, k, Some(x), k2);
  }
}
