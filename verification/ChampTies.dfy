/** Two keys with one hash: the order in which they were put shows in the order of iteration. */
module ChampTies {
  import opened Options
  import opened KeyValue
  import opened Sequences
  import opened ChampBits
  import opened Champ
  import opened ChampOps
  import opened ChampCorrect
  import opened ChampEntries

  /** The lists are the same but for two neighbours, which are the other way round. */
  ghost predicate Twisted<K, V>(a: seq<Entry<K, V>>, b: seq<Entry<K, V>>, e0: Entry<K, V>, e1: Entry<K, V>) {
    exists i :: TwistedAt(a, b, e0, e1, i)
  }

  ghost predicate TwistedAt<K, V>(a: seq<Entry<K, V>>, b: seq<Entry<K, V>>, e0: Entry<K, V>, e1: Entry<K, V>, i: nat) {
    i + 1 < |a| && a[i] == e0 && a[i + 1] == e1 && b == a[i := e1][i + 1 := e0]
  }

  lemma TwistedBetween<K, V>(x: seq<Entry<K, V>>, a: seq<Entry<K, V>>, b: seq<Entry<K, V>>, y: seq<Entry<K, V>>,
                             e0: Entry<K, V>, e1: Entry<K, V>)
    requires Twisted(a, b, e0, e1)
    ensures Twisted(x + a + y, x + b + y, e0, e1)
  {
    var i :| TwistedAt(a, b, e0, e1, i);
    assert TwistedAt(x + a + y, x + b + y, e0, e1, |x| + i);
  }

  lemma {:induction false} FlattenTwisted<K, V>(p: seq<seq<Entry<K, V>>>, q: seq<seq<Entry<K, V>>>, c: nat,
                                                e0: Entry<K, V>, e1: Entry<K, V>)
    requires |p| == |q| && c < |p| && Twisted(p[c], q[c], e0, e1)
    requires forall d :: 0 <= d < |p| && d != c ==> p[d] == q[d]
    ensures Twisted(Flatten(p), Flatten(q), e0, e1)
    decreases |p|
  {
    hide Twisted;
    if c == 0 {
      assert p[1..] == q[1..];
      TwistedBetween([], p[0], q[0], Flatten(p[1..]), e0, e1);
      assert [] + p[0] == p[0] && [] + q[0] == q[0];
    } else {
      FlattenTwisted(p[1..], q[1..], c - 1, e0, e1);
      TwistedBetween(p[0], Flatten(p[1..]), Flatten(q[1..]), [], e0, e1);
      assert p[0] + Flatten(p[1..]) + [] == Flatten(p) && q[0] + Flatten(q[1..]) + [] == Flatten(q);
    }
  }

  // ----- Nodes from their slots

  lemma MapsOfSlots<K, V>(t: Traits<K, V>, sn: SubNodes<K, V>, path: seq<nat>, i: nat)
    requires |path| < COLLISION_DEPTH && Wf(t, sn, path) && i < WORD
    ensures sn.dataMap[i] <==> Slot(sn, i).Some? && Slot(sn, i).value.Leaf?
    ensures sn.nodeMap[i] <==> Slot(sn, i).Some? && !Slot(sn, i).value.Leaf?
  {
    hide NodeOk, CompressedIdx;
    CompressedBounds(sn, i);
  }

  /** Nodes whose slots agree but for one, of the same kind in both, differ in one place. */
  lemma OnePlace<K, V>(t: Traits<K, V>, a: SubNodes<K, V>, b: SubNodes<K, V>, path: seq<nat>, idx: nat)
    returns (c: nat)
    requires |path| < COLLISION_DEPTH && Wf(t, a, path) && Wf(t, b, path) && idx < WORD
    requires forall i :: 0 <= i < WORD && i != idx ==> Slot(a, i) == Slot(b, i)
    requires Slot(a, idx).Some? && Slot(b, idx).Some? && !Slot(a, idx).value.Leaf? && !Slot(b, idx).value.Leaf?
    ensures c < |a.nodes| == |b.nodes| && a.nodes[c] == Slot(a, idx).value && b.nodes[c] == Slot(b, idx).value
    ensures forall d :: 0 <= d < |a.nodes| && d != c ==> a.nodes[d] == b.nodes[d]
  {
    hide NodeOk, Wf, Count, And, LowMask;
    forall i | 0 <= i < WORD
      ensures a.dataMap[i] == b.dataMap[i] && a.nodeMap[i] == b.nodeMap[i]
    {
      MapsOfSlots(t, a, path, i);
      MapsOfSlots(t, b, path, i);
    }
    assert a.dataMap == b.dataMap && a.nodeMap == b.nodeMap;
    ShapeOf(t, a, path);
    ShapeOf(t, b, path);
    CompressedBounds(a, idx);
    CompressedBounds(b, idx);
    c := CompressedIdx(a, idx);
    forall d | 0 <= d < |a.nodes| && d != c
      ensures a.nodes[d] == b.nodes[d]
    {
      var i := PlaceOf(a, d);
      CompressedBounds(b, i);
      assert Slot(b, i) == Some(b.nodes[d]);
    }
  }

  lemma ShapeOf<K, V>(t: Traits<K, V>, sn: SubNodes<K, V>, path: seq<nat>)
    requires |path| < COLLISION_DEPTH && Wf(t, sn, path)
    ensures Shape(sn)
  {
  }

  lemma NodesTwisted<K, V>(t: Traits<K, V>, a: SubNodes<K, V>, b: SubNodes<K, V>, path: seq<nat>, idx: nat,
                           e0: Entry<K, V>, e1: Entry<K, V>)
    requires |path| < COLLISION_DEPTH && Wf(t, a, path) && Wf(t, b, path) && idx < WORD
    requires forall i :: 0 <= i < WORD && i != idx ==> Slot(a, i) == Slot(b, i)
    requires Slot(a, idx).Some? && Slot(b, idx).Some? && !Slot(a, idx).value.Leaf? && !Slot(b, idx).value.Leaf?
    requires Twisted(NodeEntries(Slot(a, idx).value), NodeEntries(Slot(b, idx).value), e0, e1)
    ensures Twisted(NodesEntries(a.nodes), NodesEntries(b.nodes), e0, e1)
  {
    hide Wf, Slot, NodeEntries, NodesEntries, Twisted;
    var c := OnePlace(t, a, b, path, idx);
    EntriesOfParts(a.nodes);
    EntriesOfParts(b.nodes);
    FlattenTwisted(Parts(a.nodes), Parts(b.nodes), c, e0, e1);
  }

  // ----- Put, slot by slot

  /** What a put makes of the slot it leads to. */
  ghost function NodePut<K, V>(t: Traits<K, V>, n: Option<Node<K, V>>, path: seq<nat>, e: Entry<K, V>): Node<K, V>
    requires |path| <= COLLISION_DEPTH && OnPath(t.hash(e.key), path)
    requires n.Some? ==> NodeOk(t, n.value, path)
  {
    match n
    case None => Leaf(e)
    case Some(Leaf(f)) =>
      if f.key == e.key then Leaf(e)
      else if |path| == COLLISION_DEPTH then Bins(BinsOf(t, f, e))
      else
        SingleWf(t, f, path);
        Inner(Put(t, Single(f, Mask(t.hash(f.key), |path|)), path, |path|, e.key, e.value).0)
    case Some(Inner(sub)) => Inner(Put(t, sub, path, |path|, e.key, e.value).0)
    case Some(Bins(bins)) => Bins(BinsPut(t, bins, t.hash(e.key), e.key, e.value).0)
  }

  lemma NodePutOk<K, V>(t: Traits<K, V>, n: Option<Node<K, V>>, path: seq<nat>, e: Entry<K, V>)
    requires |path| <= COLLISION_DEPTH && OnPath(t.hash(e.key), path) && t.keySize(e.key) > 0
    requires n.Some? ==> NodeOk(t, n.value, path)
    ensures NodeOk(t, NodePut(t, n, path, e), path)
    ensures NodePut(t, n, path, e).Leaf? <==> n.None? || (n.value.Leaf? && n.value.entry.key == e.key)
  {
    hide Mask, Put, Wf, BinsOk, BinsOf, BinsPut, Single, Get;
    match n
    case None =>
    case Some(Leaf(f)) =>
      if f.key != e.key {
        if |path| == COLLISION_DEPTH {
          BinsOfCorrect(t, f, e, path, e.key);
        } else {
          SingleWf(t, f, path);
          PutCorrect(t, Single(f, Mask(t.hash(f.key), |path|)), path, e.key, e.value, e.key);
        }
      }
    case Some(Inner(sub)) =>
      PutCorrect(t, sub, path, e.key, e.value, e.key);
    case Some(Bins(bins)) =>
      BinsPutCorrect(t, bins, path, e.key, e.value, e.key);
  }

  /** The occupied child that a put leads to. */
  ghost predicate Child<K, V>(t: Traits<K, V>, sn: SubNodes<K, V>, path: seq<nat>, k: K, n: Node<K, V>) {
    && Fits(t, sn, path, k)
    && var idx := Mask(t.hash(k), |path|);
    && OnPath(t.hash(k), path + [idx])
    && 0 <= CompressedIdx(sn, idx) < |sn.nodes| && sn.nodes[CompressedIdx(sn, idx)] == n
    && NodeOk(t, n, path + [idx]) && (n.Leaf? <==> sn.dataMap[idx]) && (!n.Leaf? <==> sn.nodeMap[idx])
  }

  lemma PutIntoLeaf<K, V>(t: Traits<K, V>, sn: SubNodes<K, V>, path: seq<nat>, e: Entry<K, V>, n: Node<K, V>)
    requires Child(t, sn, path, e.key, n) && n.Leaf?
    ensures var idx := Mask(t.hash(e.key), |path|);
      var x := NodePut(t, Some(n), path + [idx], e);
      Put(t, sn, path, |path|, e.key, e.value).0 ==
        if n.entry.key != e.key then Branch(sn, idx, x) else sn.(nodes := sn.nodes[CompressedIdx(sn, idx) := x])
  {
    hide Mask, CompressedIdx, Slot, Wf, Branch, BinsOf, Single, OnPath, NodeOk;
  }

  lemma PutIntoInner<K, V>(t: Traits<K, V>, sn: SubNodes<K, V>, path: seq<nat>, e: Entry<K, V>, n: Node<K, V>)
    requires Child(t, sn, path, e.key, n) && n.Inner?
    ensures var idx := Mask(t.hash(e.key), |path|);
      Put(t, sn, path, |path|, e.key, e.value).0 ==
        sn.(nodes := sn.nodes[CompressedIdx(sn, idx) := NodePut(t, Some(n), path + [idx], e)])
  {
    hide Mask, CompressedIdx, Slot, Wf, Branch, BinsPut, BinsOf, Single, OnPath;
    assert |path| < COLLISION_DEPTH - 1;
  }

  lemma PutIntoBins<K, V>(t: Traits<K, V>, sn: SubNodes<K, V>, path: seq<nat>, e: Entry<K, V>, n: Node<K, V>)
    requires Child(t, sn, path, e.key, n) && n.Bins?
    ensures var idx := Mask(t.hash(e.key), |path|);
      Put(t, sn, path, |path|, e.key, e.value).0 ==
        sn.(nodes := sn.nodes[CompressedIdx(sn, idx) := NodePut(t, Some(n), path + [idx], e)])
  {
    hide Mask, CompressedIdx, Slot, Wf, Branch, BinsPut, BinsOf, BinsOk, Single, OnPath;
    assert |path| == COLLISION_DEPTH - 1;
  }

  lemma ChildOf<K, V>(t: Traits<K, V>, sn: SubNodes<K, V>, path: seq<nat>, k: K)
    requires Fits(t, sn, path, k) && Occupied(t, sn, path, k)
    ensures var idx := Mask(t.hash(k), |path|);
      Shape(sn) && Slot(sn, idx).Some? && Child(t, sn, path, k, Slot(sn, idx).value)
  {
    hide Mask, NodeOk, OnPath;
    Lookup(t, sn, path, k);
  }

  /** A put changes one slot, and that one as `NodePut` says. */
  lemma PutSlot<K, V>(t: Traits<K, V>, sn: SubNodes<K, V>, path: seq<nat>, e: Entry<K, V>)
    requires Fits(t, sn, path, e.key) && t.keySize(e.key) > 0
    ensures var idx := Mask(t.hash(e.key), |path|);
      && OnPath(t.hash(e.key), path + [idx])
      && (Slot(sn, idx).Some? ==> NodeOk(t, Slot(sn, idx).value, path + [idx]))
      && Updated(t, sn, Put(t, sn, path, |path|, e.key, e.value).0, path, idx,
                 Some(NodePut(t, Slot(sn, idx), path + [idx], e)))
  {
    Lookup(t, sn, path, e.key);
    var idx := Mask(t.hash(e.key), |path|);
    hide Mask, CompressedIdx, NodeOk, Slot, Wf, Updated, Branch, Put, OnPath;
    var n := Slot(sn, idx);
    NodePutOk(t, n, path + [idx], e);
    var x := NodePut(t, n, path + [idx], e);
    if n.None? {
      InsertedSlot(t, sn, path, e);
    } else {
      hide NodePut;
      ChildOf(t, sn, path, e.key);
      if n.value.Leaf? {
        PutIntoLeaf(t, sn, path, e, n.value);
      } else if n.value.Inner? {
        PutIntoInner(t, sn, path, e, n.value);
      } else {
        PutIntoBins(t, sn, path, e, n.value);
      }
      if n.value.Leaf? && n.value.entry.key != e.key {
        BranchUpdated(t, sn, path, idx, x);
      } else {
        Replaced(t, sn, path, e.key, x);
      }
    }
  }

  lemma InsertedSlot<K, V>(t: Traits<K, V>, sn: SubNodes<K, V>, path: seq<nat>, e: Entry<K, V>)
    requires Fits(t, sn, path, e.key) && CompressedIdx(sn, Mask(t.hash(e.key), |path|)) == NO_INDEX
    ensures Updated(t, sn, Put(t, sn, path, |path|, e.key, e.value).0, path, Mask(t.hash(e.key), |path|), Some(Leaf(e)))
  {
    hide Mask, CompressedIdx, NodeOk, Slot;
    Lookup(t, sn, path, e.key);
    var idx := Mask(t.hash(e.key), |path|);
    InsertBounds(sn, idx);
    InsertSlot(sn, idx, Leaf(e));
    LeafOk(t, e, path + [idx]);
  }

  // ----- Two puts, one way round and the other

  /** Different keys that the hash cannot tell apart. */
  ghost predicate Tie<K, V>(t: Traits<K, V>, path: seq<nat>, e0: Entry<K, V>, e1: Entry<K, V>) {
    && |path| <= COLLISION_DEPTH && OnPath(t.hash(e0.key), path)
    && e0.key != e1.key && t.hash(e0.key) == t.hash(e1.key) && t.keySize(e0.key) > 0 && t.keySize(e1.key) > 0
  }

  ghost function NodeTwice<K, V>(t: Traits<K, V>, n: Option<Node<K, V>>, path: seq<nat>,
                                 e0: Entry<K, V>, e1: Entry<K, V>): Node<K, V>
    requires Tie(t, path, e0, e1) && (n.Some? ==> NodeOk(t, n.value, path))
  {
    NodePutOk(t, n, path, e0);
    NodePut(t, Some(NodePut(t, n, path, e0)), path, e1)
  }

  ghost function Twice<K, V>(t: Traits<K, V>, sn: SubNodes<K, V>, path: seq<nat>,
                             e0: Entry<K, V>, e1: Entry<K, V>): SubNodes<K, V>
    requires Tie(t, path, e0, e1) && |path| < COLLISION_DEPTH && Wf(t, sn, path)
  {
    PutCorrect(t, sn, path, e0.key, e0.value, e0.key);
    Put(t, Put(t, sn, path, |path|, e0.key, e0.value).0, path, |path|, e1.key, e1.value).0
  }

  lemma TwiceSlots<K, V>(t: Traits<K, V>, sn: SubNodes<K, V>, path: seq<nat>, e0: Entry<K, V>, e1: Entry<K, V>)
    requires Tie(t, path, e0, e1) && |path| < COLLISION_DEPTH && Wf(t, sn, path)
    ensures var idx, r := Mask(t.hash(e0.key), |path|), Twice(t, sn, path, e0, e1);
      && Tie(t, path + [idx], e0, e1)
      && Wf(t, r, path) && Shape(sn)
      && (Slot(sn, idx).Some? ==> NodeOk(t, Slot(sn, idx).value, path + [idx]))
      && Slot(r, idx) == Some(NodeTwice(t, Slot(sn, idx), path + [idx], e0, e1))
      && forall i :: 0 <= i < WORD && i != idx ==> Slot(r, i) == Slot(sn, i)
  {
    hide Mask, NodeOk, Slot, Wf, Put, NodePut;
    var idx := Mask(t.hash(e0.key), |path|);
    ShapeOf(t, sn, path);
    PutSlot(t, sn, path, e0);
    var mid := Put(t, sn, path, |path|, e0.key, e0.value).0;
    var x := NodePut(t, Slot(sn, idx), path + [idx], e0);
    UpdatedWf(t, sn, mid, path, idx, Some(x));
    PutSlot(t, mid, path, e1);
    var y := NodePut(t, Some(x), path + [idx], e1);
    UpdatedWf(t, mid, Twice(t, sn, path, e0, e1), path, idx, Some(y));
  }

  /** Nothing is kept under either key. */
  ghost predicate Absent<K, V>(t: Traits<K, V>, n: Option<Node<K, V>>, path: seq<nat>, e0: Entry<K, V>, e1: Entry<K, V>)
    requires Tie(t, path, e0, e1) && (n.Some? ==> NodeOk(t, n.value, path))
  {
    OptionGet(t, n, path, e0.key) == None && OptionGet(t, n, path, e1.key) == None
  }

  lemma BinsTwisted<K, V>(t: Traits<K, V>, bins: seq<seq<Entry<K, V>>>, e0: Entry<K, V>, e1: Entry<K, V>)
    requires |bins| == COLLISION_BINS && e0.key != e1.key && t.hash(e0.key) == t.hash(e1.key)
    requires BinsGet(bins, t.hash(e0.key), e0.key) == None && BinsGet(bins, t.hash(e1.key), e1.key) == None
    ensures var h := t.hash(e0.key);
      Twisted(Flatten(BinsPut(t, BinsPut(t, bins, h, e0.key, e0.value).0, h, e1.key, e1.value).0),
              Flatten(BinsPut(t, BinsPut(t, bins, h, e1.key, e1.value).0, h, e0.key, e0.value).0), e0, e1)
  {
    hide Mask, FindKey, Flatten;
    var h := t.hash(e0.key);
    var c := Mask(h, COLLISION_DEPTH);
    var bin := bins[c];
    FindIs(bin + [e0], e1.key, |bin| + 1);
    FindIs(bin + [e1], e0.key, |bin| + 1);
    var p := BinsPut(t, BinsPut(t, bins, h, e0.key, e0.value).0, h, e1.key, e1.value).0;
    var q := BinsPut(t, BinsPut(t, bins, h, e1.key, e1.value).0, h, e0.key, e0.value).0;
    assert p[c] == bin + [e0] + [e1] && q[c] == bin + [e1] + [e0];
    assert TwistedAt(p[c], q[c], e0, e1, |bin|);
    FlattenTwisted(p, q, c, e0, e1);
  }

  /** The bins made for two entries are the empty ones with both put. */
  lemma BinsOfPuts<K, V>(t: Traits<K, V>, e0: Entry<K, V>, e1: Entry<K, V>)
    requires e0.key != e1.key
    ensures var none: seq<seq<Entry<K, V>>> := [[], [], [], []];
      BinsOf(t, e0, e1) == BinsPut(t, BinsPut(t, none, t.hash(e0.key), e0.key, e0.value).0,
                                   t.hash(e1.key), e1.key, e1.value).0
  {
    hide Mask, FindKey;
    var none: seq<seq<Entry<K, V>>> := [[], [], [], []];
    var idx0, idx1 := Mask(t.hash(e0.key), COLLISION_DEPTH), Mask(t.hash(e1.key), COLLISION_DEPTH);
    FindIs(none[idx0], e0.key, 0);
    assert none[idx0] + [e0] == [e0];
    var one := none[idx0 := [e0]];
    FindIs(one[idx1], e1.key, |one[idx1]|);
  }

  /** Below one slot. */
  lemma {:induction false} NodeTwisted<K, V>(t: Traits<K, V>, n: Option<Node<K, V>>, path: seq<nat>,
                                             e0: Entry<K, V>, e1: Entry<K, V>)
    requires Tie(t, path, e0, e1) && (n.Some? ==> NodeOk(t, n.value, path)) && Absent(t, n, path, e0, e1)
    ensures !NodeTwice(t, n, path, e0, e1).Leaf? && !NodeTwice(t, n, path, e1, e0).Leaf?
    ensures Twisted(NodeEntries(NodeTwice(t, n, path, e0, e1)), NodeEntries(NodeTwice(t, n, path, e1, e0)), e0, e1)
    decreases COLLISION_DEPTH - |path|, 1
  {
    if |path| == COLLISION_DEPTH {
      DeepTwisted(t, n, path, e0, e1);
    } else if n.None? {
      PairTwisted(t, path, e0, e1);
    } else {
      var sub := if n.value.Leaf? then Single(n.value.entry, Mask(t.hash(n.value.entry.key), |path|)) else n.value.sub;
      if n.value.Leaf? {
        hide Mask, Wf, Single, Get, Put;
        SingleWf(t, n.value.entry, path);
        SingleGet(t, n.value.entry, path, e0.key);
        SingleGet(t, n.value.entry, path, e1.key);
      }
      hide Twisted, Mask, Wf, Get, Put, NodesEntries, Single;
      SubTwisted(t, sub, path, e0, e1);
    }
  }

  /** At the level of the bins. */
  lemma DeepTwisted<K, V>(t: Traits<K, V>, n: Option<Node<K, V>>, path: seq<nat>, e0: Entry<K, V>, e1: Entry<K, V>)
    requires Tie(t, path, e0, e1) && (n.Some? ==> NodeOk(t, n.value, path)) && Absent(t, n, path, e0, e1)
    requires |path| == COLLISION_DEPTH
    ensures !NodeTwice(t, n, path, e0, e1).Leaf? && !NodeTwice(t, n, path, e1, e0).Leaf?
    ensures Twisted(NodeEntries(NodeTwice(t, n, path, e0, e1)), NodeEntries(NodeTwice(t, n, path, e1, e0)), e0, e1)
  {
    hide Twisted, Mask, BinsOf, BinsPut, BinsGet, Flatten;
    var none: seq<seq<Entry<K, V>>> := [[], [], [], []];
    match n
    case None =>
      BinsOfPuts(t, e0, e1);
      BinsOfPuts(t, e1, e0);
      NoneInBins(t, none, e0.key);
      NoneInBins(t, none, e1.key);
      BinsTwisted(t, none, e0, e1);
    case Some(Leaf(f)) =>
      BinsOfPuts(t, f, e0);
      BinsOfPuts(t, f, e1);
      var one := BinsPut(t, none, t.hash(f.key), f.key, f.value).0;
      OneInBins(t, f, e0.key);
      OneInBins(t, f, e1.key);
      BinsTwisted(t, one, e0, e1);
    case Some(Bins(bins)) =>
      BinsTwisted(t, bins, e0, e1);
  }

  lemma NoneInBins<K, V>(t: Traits<K, V>, bins: seq<seq<Entry<K, V>>>, k: K)
    requires bins == [[], [], [], []]
    ensures BinsGet(bins, t.hash(k), k) == None
  {
    hide Mask;
  }

  lemma OneInBins<K, V>(t: Traits<K, V>, f: Entry<K, V>, k: K)
    requires f.key != k
    ensures var none: seq<seq<Entry<K, V>>> := [[], [], [], []];
      BinsGet(BinsPut(t, none, t.hash(f.key), f.key, f.value).0, t.hash(k), k) == None
  {
    hide Mask, FindKey;
    var none: seq<seq<Entry<K, V>>> := [[], [], [], []];
    var c := Mask(t.hash(f.key), COLLISION_DEPTH);
    FindIs(none[c], f.key, 0);
    var one := BinsPut(t, none, t.hash(f.key), f.key, f.value).0;
    assert none[c] + [Entry(f.key, f.value)] == [f];
    assert one == none[c := [f]];
    var bin := one[Mask(t.hash(k), COLLISION_DEPTH)];
    FindIs(bin, k, |bin|);
  }

  /** Where there was nothing. */
  lemma {:induction false} PairTwisted<K, V>(t: Traits<K, V>, path: seq<nat>, e0: Entry<K, V>, e1: Entry<K, V>)
    requires Tie(t, path, e0, e1) && |path| < COLLISION_DEPTH
    ensures !NodeTwice(t, None, path, e0, e1).Leaf? && !NodeTwice(t, None, path, e1, e0).Leaf?
    ensures Twisted(NodeEntries(NodeTwice(t, None, path, e0, e1)), NodeEntries(NodeTwice(t, None, path, e1, e0)), e0, e1)
    decreases COLLISION_DEPTH - |path|, 0
  {
    PairSlots(t, path, e0, e1);
    PairSlots(t, path, e1, e0);
    hide Twisted, Mask, Wf, Put, Single, NodesEntries, NodeOk, NodePut, OnPath;
    var idx := Mask(t.hash(e0.key), |path|);
    NodeTwisted(t, None, path + [idx], e0, e1);
    NodesTwisted(t, NodeTwice(t, None, path, e0, e1).sub, NodeTwice(t, None, path, e1, e0).sub, path, idx, e0, e1);
  }

  lemma PairSlots<K, V>(t: Traits<K, V>, path: seq<nat>, e0: Entry<K, V>, e1: Entry<K, V>)
    requires Tie(t, path, e0, e1) && |path| < COLLISION_DEPTH
    ensures var idx, n := Mask(t.hash(e0.key), |path|), NodeTwice(t, None, path, e0, e1);
      && n.Inner? && Wf(t, n.sub, path) && Tie(t, path + [idx], e0, e1)
      && Slot(n.sub, idx) == Some(NodeTwice(t, None, path + [idx], e0, e1))
      && forall i :: 0 <= i < WORD && i != idx ==> Slot(n.sub, i) == None
  {
    hide Mask, Wf, Put, Single, Slot, NodeOk, OnPath;
    var idx := Mask(t.hash(e0.key), |path|);
    SingleWf(t, e0, path);
    var single := Single(e0, idx);
    PutSlot(t, single, path, e1);
    forall i | 0 <= i < WORD
      ensures Shape(single) && Slot(single, i) == if i == idx then Some(Leaf(e0)) else None
    {
      SingleSlots(e0, idx, i);
    }
    UpdatedWf(t, single, Put(t, single, path, |path|, e1.key, e1.value).0, path, idx,
              Some(NodePut(t, Some(Leaf(e0)), path + [idx], e1)));
  }

  /** Putting the two entries in a trie in one order and in the other: iteration shows them as neighbours, in the
      order in which they were put, and everything else in the same places. */
  lemma {:induction false} SubTwisted<K, V>(t: Traits<K, V>, sn: SubNodes<K, V>, path: seq<nat>,
                                            e0: Entry<K, V>, e1: Entry<K, V>)
    requires Tie(t, path, e0, e1) && |path| < COLLISION_DEPTH && Wf(t, sn, path)
    requires Get(t, sn, path, |path|, e0.key) == None && Get(t, sn, path, |path|, e1.key) == None
    ensures Twisted(NodesEntries(Twice(t, sn, path, e0, e1).nodes),
                    NodesEntries(Twice(t, sn, path, e1, e0).nodes), e0, e1)
    decreases COLLISION_DEPTH - |path|, 0
  {
    hide Twisted, Mask, Wf, Put, NodesEntries, NodeOk, NodePut, Get, Slot, NodeGet, OnPath;
    var idx := Mask(t.hash(e0.key), |path|);
    TwiceSlots(t, sn, path, e0, e1);
    TwiceSlots(t, sn, path, e1, e0);
    GetBySlot(t, sn, path, e0.key);
    GetBySlot(t, sn, path, e1.key);
    NodeTwisted(t, Slot(sn, idx), path + [idx], e0, e1);
    NodesTwisted(t, Twice(t, sn, path, e0, e1), Twice(t, sn, path, e1, e0), path, idx, e0, e1);
  }
}
