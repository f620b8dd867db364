/** Iterating over a CHAMP trie visits every key once. */
module ChampEntries {
  import opened Options
  import opened KeyValue
  import opened Sequences
  import opened ChampBits
  import opened Champ
  import opened ChampOps
  import opened ChampCorrect

  /** The entries below a node in the order of `foreach`. */
  function NodeEntries<K, V>(n: Node<K, V>): seq<Entry<K, V>> {
    match n
    case Leaf(e) => [e]
    case Inner(sub) => NodesEntries(sub.nodes)
    case Bins(bins) => Flatten(bins)
  }

  function NodesEntries<K, V>(nodes: seq<Node<K, V>>): seq<Entry<K, V>> {
    if nodes == [] then [] else NodeEntries(nodes[0]) + NodesEntries(nodes[1..])
  }

  lemma {:induction false} InNodes<K, V>(nodes: seq<Node<K, V>>, e: Entry<K, V>) returns (c: nat)
    requires e in NodesEntries(nodes)
    ensures c < |nodes| && e in NodeEntries(nodes[c])
  {
    if e in NodeEntries(nodes[0]) {
      c := 0;
    } else {
      c := InNodes(nodes[1..], e);
      c := c + 1;
    }
  }

  lemma {:induction false} NodesContain<K, V>(nodes: seq<Node<K, V>>, c: nat, e: Entry<K, V>)
    requires c < |nodes| && e in NodeEntries(nodes[c])
    ensures e in NodesEntries(nodes)
  {
    if c > 0 {
      NodesContain(nodes[1..], c - 1, e);
    }
  }

  lemma {:induction false} InFlatten<T>(parts: seq<seq<T>>, x: T) returns (c: nat)
    requires x in Flatten(parts)
    ensures c < |parts| && x in parts[c]
  {
    if x in parts[0] {
      c := 0;
    } else {
      c := InFlatten(parts[1..], x);
      c := c + 1;
    }
  }

  lemma {:induction false} FlattenContains<T>(parts: seq<seq<T>>, c: nat, x: T)
    requires c < |parts| && x in parts[c]
    ensures x in Flatten(parts)
  {
    if c > 0 {
      FlattenContains(parts[1..], c - 1, x);
    }
  }

  /** Every place of the vector is the slot of exactly one index. */
  lemma PlaceOf<K, V>(sn: SubNodes<K, V>, c: nat) returns (idx: nat)
    requires Shape(sn) && c < |sn.nodes|
    ensures idx < WORD && CompressedIdx(sn, idx) == c && Slot(sn, idx) == Some(sn.nodes[c])
    ensures sn.dataMap[idx] <==> c < Pop(sn.dataMap)
  {
    hide Count, CompressedIdx;
    if c < Pop(sn.dataMap) {
      idx := Select(sn.dataMap, c, WORD);
    } else {
      idx := Select(sn.nodeMap, c - Pop(sn.dataMap), WORD);
    }
    CompressedBounds(sn, idx);
  }

  // ----- What is listed is what lookup finds

  lemma BinsFound<K, V>(t: Traits<K, V>, bins: seq<seq<Entry<K, V>>>, path: seq<nat>, e: Entry<K, V>)
    requires |path| == COLLISION_DEPTH && BinsOk(t, bins, path) && e in Flatten(bins)
    ensures OnPath(t.hash(e.key), path) && BinsGet(bins, t.hash(e.key), e.key) == Some(e.value)
  {
    hide Mask, Flatten, FindKey;
    var b := InFlatten(bins, e);
    var j :| 0 <= j < |bins[b]| && bins[b][j] == e;
    FindIs(bins[b], e.key, j);
  }

  lemma {:induction false} NodeFound<K, V>(t: Traits<K, V>, n: Node<K, V>, path: seq<nat>, e: Entry<K, V>)
    requires |path| <= COLLISION_DEPTH && NodeOk(t, n, path) && e in NodeEntries(n)
    ensures OnPath(t.hash(e.key), path) && NodeGet(t, n, path, e.key) == Some(e.value)
    decreases COLLISION_DEPTH - |path|, 1
  {
    hide Mask, BinsOk, BinsGet, Wf, Get;
    match n
    case Leaf(_) =>
    case Inner(sub) => SubFound(t, sub, path, e);
    case Bins(bins) => BinsFound(t, bins, path, e);
  }

  lemma {:induction false} SubFound<K, V>(t: Traits<K, V>, sn: SubNodes<K, V>, path: seq<nat>, e: Entry<K, V>)
    requires |path| < COLLISION_DEPTH && Wf(t, sn, path) && e in NodesEntries(sn.nodes)
    ensures OnPath(t.hash(e.key), path) && Get(t, sn, path, |path|, e.key) == Some(e.value)
    decreases COLLISION_DEPTH - |path|, 0
  {
    hide Mask, Get, NodeGet, NodeOk, Slot;
    var c := InNodes(sn.nodes, e);
    var idx := PlaceOf(sn, c);
    NodeFound(t, sn.nodes[c], path + [idx], e);
    PathPrefix(t.hash(e.key), path, idx);
    GetBySlot(t, sn, path, e.key);
  }

  lemma PathPrefix(hash: Hash, path: seq<nat>, idx: nat)
    requires |path| < COLLISION_DEPTH && OnPath(hash, path + [idx])
    ensures OnPath(hash, path) && Mask(hash, |path|) == idx
  {
    hide Mask;
    assert (path + [idx])[|path|] == idx;
    forall d | 0 <= d < |path|
      ensures Mask(hash, d) == path[d]
    {
      assert (path + [idx])[d] == path[d];
    }
  }

  lemma BinsListed<K, V>(bins: seq<seq<Entry<K, V>>>, hash: Hash, k: K)
    requires |bins| == COLLISION_BINS && BinsGet(bins, hash, k).Some?
    ensures Entry(k, BinsGet(bins, hash, k).value) in Flatten(bins)
  {
    hide Mask, FindKey, Flatten;
    var b := Mask(hash, COLLISION_DEPTH);
    var i := FindKey(bins[b], k);
    FlattenContains(bins, b, bins[b][i]);
  }

  lemma {:induction false} NodeListed<K, V>(t: Traits<K, V>, n: Node<K, V>, path: seq<nat>, k: K)
    requires |path| <= COLLISION_DEPTH && NodeOk(t, n, path) && OnPath(t.hash(k), path)
    requires NodeGet(t, n, path, k).Some?
    ensures Entry(k, NodeGet(t, n, path, k).value) in NodeEntries(n)
    decreases COLLISION_DEPTH - |path|, 1
  {
    hide Mask, BinsGet, Wf, Get, Flatten;
    match n
    case Leaf(_) =>
    case Inner(sub) => SubListed(t, sub, path, k);
    case Bins(bins) => BinsListed(bins, t.hash(k), k);
  }

  lemma {:induction false} SubListed<K, V>(t: Traits<K, V>, sn: SubNodes<K, V>, path: seq<nat>, k: K)
    requires Fits(t, sn, path, k) && Get(t, sn, path, |path|, k).Some?
    ensures Entry(k, Get(t, sn, path, |path|, k).value) in NodesEntries(sn.nodes)
    decreases COLLISION_DEPTH - |path|, 0
  {
    hide Mask, Get, NodeGet, NodeOk, Slot, Wf, CompressedIdx;
    Lookup(t, sn, path, k);
    GetBySlot(t, sn, path, k);
    var idx := Mask(t.hash(k), |path|);
    var c := CompressedIdx(sn, idx);
    NodeListed(t, sn.nodes[c], path + [idx], k);
    NodesContain(sn.nodes, c, Entry(k, Get(t, sn, path, |path|, k).value));
  }

  // ----- No key is listed twice

  ghost predicate Apart<K, V>(a: seq<Entry<K, V>>, b: seq<Entry<K, V>>) {
    forall e, f :: e in a && f in b ==> e.key != f.key
  }

  lemma DistinctConcat<K, V>(a: seq<Entry<K, V>>, b: seq<Entry<K, V>>)
    requires Distinct(a) && Distinct(b) && Apart(a, b)
    ensures Distinct(a + b)
  {
    var s := a + b;
    forall i, j | 0 <= i < j < |s|
      ensures s[i].key != s[j].key
    {
      if i < |a| <= j {
        assert a[i] in a && b[j - |a|] in b;
      }
    }
  }

  lemma {:induction false} FlattenDistinct<K, V>(parts: seq<seq<Entry<K, V>>>)
    requires forall c :: 0 <= c < |parts| ==> Distinct(parts[c])
    requires forall c, d :: 0 <= c < d < |parts| ==> Apart(parts[c], parts[d])
    ensures Distinct(Flatten(parts))
  {
    hide Apart, Distinct;
    if parts != [] {
      FlattenDistinct(parts[1..]);
      assert Apart(parts[0], Flatten(parts[1..])) by {
        ApartFlatten(parts[0], parts[1..]);
      }
      DistinctConcat(parts[0], Flatten(parts[1..]));
    } else {
      DistinctNone<K, V>();
    }
  }

  lemma DistinctNone<K, V>()
    ensures Distinct<K, V>([])
  {
  }

  lemma ApartFlatten<K, V>(a: seq<Entry<K, V>>, parts: seq<seq<Entry<K, V>>>)
    requires forall c :: 0 <= c < |parts| ==> Apart(a, parts[c])
    ensures Apart(a, Flatten(parts))
  {
    hide Flatten;
    forall e, f | e in a && f in Flatten(parts)
      ensures e.key != f.key
    {
      var c := InFlatten(parts, f);
    }
  }

  /** The entries of the nodes, node by node. */
  function Parts<K, V>(nodes: seq<Node<K, V>>): (parts: seq<seq<Entry<K, V>>>)
    ensures |parts| == |nodes|
    ensures forall c :: 0 <= c < |nodes| ==> parts[c] == NodeEntries(nodes[c])
  {
    seq(|nodes|, c requires 0 <= c < |nodes| => NodeEntries(nodes[c]))
  }

  lemma {:induction false} EntriesOfParts<K, V>(nodes: seq<Node<K, V>>)
    ensures NodesEntries(nodes) == Flatten(Parts(nodes))
  {
    if nodes != [] {
      EntriesOfParts(nodes[1..]);
      assert Parts(nodes)[1..] == Parts(nodes[1..]);
    }
  }

  lemma {:induction false} SubDistinct<K, V>(t: Traits<K, V>, sn: SubNodes<K, V>, path: seq<nat>)
    requires |path| < COLLISION_DEPTH && Wf(t, sn, path)
    ensures Distinct(NodesEntries(sn.nodes))
    decreases COLLISION_DEPTH - |path|, 0
  {
    hide Mask, NodeOk, Distinct, Apart, Slot, CompressedIdx, NodeEntries;
    var parts := Parts(sn.nodes);
    forall c | 0 <= c < |parts|
      ensures Distinct(parts[c])
    {
      var idx := PlaceOf(sn, c);
      NodeDistinct(t, sn.nodes[c], path + [idx]);
    }
    forall c, d | 0 <= c < d < |parts|
      ensures Apart(parts[c], parts[d])
    {
      NodesApart(t, sn, path, c, d);
    }
    FlattenDistinct(parts);
    EntriesOfParts(sn.nodes);
  }

  lemma NodesApart<K, V>(t: Traits<K, V>, sn: SubNodes<K, V>, path: seq<nat>, c: nat, d: nat)
    requires |path| < COLLISION_DEPTH && Wf(t, sn, path) && c < d < |sn.nodes|
    ensures Apart(NodeEntries(sn.nodes[c]), NodeEntries(sn.nodes[d]))
  {
    hide Mask, NodeOk, NodeGet, Slot, CompressedIdx, NodeEntries, OnPath;
    var i := PlaceOf(sn, c);
    var j := PlaceOf(sn, d);
    forall e, f | e in NodeEntries(sn.nodes[c]) && f in NodeEntries(sn.nodes[d])
      ensures e.key != f.key
    {
      NodeFound(t, sn.nodes[c], path + [i], e);
      NodeFound(t, sn.nodes[d], path + [j], f);
      PathPrefix(t.hash(e.key), path, i);
      PathPrefix(t.hash(f.key), path, j);
    }
  }

  lemma {:induction false} NodeDistinct<K, V>(t: Traits<K, V>, n: Node<K, V>, path: seq<nat>)
    requires |path| <= COLLISION_DEPTH && NodeOk(t, n, path)
    ensures Distinct(NodeEntries(n))
    decreases COLLISION_DEPTH - |path|, 1
  {
    hide Mask, Flatten;
    match n
    case Leaf(_) =>
    case Inner(sub) => SubDistinct(t, sub, path);
    case Bins(bins) =>
      forall c | 0 <= c < |bins|
        ensures Distinct(bins[c])
      {
        BinDistinct(t, bins, path, c);
      }
      FlattenDistinct(bins);
  }
}
