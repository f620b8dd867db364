/** The node of last resort in the hash trie: entries whose keys share all the hash bits above the bins. */
module ChampBins {
  import opened Options
  import opened KeyValue
  import opened Champ
  import opened ChampOps

  class Collisions<K(==), V> {
    const bins: array<seq<Entry<K, V>>>

    ghost predicate Valid()
      reads this
    {
      bins.Length == COLLISION_BINS
    }

    constructor ()
      ensures Valid() && fresh(bins) && bins[..] == [[], [], [], []]
    {
      bins := new seq<Entry<K, V>>[COLLISION_BINS](_ => []);
    }

    method Get(hash: Hash, k: K) returns (r: Option<V>)
      requires Valid()
      ensures r == BinsGet(bins[..], hash, k)
    {
      var bin := bins[Mask(hash, COLLISION_DEPTH)];
      var i := 0;
      while i < |bin|
        invariant 0 <= i <= |bin|
        invariant forall j :: 0 <= j < i ==> bin[j].key != k
      {
        if bin[i].key == k {
          return Some(bin[i].value);
        }
        i := i + 1;
      }
      r := None;
    }

    /** Replaces the entry of the key or adds one; returns the size of what was replaced, as the new value's. */
    method PutMut(t: Traits<K, V>, hash: Hash, k: K, v: V) returns (diff: nat)
      requires Valid()
      modifies bins
      ensures (bins[..], diff) == BinsPut(t, old(bins[..]), hash, k, v)
    {
      var idx := Mask(hash, COLLISION_DEPTH);
      var bin := bins[idx];
      var i := 0;
      while i < |bin|
        invariant 0 <= i <= |bin|
        invariant forall j :: 0 <= j < i ==> bin[j].key != k
        invariant bins[..] == old(bins[..])
      {
        if bin[i].key == k {
          bins[idx] := bin[i := Entry(k, v)];
          return PlainSize(t, k, v);
        }
        i := i + 1;
      }
      bins[idx] := bin + [Entry(k, v)];
      diff := 0;
    }

    method RemoveMut(t: Traits<K, V>, hash: Hash, k: K) returns (diff: nat)
      requires Valid()
      modifies bins
      ensures (bins[..], diff) == BinsRemove(t, old(bins[..]), hash, k)
    {
      var idx := Mask(hash, COLLISION_DEPTH);
      var bin := bins[idx];
      var i := 0;
      while i < |bin|
        invariant 0 <= i <= |bin|
        invariant forall j :: 0 <= j < i ==> bin[j].key != k
        invariant bins[..] == old(bins[..])
      {
        if bin[i].key == k {
          bins[idx] := bin[..i] + bin[i + 1..];
          return PlainSize(t, bin[i].key, bin[i].value);
        }
        i := i + 1;
      }
      diff := 0;
    }
  }
}
