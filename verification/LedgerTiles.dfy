/** Chunks laid end to end, and the log they make up. */
module LedgerTiles {
  import opened LedgerChunks

  /** The entries of all chunks, in order. */
  function LogOf(chunks: seq<Chunk>): seq<Entry> {
    if chunks == [] then [] else chunks[0].entries + LogOf(chunks[1..])
  }

  /** The chunks cover the indices after `start` up to `end`, without gap or overlap, and none is empty. */
  ghost predicate Tiles(chunks: seq<Chunk>, start: nat, end: nat)
    decreases |chunks|
  {
    if chunks == [] then start == end
    else
      && chunks[0].startIdx == start + 1
      && chunks[0].entries != []
      && Tiles(chunks[1..], start + |chunks[0].entries|, end)
  }

  /** The last index of the first `k` chunks. */
  function EndAt(chunks: seq<Chunk>, start: nat, k: nat): nat
    requires k <= |chunks|
  {
    start + |LogOf(chunks[..k])|
  }

  lemma {:induction false} LogConcat(a: seq<Chunk>, b: seq<Chunk>)
    ensures LogOf(a + b) == LogOf(a) + LogOf(b)
  {
    if a == [] {
      assert a + b == b;
    } else {
      assert (a + b)[1..] == a[1..] + b;
      LogConcat(a[1..], b);
      assert a[0].entries + (LogOf(a[1..]) + LogOf(b)) == a[0].entries + LogOf(a[1..]) + LogOf(b);
    }
  }

  lemma LogOne(c: Chunk)
    ensures LogOf([c]) == c.entries
  {
    var one := [c];
    assert one[1..] == [];
    assert c.entries + [] == c.entries;
  }

  lemma {:induction false} TilesLength(chunks: seq<Chunk>, start: nat, end: nat)
    requires Tiles(chunks, start, end)
    ensures start + |LogOf(chunks)| == end
    ensures chunks != [] ==> start < end
    decreases |chunks|
  {
    if chunks != [] {
      TilesLength(chunks[1..], start + |chunks[0].entries|, end);
    }
  }

  lemma {:induction false} TilesConcat(a: seq<Chunk>, b: seq<Chunk>, start: nat, mid: nat, end: nat)
    requires Tiles(a, start, mid) && Tiles(b, mid, end)
    ensures Tiles(a + b, start, end)
    decreases |a|
  {
    if a == [] {
      assert a + b == b;
    } else {
      assert (a + b)[1..] == a[1..] + b;
      TilesConcat(a[1..], b, start + |a[0].entries|, mid, end);
    }
  }

  lemma {:induction false} TilesSplit(chunks: seq<Chunk>, start: nat, end: nat, k: nat)
    requires Tiles(chunks, start, end) && k <= |chunks|
    ensures Tiles(chunks[..k], start, EndAt(chunks, start, k))
    ensures Tiles(chunks[k..], EndAt(chunks, start, k), end)
    decreases |chunks|
  {
    if k == 0 {
      assert chunks[..0] == [] && chunks[0..] == chunks;
    } else {
      TilesSplit(chunks[1..], start + |chunks[0].entries|, end, k - 1);
      assert chunks[..k][1..] == chunks[1..][..k - 1];
      assert chunks[1..][k - 1..] == chunks[k..];
    }
  }

  /** Chunk `k` begins where the chunks before it end, and holds its part of the log. */
  lemma ChunkPlace(chunks: seq<Chunk>, start: nat, end: nat, k: nat)
    requires Tiles(chunks, start, end) && k < |chunks|
    ensures chunks[k].startIdx == EndAt(chunks, start, k) + 1 && chunks[k].entries != []
    ensures EndAt(chunks, start, k + 1) == chunks[k].LastIdx() <= end
    ensures |LogOf(chunks)| == end - start
    ensures chunks[k].entries == LogOf(chunks)[chunks[k].startIdx - start - 1..chunks[k].LastIdx() - start]
  {
    hide LogOf, Tiles;
    TilesSplit(chunks, start, end, k);
    TilesLength(chunks, start, end);
    var a, c, b := chunks[..k], chunks[k], chunks[k + 1..];
    assert chunks[k..] == [c] + b && chunks == a + ([c] + b) && chunks[..k + 1] == a + [c];
    LogConcat(a, [c] + b);
    LogConcat([c], b);
    LogConcat(a, [c]);
    LogOne(c);
    FirstTile(chunks[k..], EndAt(chunks, start, k), end);
    TilesLength(chunks[k..], EndAt(chunks, start, k), end);
    Middle(LogOf(a), c.entries, LogOf(b));
  }

  lemma Middle(a: seq<Entry>, m: seq<Entry>, b: seq<Entry>)
    ensures (a + (m + b))[|a|..|a| + |m|] == m
  {
  }

  lemma FirstTile(chunks: seq<Chunk>, start: nat, end: nat)
    requires Tiles(chunks, start, end) && chunks != []
    ensures chunks[0].startIdx == start + 1 && chunks[0].entries != []
  {
  }

  // ----- Finding the chunk that contains an index

  /** The first chunk that ends at or after the index. */
  function FindContaining(chunks: seq<Chunk>, idx: nat): (k: nat)
    ensures k <= |chunks|
  {
    if chunks == [] || idx <= chunks[0].LastIdx() then 0 else 1 + FindContaining(chunks[1..], idx)
  }

  lemma {:induction false} FindContainingFinds(chunks: seq<Chunk>, start: nat, end: nat, idx: nat)
    requires Tiles(chunks, start, end) && start < idx <= end
    ensures var k := FindContaining(chunks, idx); k < |chunks| && chunks[k].Has(idx, idx)
    decreases |chunks|
  {
    if chunks != [] && idx > chunks[0].LastIdx() {
      FindContainingFinds(chunks[1..], start + |chunks[0].entries|, end, idx);
    }
  }

  /** The last chunk that starts at or before the index; the number of chunks if there is none. */
  function FindStarting(chunks: seq<Chunk>, idx: nat): (k: nat)
    ensures k <= |chunks|
  {
    if chunks == [] then 0
    else if idx >= chunks[|chunks| - 1].startIdx then |chunks| - 1
    else
      var k := FindStarting(chunks[..|chunks| - 1], idx);
      if k == |chunks| - 1 then |chunks| else k
  }

  lemma {:induction false} FindStartingFinds(chunks: seq<Chunk>, start: nat, end: nat, idx: nat)
    requires Tiles(chunks, start, end) && idx <= end
    ensures var k := FindStarting(chunks, idx);
      if idx <= start then k == |chunks| else k < |chunks| && chunks[k].Has(idx, idx)
    decreases |chunks|
  {
    if chunks != [] {
      var n := |chunks| - 1;
      ChunkPlace(chunks, start, end, n);
      TilesSplit(chunks, start, end, n);
      assert chunks[..n + 1] == chunks;
      TilesLength(chunks, start, end);
      if idx < chunks[n].startIdx {
        FindStartingFinds(chunks[..n], start, EndAt(chunks, start, n), idx);
      } else {
        Starts(chunks, start, end);
      }
    }
  }

  lemma Starts(chunks: seq<Chunk>, start: nat, end: nat)
    requires Tiles(chunks, start, end) && chunks != []
    ensures chunks[|chunks| - 1].startIdx > start
  {
    ChunkPlace(chunks, start, end, |chunks| - 1);
  }
}
