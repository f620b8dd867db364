/** Reading a range of the log from the chunks that hold it, one after the other. */
module LedgerRanges {
  import opened Bytes
  import opened Options
  import opened Sequences
  import opened LedgerChunks
  import opened LedgerTiles
  import opened LedgerStore

  ghost predicate InLog(s: Store, from: nat, upto: nat) {
    s.base < from <= upto + 1 && upto <= s.lastIdx && s.lastIdx - s.base == |s.Log()|
  }

  /** The entries from one index to another, laid end to end. */
  ghost function LogRange(s: Store, from: nat, upto: nat): seq<byte>
    requires InLog(s, from, upto)
  {
    Flatten(s.Log()[from - s.base - 1..upto - s.base])
  }

  lemma SoundInLog(s: Store, from: nat, upto: nat)
    requires Sound(s) && s.base < from <= upto + 1 && upto <= s.lastIdx
    ensures InLog(s, from, upto)
  {
    hide Sound, Store.Log;
    LogLength(s);
  }

  lemma RangesJoin(s: Store, from: nat, mid: nat, upto: nat)
    requires InLog(s, from, upto) && from <= mid + 1 && mid <= upto
    ensures InLog(s, from, mid) && InLog(s, mid + 1, upto)
    ensures LogRange(s, from, upto) == LogRange(s, from, mid) + LogRange(s, mid + 1, upto)
  {
    hide Flatten, Store.Log;
    var log, a, m, b := s.Log(), from - s.base - 1, mid - s.base, upto - s.base;
    assert log[a..b] == log[a..m] + log[m..b];
    FlattenConcat(log[a..m], log[m..b]);
  }

  // ----- The chunk that holds an index

  ghost function Chunks(s: Store): seq<Chunk> {
    s.archive + s.files
  }

  lemma ChunksTile(s: Store)
    requires Sound(s)
    ensures Tiles(Chunks(s), s.base, s.lastIdx) && LogOf(Chunks(s)) == s.Log()
  {
    hide Tiles, LogOf, OpenFiles, Archived, Legible;
    TilesConcat(s.archive, s.files, s.base, s.archivedIdx, s.lastIdx);
    LogConcat(s.archive, s.files);
  }

  /** A chunk of the store that contains the index. */
  ghost predicate Holds(s: Store, c: Chunk, idx: nat) {
    c in Chunks(s) && c.Has(idx, idx)
  }

  ghost function Containing(s: Store, idx: nat): (c: Chunk)
    requires Sound(s) && s.base < idx <= s.lastIdx
    ensures Holds(s, c, idx)
  {
    ChunksTile(s);
    FindContainingFinds(Chunks(s), s.base, s.lastIdx, idx);
    Chunks(s)[FindContaining(Chunks(s), idx)]
  }

  lemma {:induction false} OneContains(chunks: seq<Chunk>, start: nat, end: nat, j: nat, k: nat, idx: nat)
    requires Tiles(chunks, start, end) && j <= k < |chunks| && chunks[j].Has(idx, idx) && chunks[k].Has(idx, idx)
    ensures j == k
  {
    hide Tiles, LogOf;
    if j < k {
      ChunkPlace(chunks, start, end, j);
      ChunkPlace(chunks, start, end, k);
      EndsGrow(chunks, start, j + 1, k);
      assert false;
    }
  }

  lemma EndsGrow(chunks: seq<Chunk>, start: nat, j: nat, k: nat)
    requires j <= k <= |chunks|
    ensures EndAt(chunks, start, j) <= EndAt(chunks, start, k)
  {
    hide LogOf;
    assert chunks[..k] == chunks[..j] + chunks[j..k];
    LogConcat(chunks[..j], chunks[j..k]);
  }

  /** Only one chunk holds an index. */
  lemma HolderUnique(s: Store, b: Chunk, c: Chunk, idx: nat)
    requires Sound(s) && Holds(s, b, idx) && Holds(s, c, idx)
    ensures b == c
  {
    ChunksTile(s);
    hide Sound;
    var chunks := Chunks(s);
    var j :| 0 <= j < |chunks| && chunks[j] == b;
    var k :| 0 <= k < |chunks| && chunks[k] == c;
    if j <= k {
      OneContains(chunks, s.base, s.lastIdx, j, k, idx);
    } else {
      OneContains(chunks, s.base, s.lastIdx, k, j, idx);
    }
  }

  /** The entries of a chunk are those of the log at the same indices. */
  lemma ChunkRange(s: Store, c: Chunk, from: nat, upto: nat)
    requires Sound(s) && c in Chunks(s) && c.Has(from, upto)
    ensures InLog(s, from, upto) && c.LastIdx() <= s.lastIdx && c.Range(from, upto) == LogRange(s, from, upto)
  {
    hide Sound, Tiles, LogOf, Flatten, Chunks;
    ChunkInLog(s, c);
    SoundInLog(s, from, upto);
    var o := c.startIdx - s.base - 1;
    SubSlice(s.Log(), o, |c.entries|, from - c.startIdx, upto - from + 1);
  }

  lemma ChunkInLog(s: Store, c: Chunk)
    requires Sound(s) && c in Chunks(s)
    ensures s.base < c.startIdx && c.LastIdx() <= s.lastIdx && |s.Log()| == s.lastIdx - s.base
    ensures c.entries == s.Log()[c.startIdx - s.base - 1..c.LastIdx() - s.base]
  {
    hide Sound, Tiles, LogOf, Store.Log;
    ChunksTile(s);
    var chunks := Chunks(s);
    var k :| 0 <= k < |chunks| && chunks[k] == c;
    ChunkPlace(chunks, s.base, s.lastIdx, k);
  }

  // ----- The walk over the chunks

  function Less(cap: Option<nat>, size: nat): Option<nat> {
    match cap
    case None => None
    case Some(n) => Some(if size <= n then n - size else 0)
  }

  function Least(a: nat, b: nat): nat {
    if a <= b then a else b
  }

  /**
  The last index read when reading on from `idx`, chunk by chunk, within the cap; `None` if nothing of the
  next chunk fits, or if its index lies beyond the limit.
  */
  ghost function Walk(s: Store, idx: nat, upto: nat, limit: nat, cap: Option<nat>): (r: Option<nat>)
    requires Sound(s) && s.base < idx <= upto <= s.lastIdx
    ensures r.Some? ==> idx <= r.value <= upto
    decreases upto - idx
  {
    if idx > limit then None
    else
      var c := Containing(s, idx);
      var end := Least(c.LastIdx(), upto);
      match ReadEntries(c, idx, end, cap)
      case None => None
      case Some(v) =>
        if v.last != end || end == upto then Some(v.last) else Walk(s, end + 1, upto, limit, Less(cap, |v.bytes|))
  }

  lemma EntryNotEmpty(s: Store, from: nat, upto: nat)
    requires Sound(s) && InLog(s, from, upto) && from <= upto
    ensures LogRange(s, from, upto) != []
  {
    var log, a, b := s.Log(), from - s.base - 1, upto - s.base;
    assert log[a..b][0] == log[a] != [];
    assert Flatten(log[a..b]) == log[a..b][0] + Flatten(log[a..b][1..]);
  }

  /** Reading part of a chunk, in terms of the log. */
  lemma ChunkRead(s: Store, c: Chunk, idx: nat, end: nat, cap: Option<nat>)
    requires Sound(s) && c in Chunks(s) && c.Has(idx, end)
    ensures InLog(s, idx, idx) && InLog(s, idx, end)
    ensures ReadEntries(c, idx, end, cap).None? <==> !Within(|LogRange(s, idx, idx)|, cap)
    ensures ReadEntries(c, idx, end, cap).Some? ==>
      var v := ReadEntries(c, idx, end, cap).value;
      && FitsTo(s, idx, v.last, cap) && v.last <= end && v.bytes == LogRange(s, idx, v.last)
      && (v.last != end ==> !Within(|LogRange(s, idx, end)|, cap))
  {
    hide Sound, Chunk.Range, LogRange, Chunks;
    ChunkRange(s, c, idx, idx);
    ChunkRange(s, c, idx, end);
    FittingToFits(c, idx, end, cap);
    var fit := FittingTo(c, idx, end, cap);
    if fit.Some? {
      ChunkRange(s, c, idx, fit.value);
      EntryNotEmpty(s, idx, fit.value);
    }
  }

  /** One step of the walk: how it goes on after what was read of the chunk. */
  lemma WalkStep(s: Store, idx: nat, upto: nat, limit: nat, cap: Option<nat>) returns (c: Chunk, end: nat)
    requires Sound(s) && s.base < idx <= upto <= s.lastIdx && idx <= limit
    ensures Holds(s, c, idx) && end == Least(c.LastIdx(), upto)
    ensures var v := ReadEntries(c, idx, end, cap);
      && (v.None? ==> Walk(s, idx, upto, limit, cap).None?)
      && (v.Some? && (v.value.last != end || end == upto) ==> Walk(s, idx, upto, limit, cap) == Some(v.value.last))
      && (v.Some? && v.value.last == end < upto ==>
        Walk(s, idx, upto, limit, cap) == Walk(s, end + 1, upto, limit, Less(cap, |v.value.bytes|)))
  {
    hide Sound, ReadEntries;
    c := Containing(s, idx);
    end := Least(c.LastIdx(), upto);
  }

  lemma WalkBeyond(s: Store, idx: nat, upto: nat, limit: nat, cap: Option<nat>)
    requires Sound(s) && s.base < idx <= upto <= s.lastIdx && idx > limit
    ensures Walk(s, idx, upto, limit, cap) == None
  {
  }

  /** Without a cap, everything up to the end is read, if it is within the limit. */
  lemma {:induction false} WalkUncapped(s: Store, idx: nat, upto: nat, limit: nat)
    requires Sound(s) && s.base < idx <= upto <= s.lastIdx
    requires limit >= upto || forall c <- Chunks(s) :: c.Has(limit, limit) ==> c.LastIdx() == limit
    ensures Walk(s, idx, upto, limit, None) == if upto <= limit then Some(upto) else None
    decreases upto - idx
  {
    hide Sound, ReadEntries, Walk, Chunks, LogRange, InLog;
    if idx > limit {
      WalkBeyond(s, idx, upto, limit, None);
    } else {
      var c, end := WalkStep(s, idx, upto, limit, None);
      ChunkRead(s, c, idx, end, None);
      if end < upto {
        WalkUncapped(s, end + 1, upto, limit);
      }
    }
  }

  /** The entries up to `last` are some of the log, and within the cap. */
  ghost predicate FitsTo(s: Store, idx: nat, last: nat, cap: Option<nat>) {
    idx <= last && InLog(s, idx, last) && LogRange(s, idx, last) != [] && Within(|LogRange(s, idx, last)|, cap)
  }

  lemma FitsJoin(s: Store, idx: nat, mid: nat, last: nat, cap: Option<nat>)
    requires Sound(s) && FitsTo(s, idx, mid, cap) && FitsTo(s, mid + 1, last, Less(cap, |LogRange(s, idx, mid)|))
    ensures FitsTo(s, idx, last, cap)
  {
    hide Sound, LogRange;
    RangesJoin(s, idx, mid, last);
  }

  /** What is read is contiguous, not empty and within the cap. */
  lemma {:induction false} WalkFits(s: Store, idx: nat, upto: nat, limit: nat, cap: Option<nat>)
    requires Sound(s) && s.base < idx <= upto <= s.lastIdx
    ensures var r := Walk(s, idx, upto, limit, cap); r.Some? ==> FitsTo(s, idx, r.value, cap)
    decreases upto - idx
  {
    hide Sound, ReadEntries, LogRange, Chunks, Walk, InLog;
    if idx > limit {
      WalkBeyond(s, idx, upto, limit, cap);
    } else {
      var c, end := WalkStep(s, idx, upto, limit, cap);
      ChunkRead(s, c, idx, end, cap);
      var v := ReadEntries(c, idx, end, cap);
      if v.Some? && v.value.last == end < upto {
        var rest := Less(cap, |v.value.bytes|);
        WalkFits(s, end + 1, upto, limit, rest);
        var r := Walk(s, end + 1, upto, limit, rest);
        if r.Some? {
          FitsJoin(s, idx, end, r.value, cap);
        }
      }
    }
  }

  // ----- When a capped read finds nothing

  ghost predicate StartsChunk(s: Store, m: nat) {
    exists c :: c in Chunks(s) && c.startIdx == m
  }

  /** Entry `m` is the first to exceed the cap, and it is the first of the range or of its chunk. */
  ghost predicate Blocks(s: Store, from: nat, upto: nat, cap: nat, m: nat) {
    && from <= m <= upto && InLog(s, from, m) && InLog(s, from, m - 1)
    && |LogRange(s, from, m)| > cap >= |LogRange(s, from, m - 1)|
    && (m == from || StartsChunk(s, m))
  }

  ghost predicate Blocked(s: Store, from: nat, upto: nat, cap: nat) {
    exists m: nat :: Blocks(s, from, upto, cap, m)
  }

  lemma FirstTooLarge(s: Store, idx: nat, upto: nat, cap: nat)
    requires Sound(s) && s.base < idx <= upto <= s.lastIdx && InLog(s, idx, idx) && |LogRange(s, idx, idx)| > cap
    ensures Blocked(s, idx, upto, cap)
  {
    SoundInLog(s, idx, idx - 1);
    NothingRead(s, idx);
    hide Sound;
    assert Blocks(s, idx, upto, cap, idx);
  }

  lemma NothingRead(s: Store, idx: Idx)
    requires InLog(s, idx, idx - 1)
    ensures LogRange(s, idx, idx - 1) == []
  {
  }

  lemma RangeMonotone(s: Store, from: nat, mid: nat, upto: nat)
    requires InLog(s, from, upto) && from <= mid + 1 && mid <= upto
    ensures InLog(s, from, mid) && |LogRange(s, from, mid)| <= |LogRange(s, from, upto)|
  {
    hide LogRange;
    RangesJoin(s, from, mid, upto);
  }

  /** If the first entry of a chunk's part fits, nothing blocks until the part as a whole exceeds the cap. */
  lemma NotBlocked(s: Store, upto: nat, cap: nat, c: Chunk, idx: nat, end: nat)
    requires Sound(s) && c in Chunks(s) && c.Has(idx, end) && s.base < idx <= end <= upto <= s.lastIdx
    requires InLog(s, idx, idx) && |LogRange(s, idx, idx)| <= cap && InLog(s, idx, end)
    requires |LogRange(s, idx, end)| > cap || end == upto
    ensures !Blocked(s, idx, upto, cap)
  {
    hide Sound, LogRange, Chunks, StartsChunk;
    forall m: nat
      ensures !Blocks(s, idx, upto, cap, m)
    {
      if Blocks(s, idx, upto, cap, m) {
        if m == idx {
          assert false;
        } else if m > end {
          RangeMonotone(s, idx, end, m - 1);
          assert false;
        } else {
          InsideChunk(s, c, idx, end, m);
          assert false;
        }
      }
    }
  }

  lemma InsideChunk(s: Store, c: Chunk, idx: nat, end: nat, m: nat)
    requires Sound(s) && c in Chunks(s) && c.Has(idx, end) && idx < m <= end
    ensures !StartsChunk(s, m)
  {
    hide Sound;
    forall b | b in Chunks(s) && b.startIdx == m
      ensures false
    {
      ChunkNotEmpty(s, b);
      HolderUnique(s, b, c, m);
    }
  }

  lemma ChunkNotEmpty(s: Store, c: Chunk)
    requires Sound(s) && c in Chunks(s)
    ensures c.entries != []
  {
    ChunksTile(s);
    hide Sound, Tiles;
    var chunks := Chunks(s);
    var k :| 0 <= k < |chunks| && chunks[k] == c;
    ChunkPlace(chunks, s.base, s.lastIdx, k);
  }

  lemma BlocksLater(s: Store, from: nat, mid: nat, upto: nat, cap: nat, m: nat)
    requires Sound(s) && s.base < from <= mid < upto <= s.lastIdx && InLog(s, from, mid)
    requires StartsChunk(s, mid + 1) && |LogRange(s, from, mid)| <= cap
    ensures Blocks(s, from, upto, cap, m) <==> Blocks(s, mid + 1, upto, cap - |LogRange(s, from, mid)|, m)
  {
    hide Sound, LogRange, StartsChunk;
    if m <= mid {
      if Blocks(s, from, upto, cap, m) {
        RangeMonotone(s, from, m, mid);
        assert false;
      }
    } else if m <= upto {
      SoundInLog(s, from, m);
      RangesJoin(s, from, mid, m);
      RangesJoin(s, from, mid, m - 1);
    }
  }

  /** Past a chunk that was read whole, what blocks the rest is what blocks it all. */
  lemma BlockedLater(s: Store, from: nat, mid: nat, upto: nat, cap: nat)
    requires Sound(s) && s.base < from <= mid < upto <= s.lastIdx && InLog(s, from, mid)
    requires StartsChunk(s, mid + 1) && |LogRange(s, from, mid)| <= cap
    ensures Blocked(s, from, upto, cap) <==> Blocked(s, mid + 1, upto, cap - |LogRange(s, from, mid)|)
  {
    hide Sound, LogRange, StartsChunk, Blocks;
    var rest := cap - |LogRange(s, from, mid)|;
    if Blocked(s, from, upto, cap) {
      var m: nat :| Blocks(s, from, upto, cap, m);
      BlocksLater(s, from, mid, upto, cap, m);
    }
    if Blocked(s, mid + 1, upto, rest) {
      var m: nat :| Blocks(s, mid + 1, upto, rest, m);
      BlocksLater(s, from, mid, upto, cap, m);
    }
  }

  /** The chunk after one that ends before the end of the log starts at the next index. */
  lemma NextStarts(s: Store, c: Chunk)
    requires Sound(s) && c in Chunks(s) && c.LastIdx() < s.lastIdx
    ensures StartsChunk(s, c.LastIdx() + 1)
  {
    ChunksTile(s);
    hide Sound, Tiles, LogOf;
    var chunks := Chunks(s);
    var k :| 0 <= k < |chunks| && chunks[k] == c;
    ChunkPlace(chunks, s.base, s.lastIdx, k);
    TilesLength(chunks, s.base, s.lastIdx);
    assert chunks[..|chunks|] == chunks;
    if k + 1 < |chunks| {
      ChunkPlace(chunks, s.base, s.lastIdx, k + 1);
      assert chunks[k + 1] in chunks;
    }
  }

  /**
  A capped read of a range that is in the log comes back empty-handed exactly when the first entry that
  exceeds the cap is the first of the range or the first of its chunk.
  */
  lemma {:induction false} WalkNoneIff(s: Store, idx: nat, upto: nat, cap: nat)
    requires Sound(s) && s.base < idx <= upto <= s.lastIdx
    ensures Walk(s, idx, upto, s.lastIdx, Some(cap)).None? <==> Blocked(s, idx, upto, cap)
    decreases upto - idx
  {
    hide Sound, ReadEntries, LogRange, Chunks, Walk, InLog, Blocked, StartsChunk;
    var c, end := WalkStep(s, idx, upto, s.lastIdx, Some(cap));
    ChunkRead(s, c, idx, end, Some(cap));
    var v := ReadEntries(c, idx, end, Some(cap));
    if v.None? {
      FirstTooLarge(s, idx, upto, cap);
    } else if v.value.last != end || end == upto {
      NotBlocked(s, upto, cap, c, idx, end);
    } else {
      NextStarts(s, c);
      BlockedLater(s, idx, end, upto, cap);
      WalkNoneIff(s, end + 1, upto, cap - |v.value.bytes|);
    }
  }

  /** If all of the range fits, all of it is read. */
  lemma {:induction false} WalkWhole(s: Store, idx: nat, upto: nat, cap: Option<nat>)
    requires Sound(s) && s.base < idx <= upto <= s.lastIdx && InLog(s, idx, upto)
    requires Within(|LogRange(s, idx, upto)|, cap)
    ensures Walk(s, idx, upto, s.lastIdx, cap) == Some(upto)
    decreases upto - idx
  {
    hide Sound, ReadEntries, LogRange, Chunks, Walk, InLog;
    var c, end := WalkStep(s, idx, upto, s.lastIdx, cap);
    ChunkRead(s, c, idx, end, cap);
    RangeMonotone(s, idx, idx, upto);
    RangeMonotone(s, idx, end, upto);
    if end < upto {
      RangesJoin(s, idx, end, upto);
      WalkWhole(s, end + 1, upto, Less(cap, |LogRange(s, idx, end)|));
    }
  }

  /** A walk that may not go beyond a boundary of chunks does what it would if asked to go that far, except that it
      fails if it gets there. */
  lemma {:induction false} WalkLimited(s: Store, idx: nat, upto: nat, limit: nat, cap: Option<nat>)
    requires Sound(s) && s.base < idx <= limit < upto <= s.lastIdx
    requires forall c <- Chunks(s) :: c.Has(limit, limit) ==> c.LastIdx() == limit
    ensures var w := Walk(s, idx, limit, s.lastIdx, cap);
      Walk(s, idx, upto, limit, cap) == if w == Some(limit) then None else w
    decreases upto - idx
  {
    hide Sound, ReadEntries, Chunks, Walk, InLog, LogRange;
    var c, end := WalkStep(s, idx, upto, limit, cap);
    var b, end' := WalkStep(s, idx, limit, s.lastIdx, cap);
    HolderUnique(s, b, c, idx);
    assert end == end' <= limit;
    ChunkRead(s, c, idx, end, cap);
    if end == limit {
      WalkBeyond(s, limit + 1, upto, limit, Less(cap, |LogRange(s, idx, end)|));
    } else {
      WalkLimited(s, end + 1, upto, limit, Less(cap, |LogRange(s, idx, end)|));
    }
  }

  /** A limit at or beyond the end makes no difference. */
  lemma {:induction false} WalkWithin(s: Store, idx: nat, upto: nat, limit: nat, cap: Option<nat>)
    requires Sound(s) && s.base < idx <= upto <= s.lastIdx && upto <= limit
    ensures Walk(s, idx, upto, limit, cap) == Walk(s, idx, upto, s.lastIdx, cap)
    decreases upto - idx
  {
    hide Sound, ReadEntries, Chunks, Walk, InLog, LogRange;
    var c, end := WalkStep(s, idx, upto, limit, cap);
    var b, end' := WalkStep(s, idx, upto, s.lastIdx, cap);
    HolderUnique(s, b, c, idx);
    ChunkRead(s, c, idx, end, cap);
    if end < upto {
      WalkWithin(s, end + 1, upto, limit, Less(cap, |LogRange(s, idx, end)|));
    }
  }

  // ----- How much a capped read keeps

  /** The first index of the range that is in the chunk. */
  function FirstIn(c: Chunk, from: nat): nat {
    if from < c.startIdx then c.startIdx else from
  }

  /** A read up to `last` has kept at least half of what would fit of the chunk it stopped in, and all before that. */
  ghost predicate KeepsHalf(s: Store, from: nat, upto: nat, cap: Option<nat>, last: nat, m: nat)
    requires Sound(s) && s.base < from <= last <= upto <= s.lastIdx
  {
    from <= m <= upto && InLog(s, from, m) && Within(|LogRange(s, from, m)|, cap) ==>
      var b := FirstIn(Containing(s, last), from);
      m - b <= 2 * (last - b)
  }

  lemma ChunkKeepsHalf(s: Store, c: Chunk, idx: nat, end: nat, cap: Option<nat>, m: nat)
    requires Sound(s) && c in Chunks(s) && c.Has(idx, end) && idx <= m <= end
    requires InLog(s, idx, m) && Within(|LogRange(s, idx, m)|, cap)
    ensures ReadEntries(c, idx, end, cap).Some? && m - idx <= 2 * (ReadEntries(c, idx, end, cap).value.last - idx)
  {
    hide Sound, Chunk.Range, LogRange, Chunks;
    ChunkRange(s, c, idx, m);
    FittingKeepsHalf(c, idx, end, cap, m);
    ChunkRead(s, c, idx, end, cap);
    var fit := FittingTo(c, idx, end, cap).value;
    FittingToFits(c, idx, end, cap);
    ChunkRange(s, c, idx, idx);
    RangeMonotone(s, idx, idx, m);
  }

  lemma {:induction false} WalkKeepsHalf(s: Store, idx: nat, upto: nat, cap: Option<nat>, m: nat)
    requires Sound(s) && s.base < idx <= upto <= s.lastIdx && Walk(s, idx, upto, s.lastIdx, cap).Some?
    ensures KeepsHalf(s, idx, upto, cap, Walk(s, idx, upto, s.lastIdx, cap).value, m)
    decreases upto - idx
  {
    hide Sound, ReadEntries, LogRange, Chunks, Walk, InLog;
    if idx <= m <= upto && InLog(s, idx, m) && Within(|LogRange(s, idx, m)|, cap) {
      var c, end := WalkStep(s, idx, upto, s.lastIdx, cap);
      ChunkRead(s, c, idx, end, cap);
      var v := ReadEntries(c, idx, end, cap).value;
      var last := Walk(s, idx, upto, s.lastIdx, cap).value;
      if v.last != end || end == upto {
        HolderUnique(s, Containing(s, last), c, last);
        if m > end {
          RangeMonotone(s, idx, end, m);
        }
        ChunkKeepsHalf(s, c, idx, end, cap, m);
      } else {
        var rest := Less(cap, |v.bytes|);
        LaterChunk(s, c, end, last);
        if m > end {
          RangesJoin(s, idx, end, m);
          WalkKeepsHalf(s, end + 1, upto, rest, m);
        }
      }
    }
  }

  /** What follows the last index of a chunk is in later chunks. */
  lemma LaterChunk(s: Store, c: Chunk, end: nat, idx: nat)
    requires Sound(s) && c in Chunks(s) && c.entries != [] && c.LastIdx() == end && s.base < end < idx <= s.lastIdx
    ensures Containing(s, idx).startIdx > end
  {
    hide Sound, Chunks;
    var d := Containing(s, idx);
    if d.startIdx <= end {
      HolderUnique(s, c, d, end);
    }
  }

  // ----- A read as a whole

  function Limit(s: Store, readCacheOnly: bool): nat {
    if readCacheOnly then s.archivedIdx else s.lastIdx
  }

  /** The entries that the walk from `from` reads. */
  ghost function Outcome(s: Store, from: nat, end: nat, limit: nat, cap: Option<nat>): Option<seq<byte>>
    requires Sound(s) && from <= end <= s.lastIdx
  {
    if from <= s.base then None
    else
      var w := Walk(s, from, end, limit, cap);
      if w.None? then None
      else
        SoundInLog(s, from, w.value);
        Some(LogRange(s, from, w.value))
  }

  ghost function ReadResult(
    s: Store, from: nat, upto: nat, readCacheOnly: bool, strict: bool, cap: Option<nat>): Option<seq<byte>>
    requires Sound(s)
  {
    if from == 0 || upto < from || (strict && upto > s.lastIdx) then None
    else
      var end := Least(upto, s.lastIdx);
      if from > end then Some([]) else Outcome(s, from, end, Limit(s, readCacheOnly), cap)
  }

  /** The walk has come to `idx`, having read the entries before it. */
  ghost predicate Walked(
    s: Store, from: nat, idx: nat, end: nat, limit: nat, cap: Option<nat>, entries: seq<byte>)
    requires Sound(s)
  {
    && 0 < from <= idx <= end <= s.lastIdx
    && (from <= s.base ==> idx == from && entries == [])
    && (s.base < from ==>
      && InLog(s, from, idx - 1) && entries == LogRange(s, from, idx - 1) && Within(|entries|, cap)
      && Walk(s, from, end, limit, cap) == Walk(s, idx, end, limit, Less(cap, |entries|)))
  }

  lemma WalkBegins(s: Store, from: nat, end: nat, limit: nat, cap: Option<nat>)
    requires Sound(s) && 0 < from <= end <= s.lastIdx
    ensures Walked(s, from, from, end, limit, cap, [])
  {
    hide Sound, Walk;
    if s.base < from {
      SoundInLog(s, from, from - 1);
      NothingRead(s, from);
    }
  }

  lemma WalkFails(s: Store, from: nat, idx: nat, end: nat, limit: nat, cap: Option<nat>, entries: seq<byte>)
    requires Sound(s) && Walked(s, from, idx, end, limit, cap, entries) && (idx <= s.base || idx > limit)
    ensures Outcome(s, from, end, limit, cap) == None
  {
    hide Sound, Walk, LogRange;
    if s.base < from {
      WalkBeyond(s, idx, end, limit, Less(cap, |entries|));
    }
  }

  lemma LessTwice(cap: Option<nat>, a: nat, b: nat)
    requires Within(a + b, cap)
    ensures Less(Less(cap, a), b) == Less(cap, a + b)
  {
  }

  /** How the read goes on after what was read of the chunk that holds `idx`. */
  lemma WalkGoesOn(s: Store, from: nat, idx: nat, end: nat, limit: nat, cap: Option<nat>, entries: seq<byte>, c: Chunk)
    requires Sound(s) && Walked(s, from, idx, end, limit, cap, entries) && s.base < idx <= limit && Holds(s, c, idx)
    ensures var last := Least(c.LastIdx(), end);
      var v := ReadEntries(c, idx, last, Less(cap, |entries|));
      && (v.None? ==> Outcome(s, from, end, limit, cap) == None)
      && (v.Some? && (v.value.last != last || last == end) ==>
        Outcome(s, from, end, limit, cap) == Some(entries + v.value.bytes))
      && (v.Some? && v.value.last == last < end ==>
        Walked(s, from, last + 1, end, limit, cap, entries + v.value.bytes))
  {
    hide Sound, Walk, LogRange, ReadEntries, InLog, Chunks;
    var rest := Less(cap, |entries|);
    var b, last := WalkStep(s, idx, end, limit, rest);
    HolderUnique(s, b, c, idx);
    ChunkRead(s, c, idx, last, rest);
    var v := ReadEntries(c, idx, last, rest);
    if v.Some? {
      SoundInLog(s, from, v.value.last);
      RangesJoin(s, from, idx - 1, v.value.last);
      LessTwice(cap, |entries|, |v.value.bytes|);
    }
  }
}
