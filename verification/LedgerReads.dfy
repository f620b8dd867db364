/** What a range read returns, after any run of the ledger, in terms of the plain log. */
module LedgerReads {
  import opened Bytes
  import opened Options
  import opened Sequences
  import opened LedgerChunks
  import opened LedgerTiles
  import opened LedgerStore
  import opened LedgerRanges
  import opened LedgerRuns

  /** The committed files end at a chunk boundary. */
  lemma ArchiveBoundary(s: Store)
    requires Sound(s)
    ensures forall c <- Chunks(s) :: c.Has(s.archivedIdx, s.archivedIdx) ==> c.LastIdx() == s.archivedIdx
  {
    hide Tiles, LogOf, OpenFiles, Archived, Legible;
    forall c | c in Chunks(s) && c.Has(s.archivedIdx, s.archivedIdx)
      ensures c.LastIdx() == s.archivedIdx
    {
      if c in s.archive {
        var k :| 0 <= k < |s.archive| && s.archive[k] == c;
        ChunkPlace(s.archive, s.base, s.archivedIdx, k);
      } else {
        var k :| 0 <= k < |s.files| && s.files[k] == c;
        ChunkPlace(s.files, s.archivedIdx, s.lastIdx, k);
        assert false;
      }
    }
  }

  lemma UncappedWalk(s: Store, from: nat, end: nat, readCacheOnly: bool)
    requires Sound(s) && 0 < from <= end <= s.lastIdx
    ensures var limit := Limit(s, readCacheOnly);
      if s.base < from && end <= limit
      then InLog(s, from, end) && Outcome(s, from, end, limit, None) == Some(LogRange(s, from, end))
      else Outcome(s, from, end, limit, None) == None
  {
    hide Sound, Walk, LogRange;
    ArchiveBoundary(s);
    if s.base < from {
      SoundInLog(s, from, end);
      WalkUncapped(s, from, end, Limit(s, readCacheOnly));
    }
  }

  /** The entries of a range of the plain log, laid end to end. */
  function PlainRange(p: Plain, from: nat, upto: nat): seq<byte>
    requires p.base < from <= upto <= p.LastIdx()
  {
    Flatten(p.log[from - p.base - 1..upto - p.base])
  }

  /** The ledger after a run, and the plain log after the same run. */
  ghost predicate After(base: nat, threshold: nat, ops: seq<Op>, s: Store, p: Plain) {
    && Sound(Empty(base, threshold))
    && s == Run(Empty(base, threshold), ops) && p == PlainRun(Plain([], base, base), ops)
  }

  lemma AfterRun(base: nat, threshold: nat, ops: seq<Op>, s: Store, p: Plain)
    requires After(base, threshold, ops, s, p)
    ensures Sound(s) && p == Abstract(s) && p.LastIdx() == s.lastIdx && p.base == s.base == base
  {
    hide Sound, Run, PlainRun;
    LedgerIsLog(base, threshold, ops);
    LogLength(s);
  }

  /**
  Without a cap, a strict read returns the entries of the range, whichever chunks hold them, if and only if
  the range lies within the log; a read from committed files alone, if it lies within those.
  */
  lemma ReadReturnsRange(base: nat, threshold: nat, ops: seq<Op>, s: Store, p: Plain,
    from: nat, upto: nat, readCacheOnly: bool)
    requires After(base, threshold, ops, s, p) && from > 0
    ensures Sound(s) && ReadResult(s, from, upto, readCacheOnly, true, None) ==
      if p.base < from <= upto <= p.LastIdx() && (readCacheOnly ==> upto <= s.archivedIdx)
      then Some(PlainRange(p, from, upto))
      else None
  {
    hide Sound, Run, PlainRun, Outcome, Flatten;
    AfterRun(base, threshold, ops, s, p);
    if from <= upto <= s.lastIdx {
      UncappedWalk(s, from, upto, readCacheOnly);
    }
  }

  /** A read that is not strict stops at the end of the log instead, and finds nothing to read beyond it. */
  lemma LenientReadStops(base: nat, threshold: nat, ops: seq<Op>, s: Store, p: Plain,
    from: nat, upto: nat, readCacheOnly: bool)
    requires After(base, threshold, ops, s, p) && 0 < from <= upto
    ensures Sound(s) && ReadResult(s, from, upto, readCacheOnly, false, None) ==
      var end := Least(upto, p.LastIdx());
      if end < from then Some([])
      else if p.base < from && (readCacheOnly ==> end <= s.archivedIdx) then Some(PlainRange(p, from, end))
      else None
  {
    hide Sound, Run, PlainRun, Outcome, Flatten;
    AfterRun(base, threshold, ops, s, p);
    var end := Least(upto, s.lastIdx);
    if from <= end {
      UncappedWalk(s, from, end, readCacheOnly);
    }
  }

  /** The range that a read is for: a strict one of entries that are there, or any other up to the end of the log. */
  predicate Reads(p: Plain, from: nat, upto: nat, strict: bool) {
    p.base < from <= upto && from <= p.LastIdx() && (strict ==> upto <= p.LastIdx())
  }

  /** With a cap, what a read returns is a beginning of the range, not empty and within the cap. */
  lemma CappedReadFits(base: nat, threshold: nat, ops: seq<Op>, s: Store, p: Plain,
    from: nat, upto: nat, readCacheOnly: bool, strict: bool, cap: nat) returns (last: nat)
    requires After(base, threshold, ops, s, p) && Sound(s) && from <= upto && from <= p.LastIdx()
    requires ReadResult(s, from, upto, readCacheOnly, strict, Some(cap)).Some?
    ensures p.base < from <= last <= upto && last <= p.LastIdx()
    ensures var r := ReadResult(s, from, upto, readCacheOnly, strict, Some(cap)).value;
      r == PlainRange(p, from, last) && 0 < |r| <= cap
  {
    hide Sound, Run, PlainRun, Flatten, Walk;
    AfterRun(base, threshold, ops, s, p);
    var limit, end := Limit(s, readCacheOnly), Least(upto, s.lastIdx);
    WalkFits(s, from, end, limit, Some(cap));
    last := Walk(s, from, end, limit, Some(cap)).value;
  }

  lemma CappedResult(s: Store, from: nat, upto: nat, readCacheOnly: bool, strict: bool, cap: nat)
    requires Sound(s) && s.base < from <= upto && from <= s.lastIdx && (strict ==> upto <= s.lastIdx)
    ensures var end := Least(upto, s.lastIdx);
      var w := Walk(s, from, end, Limit(s, readCacheOnly), Some(cap));
      && (ReadResult(s, from, upto, readCacheOnly, strict, Some(cap)).None? <==> w.None?)
      && (w.Some? ==>
        && InLog(s, from, w.value)
        && ReadResult(s, from, upto, readCacheOnly, strict, Some(cap)) == Some(LogRange(s, from, w.value)))
  {
    hide Sound, Walk, LogRange;
    var end := Least(upto, s.lastIdx);
    var w := Walk(s, from, end, Limit(s, readCacheOnly), Some(cap));
    if w.Some? {
      SoundInLog(s, from, w.value);
    }
  }

  /** A capped read returns none exactly when the first entry to exceed the cap is the first of the range or the first
      of its chunk; or, of committed files alone, when these end before the range and the cap does not run out. */
  lemma LimitedNoneIff(s: Store, from: nat, end: nat, readCacheOnly: bool, cap: nat)
    requires Sound(s) && s.base < from <= end <= s.lastIdx
    ensures var limit := Limit(s, readCacheOnly);
      Walk(s, from, end, limit, Some(cap)).None? <==>
        || limit < from || Blocked(s, from, Least(end, limit), cap)
        || (limit < end && InLog(s, from, limit) && |LogRange(s, from, limit)| <= cap)
  {
    hide Sound, Walk, LogRange, Blocked, InLog;
    var limit := Limit(s, readCacheOnly);
    ArchiveBoundary(s);
    if limit < from {
      WalkBeyond(s, from, end, limit, Some(cap));
    } else if end <= limit {
      if readCacheOnly {
        WalkWithin(s, from, end, limit, Some(cap));
      }
      WalkNoneIff(s, from, end, cap);
    } else {
      WalkLimited(s, from, end, limit, Some(cap));
      WalkNoneIff(s, from, limit, cap);
      SoundInLog(s, from, limit);
      if |LogRange(s, from, limit)| <= cap {
        WalkWhole(s, from, limit, Some(cap));
      } else {
        WalkFits(s, from, limit, s.lastIdx, Some(cap));
      }
    }
  }

  /**
  With a cap, a read of entries that are there, or of all from one that is up to the end of the log, returns none
  exactly when the first entry to exceed the cap is the first of the range or the first of its chunk.
  */
  lemma CappedReadNoneIff(base: nat, threshold: nat, ops: seq<Op>, s: Store, p: Plain,
    from: nat, upto: nat, strict: bool, cap: nat)
    requires After(base, threshold, ops, s, p) && Reads(p, from, upto, strict)
    ensures Sound(s) &&
      (ReadResult(s, from, upto, false, strict, Some(cap)).None? <==> Blocked(s, from, Least(upto, p.LastIdx()), cap))
  {
    hide Sound, Run, PlainRun, Walk, LogRange, Blocked, ReadResult;
    AfterRun(base, threshold, ops, s, p);
    CappedResult(s, from, upto, false, strict, cap);
    LimitedNoneIff(s, from, Least(upto, s.lastIdx), false, cap);
  }

  /** A capped read from committed files alone also returns none when these end before the range does, unless the cap
      runs out first. */
  lemma CommittedReadNoneIff(base: nat, threshold: nat, ops: seq<Op>, s: Store, p: Plain,
    from: nat, upto: nat, strict: bool, cap: nat)
    requires After(base, threshold, ops, s, p) && Reads(p, from, upto, strict)
    ensures Sound(s) && s.archivedIdx <= p.LastIdx()
    ensures var end := Least(upto, p.LastIdx());
      ReadResult(s, from, upto, true, strict, Some(cap)).None? <==>
        || s.archivedIdx < from || Blocked(s, from, Least(end, s.archivedIdx), cap)
        || (s.archivedIdx < end && |PlainRange(p, from, s.archivedIdx)| <= cap)
  {
    hide Sound, Run, PlainRun, Walk, Flatten, Blocked, ReadResult;
    AfterRun(base, threshold, ops, s, p);
    ArchiveBelow(s);
    CappedResult(s, from, upto, true, strict, cap);
    LimitedNoneIff(s, from, Least(upto, s.lastIdx), true, cap);
    if from <= s.archivedIdx {
      SoundInLog(s, from, s.archivedIdx);
    }
  }

  lemma ArchiveBelow(s: Store)
    requires Sound(s)
    ensures s.archivedIdx <= s.lastIdx
  {
  }

  /**
  A capped read keeps at least half, counted in entries, of what would fit of the part of the range in the chunk where
  it stops; and what comes after that chunk does not fit.
  */
  lemma CappedReadKeepsHalf(base: nat, threshold: nat, ops: seq<Op>, s: Store, p: Plain,
    from: nat, upto: nat, strict: bool, cap: nat, m: nat) returns (last: nat, c: Chunk)
    requires After(base, threshold, ops, s, p) && Reads(p, from, upto, strict) && Sound(s)
    requires ReadResult(s, from, upto, false, strict, Some(cap)).Some?
    requires from <= m <= upto && m <= p.LastIdx() && |PlainRange(p, from, m)| <= cap
    ensures from <= last <= p.LastIdx()
    ensures ReadResult(s, from, upto, false, strict, Some(cap)) == Some(PlainRange(p, from, last))
    ensures Holds(s, c, last) && m - FirstIn(c, from) <= 2 * (last - FirstIn(c, from))
  {
    hide Sound, Run, PlainRun, Walk, Flatten, ReadResult;
    AfterRun(base, threshold, ops, s, p);
    CappedResult(s, from, upto, false, strict, cap);
    var end := Least(upto, s.lastIdx);
    last := Walk(s, from, end, s.lastIdx, Some(cap)).value;
    SoundInLog(s, from, m);
    WalkKeepsHalf(s, from, end, Some(cap), m);
    c := Containing(s, last);
  }

  /**
  So a cap that runs out where a chunk ends loses what was already read: the entries before the boundary fit
  and can be read by themselves, yet the longer read returns none.
  */
  lemma CapRunsOutAtBoundary(s: Store, from: nat, m: nat, upto: nat, cap: nat)
    requires Sound(s) && s.base < from < m <= upto <= s.lastIdx && StartsChunk(s, m)
    requires InLog(s, from, m - 1) && InLog(s, from, m)
    requires |LogRange(s, from, m - 1)| <= cap < |LogRange(s, from, m)|
    ensures ReadResult(s, from, upto, false, true, Some(cap)) == None
    ensures ReadResult(s, from, m - 1, false, true, None) == Some(LogRange(s, from, m - 1))
  {
    hide Sound, Walk, LogRange, StartsChunk;
    assert Blocks(s, from, upto, cap, m);
    WalkNoneIff(s, from, upto, cap);
    UncappedWalk(s, from, m - 1, false);
  }
}
