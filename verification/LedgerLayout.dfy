/**
How the log is divided into chunks: over every run, in terms of the log and of the entries that chunks end with.
*/
module LedgerLayout {
  import opened Sequences
  import opened LedgerChunks
  import opened LedgerTiles
  import opened LedgerStore
  import opened LedgerRanges
  import opened LedgerRuns
  import opened LedgerChunkEnds

  /** The plain log, the indices at which a complete chunk ends, and how far the committed files reach.  Chunks do not
      occur in it. */
  datatype Layout = Layout(plain: Plain, ends: set<nat>, archivedIdx: nat)

  /** The last end at or before `n`, or the base of the log if there is none. */
  function LastEnd(ends: set<nat>, base: nat, n: nat): nat {
    if n <= base then base else if n in ends then n else LastEnd(ends, base, n - 1)
  }

  /** The size of a file with the entries of the log that follow an index. */
  function SizeAfter(log: seq<Entry>, base: nat, idx: nat): nat
    requires base <= idx <= base + |log|
  {
    OFFSET_SIZE + |Flatten(log[idx - base..])|
  }

  lemma {:induction false} LastEndWithin(ends: set<nat>, base: nat, n: nat)
    requires base <= n
    ensures base <= LastEnd(ends, base, n) <= n
    decreases n
  {
    if base < n && n !in ends {
      LastEndWithin(ends, base, n - 1);
    }
  }

  /** Where chunks end before the entry is written. */
  function EndsBefore(l: Layout, data: Entry): set<nat> {
    if AsksForChunk(data) && l.plain.log != [] then l.ends + {l.plain.LastIdx()} else l.ends
  }

  /** The entry, written after these ends, fills its chunk. */
  predicate Fills(plain: Plain, ends: set<nat>, threshold: nat, data: Entry) {
    LastEndWithin(ends, plain.base, plain.LastIdx());
    SizeAfter(plain.log + [data], plain.base, LastEnd(ends, plain.base, plain.LastIdx())) >= threshold
  }

  predicate Refused(data: Entry, committable: bool) {
    |data| < ENTRY_HEADER_SIZE || (ChunkAfter(data) && !committable)
  }

  function WrittenOut(l: Layout, threshold: nat, data: Entry, committable: bool): Layout {
    var ends := EndsBefore(l, data);
    if Refused(data, committable) then l.(ends := ends)
    else
      var full := committable && (ChunkAfter(data) || Fills(l.plain, ends, threshold, data));
      Layout(l.plain.(log := l.plain.log + [data]),
             if full then ends + {l.plain.LastIdx() + 1} else ends,
             l.archivedIdx)
  }

  function LaidOut(l: Layout, threshold: nat, op: Op): Layout {
    var plain := PlainApplied(l.plain, op);
    match op
    case Write(data, committable) => WrittenOut(l, threshold, data, committable)
    case Truncate(idx) =>
      if plain == l.plain then l else Layout(plain, (set b <- l.ends | b <= idx), l.archivedIdx)
    case Commit(idx) =>
      if plain == l.plain then l else Layout(plain, l.ends, LastEnd(l.ends, plain.base, idx))
  }

  function LaidOutAll(l: Layout, threshold: nat, ops: seq<Op>): Layout
    decreases |ops|
  {
    if ops == [] then l else LaidOutAll(LaidOut(l, threshold, ops[0]), threshold, ops[1..])
  }

  /** The store is divided as the layout says. */
  ghost predicate Laid(s: Store, l: Layout, threshold: nat) {
    && s.threshold == threshold && l.plain == Abstract(s) && l.archivedIdx == s.archivedIdx
    && forall b: nat :: b in l.ends <==> CompleteAt(s, b)
  }

  lemma {:induction false} LastEndIs(ends: set<nat>, base: nat, n: nat, x: nat)
    requires base <= x <= n && (x == base || x in ends) && forall b <- ends :: !(x < b <= n)
    ensures LastEnd(ends, base, n) == x
    decreases n
  {
    if x < n {
      LastEndIs(ends, base, n - 1, x);
    }
  }

  // ----- Where the chunk open for writing begins

  lemma ArchiveEnds(s: Store)
    requires Sound(s)
    ensures s.archivedIdx == s.base || CompleteAt(s, s.archivedIdx)
  {
    hide Tiles, LogOf, Legible, OpenFiles;
    NoneLeft(s.archive, s.base, s.archivedIdx);
    if s.archive != [] {
      LatestPlace(s.archive, s.base, s.archivedIdx);
      assert s.archive[|s.archive| - 1] in Chunks(s);
    }
  }

  lemma BeforeLatest(s: Store)
    requires Sound(s) && s.files != []
    ensures var x := s.Latest().startIdx - 1;
      && s.base <= x < s.lastIdx && (x == s.base || CompleteAt(s, x))
      && |s.Log()| == s.lastIdx - s.base && s.Latest().entries == s.Log()[x - s.base..]
  {
    hide Tiles, LogOf, Legible, Archived;
    var n := |s.files| - 1;
    LatestPlace(s.files, s.archivedIdx, s.lastIdx);
    LogLength(s);
    LatestEntries(s);
    if n == 0 {
      ArchiveEnds(s);
      NoChunks(s.files);
    } else {
      ChunkPlace(s.files, s.archivedIdx, s.lastIdx, n - 1);
      assert s.files[n - 1] in Chunks(s);
    }
  }

  lemma LatestEntries(s: Store)
    requires Sound(s) && s.files != [] && |s.Log()| == s.lastIdx - s.base
    ensures s.base < s.Latest().startIdx <= s.lastIdx
    ensures s.Latest().entries == s.Log()[s.Latest().startIdx - 1 - s.base..]
  {
    hide Tiles, LogOf, Legible, Archived, OpenFiles;
    var n := |s.files| - 1;
    LatestPlace(s.files, s.archivedIdx, s.lastIdx);
    LogLength(s);
    Suffix(LogOf(s.archive), LogOf(s.files[..n]), s.files[n].entries);
  }

  lemma Suffix(a: seq<Entry>, b: seq<Entry>, c: seq<Entry>)
    ensures (a + (b + c))[|a| + |b|..] == c
  {
  }

  lemma NoneSinceLatest(s: Store, b: nat)
    requires Sound(s) && !s.requireNewFile && s.files != [] && s.Latest().startIdx <= b <= s.lastIdx
    ensures !CompleteAt(s, b)
  {
    if CompleteAt(s, b) {
      var n := |s.files| - 1;
      LatestPlace(s.files, s.archivedIdx, s.lastIdx);
      EndsInParts(s, b);
      assert s.files == s.files[..n] + [s.Latest()];
      EndsInLast(s.files[..n], s.Latest(), b);
      TilesLength(s.files[..n], s.archivedIdx, s.Latest().startIdx - 1);
      hide EndsIn, LogOf;
      if EndsIn(s.archive, b) {
        LaterEnds(s.archive, s.base, s.archivedIdx, b);
      } else {
        LaterEnds(s.files[..n], s.archivedIdx, s.Latest().startIdx - 1, b);
      }
      assert false;
    }
  }

  /** A chunk open for writing holds what follows the last end. */
  lemma OpenChunk(s: Store, ends: set<nat>)
    requires Sound(s) && !s.requireNewFile && forall b: nat :: b in ends <==> CompleteAt(s, b)
    ensures s.files != [] && |s.Log()| == s.lastIdx - s.base
    ensures s.base <= LastEnd(ends, s.base, s.lastIdx) < s.lastIdx
    ensures s.Latest().entries == s.Log()[LastEnd(ends, s.base, s.lastIdx) - s.base..]
  {
    hide Sound, CompleteAt, Store.Log, LastEnd;
    SoundReady(s);
    BeforeLatest(s);
    var x := s.Latest().startIdx - 1;
    forall b | b in ends && x < b <= s.lastIdx
      ensures false
    {
      NoneSinceLatest(s, b);
    }
    LastEndIs(ends, s.base, s.lastIdx, x);
  }

  // ----- Writing

  /** The chunk that an entry was appended to: what followed the last end, and the entry. */
  lemma AppendedSize(s: Store, data: Entry, ends: set<nat>)
    requires Sound(s) && data != [] && forall b: nat :: b in ends <==> CompleteAt(s, b)
    ensures s.Ready()
    ensures var x := LastEnd(ends, s.base, s.lastIdx);
      && s.base <= x <= s.lastIdx == s.base + |s.Log()|
      && AppendedTo(s, data).Latest().Size() == SizeAfter(s.Log() + [data], s.base, x)
  {
    hide Sound, CompleteAt, Store.Log, LastEnd, Flatten;
    SoundReady(s);
    var r := AppendedTo(s, data);
    AppendedKeeps(s, data);
    LogLength(s);
    Bounds(s);
    LastEndWithin(ends, s.base, s.lastIdx);
    forall b: nat
      ensures b in ends <==> CompleteAt(r, b)
    {
      AppendingEnds(s, data, b);
    }
    AppendedLast(s, data);
    OpenChunk(r, ends);
    EndBounds(s);
    BeyondEnd(ends, s.base, s.lastIdx);
  }

  lemma AppendedLast(s: Store, data: Entry)
    requires Sound(s) && s.Ready()
    ensures var r := AppendedTo(s, data); !r.requireNewFile && r.base == s.base && r.lastIdx == s.lastIdx + 1
  {
    hide LogOf, Legible, Archived;
    if !s.requireNewFile {
      LatestPlace(s.files, s.archivedIdx, s.lastIdx);
    }
  }

  lemma BeyondEnd(ends: set<nat>, base: nat, n: nat)
    requires base <= n && n + 1 !in ends
    ensures LastEnd(ends, base, n + 1) == LastEnd(ends, base, n)
  {
  }

  function Prepared(s: Store, data: Entry): Store {
    if AsksForChunk(data) && s.files != [] then CompletedLatest(s) else s
  }

  /** What a write does before it appends. */
  lemma PreparedLaid(s: Store, l: Layout, threshold: nat, data: Entry)
    requires Sound(s) && Laid(s, l, threshold)
    ensures var r := Prepared(s, data);
      && Sound(r) && r.Log() == s.Log() && r.base == s.base && r.lastIdx == s.lastIdx && r.threshold == s.threshold
      && forall b: nat :: b in EndsBefore(l, data) <==> CompleteAt(r, b)
  {
    hide Sound, CompleteAt, Store.Log, AsksForChunk;
    LogLength(s);
    LogBounds(s);
    var r := Prepared(s, data);
    if s.files != [] {
      CompletedKeeps(s);
    } else if s.lastIdx > s.base {
      CompleteAtEnd(s);
    }
    forall b: nat
      ensures b in EndsBefore(l, data) <==> CompleteAt(r, b)
    {
      if s.files != [] {
        CompletingEnds(s, b);
      }
    }
  }

  lemma WroteInSteps(s: Store, data: Entry, committable: bool)
    requires Sound(s)
    ensures s.Ready() && Prepared(s, data).Ready()
    ensures var (r, idx) := WroteEntry(s, data, committable);
      var p := Prepared(s, data);
      if Refused(data, committable) then r == p && idx.None?
      else
        var a := AppendedTo(p, data);
        && idx.Some?
        && r == if committable && (ChunkAfter(data) || a.Latest().Size() >= s.threshold) then CompletedLatest(a) else a
  {
    SoundReady(s);
    hide Sound, CompletedLatest, AppendedTo, Chunk.Size;
  }

  lemma WriteLaid(s: Store, l: Layout, threshold: nat, data: Entry, committable: bool)
    requires Sound(s) && Laid(s, l, threshold)
    ensures s.Ready()
    ensures Laid(WroteEntry(s, data, committable).0, WrittenOut(l, threshold, data, committable), threshold)
  {
    hide Sound, CompleteAt, Store.Log, AsksForChunk, WroteEntry, AppendedTo, CompletedLatest, SizeAfter, Chunk.Size;
    PreparedLaid(s, l, threshold, data);
    WroteInSteps(s, data, committable);
    WriteKeeps(s, data, committable);
    WriteArchived(s, data, committable);
    LogLength(s);
    var p, r := Prepared(s, data), WroteEntry(s, data, committable).0;
    if !Refused(data, committable) {
      AppendedKeeps(p, data);
      AppendedSize(p, data, EndsBefore(l, data));
      AppendedLast(p, data);
      var a := AppendedTo(p, data);
      forall b: nat
        ensures b in WrittenOut(l, threshold, data, committable).ends <==> CompleteAt(r, b)
      {
        AppendingEnds(p, data, b);
        CompletingEnds(a, b);
      }
    }
  }

  lemma WriteArchived(s: Store, data: Entry, committable: bool)
    requires s.Ready()
    ensures var r := WroteEntry(s, data, committable).0; r.archivedIdx == s.archivedIdx && r.threshold == s.threshold
  {
  }

  // ----- Truncating and committing

  lemma TruncateLaid(s: Store, l: Layout, threshold: nat, op: Op)
    requires Sound(s) && Laid(s, l, threshold) && op.Truncate?
    ensures Laid(TruncatedAt(s, op.idx), LaidOut(l, threshold, op), threshold)
  {
    AppliedRefines(s, op);
    Bounds(s);
    hide Sound, CompleteAt, Store.Log;
    EndBounds(s);
    var r, u := TruncatedAt(s, op.idx), LaidOut(l, threshold, op);
    forall b: nat
      ensures b in u.ends <==> CompleteAt(r, b)
    {
      TruncateEnds(s, op.idx, b);
    }
  }

  lemma {:induction false} NoneCommittable(files: seq<Chunk>, idx: nat)
    ensures var m := Committable(files, idx);
      m < |files| ==> !files[m].completed || files[m].LastIdx() > idx
    decreases |files|
  {
    if files != [] && files[0].completed && files[0].LastIdx() <= idx {
      NoneCommittable(files[1..], idx);
    }
  }

  /** The chunks that stay end after the index, if they are complete at all. */
  lemma KeptEnd(files: seq<Chunk>, start: nat, end: nat, idx: nat, b: nat)
    requires Tiles(files, start, end) && OpenFiles(files) && EndsIn(files, b)
    requires files != [] ==> !files[0].completed || files[0].LastIdx() > idx
    ensures b > idx
  {
    var c, rest := files[0], files[1..];
    assert files == [c] + rest;
    EndsInFirst(c, rest, b);
    hide EndsIn;
    if !(c.completed && c.LastIdx() == b) {
      LaterEnds(rest, start + |c.entries|, end, b);
      assert rest != [] by {
        NoneLeft(rest, start + |c.entries|, end);
      }
    }
  }

  lemma NoEndsBetween(s: Store, idx: nat, b: nat)
    requires Sound(s) && s.committedIdx < idx <= s.lastIdx && CompleteAt(CommittedAt(s, idx), b)
    ensures b <= CommittedAt(s, idx).archivedIdx || b > idx
  {
    var r := CommittedAt(s, idx);
    CommitKeeps(s, idx);
    NoneCommittable(s.files, idx);
    EndsInParts(r, b);
    KeptFirst(s, idx);
    hide Committable, CommitAll, EndsIn, CompleteAt, LogOf, Tiles, OpenFiles;
    if EndsIn(r.archive, b) {
      LaterEnds(r.archive, r.base, r.archivedIdx, b);
    } else {
      KeptEnd(r.files, r.archivedIdx, r.lastIdx, idx, b);
    }
  }

  lemma KeptFirst(s: Store, idx: nat)
    requires s.committedIdx < idx <= s.lastIdx
    ensures var r, m := CommittedAt(s, idx), Committable(s.files, idx);
      r.files != [] ==> m < |s.files| && r.files[0] == s.files[m]
  {
    hide Committable, CommitAll;
  }

  lemma CommitLaid(s: Store, l: Layout, threshold: nat, op: Op)
    requires Sound(s) && Laid(s, l, threshold) && op.Commit?
    ensures Laid(CommittedAt(s, op.idx), LaidOut(l, threshold, op), threshold)
  {
    AppliedRefines(s, op);
    var r, u, idx := CommittedAt(s, op.idx), LaidOut(l, threshold, op), op.idx;
    CommitKeeps(s, idx);
    SameThreshold(s, idx);
    hide Sound, CompleteAt, Store.Log, CommittedAt, LastEnd;
    forall b: nat
      ensures b in l.ends <==> CompleteAt(r, b)
    {
      CommitEnds(s, idx, b);
    }
    if s.committedIdx < idx <= s.lastIdx {
      ArchiveEnds(r);
      Archives(r);
      forall b | b in l.ends && r.archivedIdx < b <= idx
        ensures false
      {
        NoEndsBetween(s, idx, b);
      }
      LastEndIs(l.ends, s.base, idx, r.archivedIdx);
    }
  }

  lemma SameThreshold(s: Store, idx: nat)
    ensures CommittedAt(s, idx).threshold == s.threshold
    ensures !(s.committedIdx < idx <= s.lastIdx) ==> CommittedAt(s, idx) == s
  {
  }

  lemma Archives(s: Store)
    requires Sound(s)
    ensures s.base <= s.archivedIdx <= s.committedIdx
  {
  }

  // ----- Over whole runs

  lemma {:induction false} RunLaid(s: Store, l: Layout, threshold: nat, ops: seq<Op>)
    requires Sound(s) && Laid(s, l, threshold)
    ensures Laid(Run(s, ops), LaidOutAll(l, threshold, ops), threshold)
    decreases |ops|
  {
    if ops != [] {
      var op := ops[0];
      AppliedKeeps(s, op);
      match op {
        case Write(data, committable) => WriteLaid(s, l, threshold, data, committable);
        case Truncate(_) => TruncateLaid(s, l, threshold, op);
        case Commit(_) => CommitLaid(s, l, threshold, op);
      }
      hide Sound, Laid, Applied, LaidOut;
      RunLaid(Applied(s, op), LaidOut(l, threshold, op), threshold, ops[1..]);
    }
  }

  /**
  After any run from an empty ledger, complete chunks end at exactly the indices that the flags and sizes of the
  entries say; the committed files reach as far as the last of them that a commit has come to.
  */
  lemma LayoutExact(base: nat, threshold: nat, ops: seq<Op>)
    ensures Sound(Empty(base, threshold))
    ensures var s := Run(Empty(base, threshold), ops);
      var l := LaidOutAll(Layout(Plain([], base, base), {}, base), threshold, ops);
      && s.archivedIdx == l.archivedIdx
      && forall b: nat :: b in l.ends <==> CompleteAt(s, b)
  {
    EmptySound(base, threshold);
    RunLaid(Empty(base, threshold), Layout(Plain([], base, base), {}, base), threshold, ops);
  }
}
