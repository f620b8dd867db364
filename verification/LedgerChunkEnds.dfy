/**
Which entries chunks end with.  Writing refuses to end a chunk after an entry that is not committable, but an
entry that begins a chunk ends the one before it whatever that ends with.
*/
module LedgerChunkEnds {
  import opened LedgerChunks
  import opened LedgerTiles
  import opened LedgerStore
  import opened LedgerRanges
  import opened LedgerRuns

  /** A complete chunk, open or committed, ends with this entry. */
  ghost predicate CompleteAt(s: Store, b: nat) {
    exists c :: c in Chunks(s) && c.completed && c.LastIdx() == b
  }

  ghost predicate EndsIn(chunks: seq<Chunk>, b: nat) {
    exists c :: c in chunks && c.completed && c.LastIdx() == b
  }

  lemma EndsInParts(s: Store, b: nat)
    ensures CompleteAt(s, b) <==> EndsIn(s.archive, b) || EndsIn(s.files, b)
  {
  }

  // ----- Writing

  lemma EndsInLast(chunks: seq<Chunk>, c: Chunk, b: nat)
    ensures EndsIn(chunks + [c], b) <==> EndsIn(chunks, b) || (c.completed && c.LastIdx() == b)
  {
    assert c in chunks + [c];
    assert forall d <- chunks :: d in chunks + [c];
  }

  lemma CompletingEnds(s: Store, b: nat)
    requires Sound(s) && s.files != []
    ensures CompleteAt(CompletedLatest(s), b) <==> CompleteAt(s, b) || b == s.lastIdx
  {
    hide Tiles, LogOf, EndsIn, CompleteAt, OpenFiles, Archived, Legible;
    var n, r := |s.files| - 1, CompletedLatest(s);
    LatestPlace(s.files, s.archivedIdx, s.lastIdx);
    assert r.files == s.files[..n] + [Completed(s.Latest())];
    EndsInLast(s.files[..n], s.Latest(), b);
    EndsInLast(s.files[..n], Completed(s.Latest()), b);
    EndsInParts(s, b);
    EndsInParts(r, b);
  }

  lemma AppendingEnds(s: Store, data: Entry, b: nat)
    requires Sound(s)
    ensures s.Ready() && (CompleteAt(AppendedTo(s, data), b) <==> CompleteAt(s, b))
  {
    hide Tiles, LogOf, EndsIn, CompleteAt, OpenFiles, Archived, Legible;
    var n, r := |s.files| - 1, AppendedTo(s, data);
    EndsInParts(s, b);
    EndsInParts(r, b);
    if s.requireNewFile {
      EndsInLast(s.files, Chunk(s.lastIdx + 1, [data], false, false), b);
    } else {
      assert s.files == s.files[..n] + [s.Latest()];
      EndsInLast(s.files[..n], s.Latest(), b);
      EndsInLast(s.files[..n], Written(s.Latest(), data), b);
    }
  }

  /** If no chunk is open, a complete one ends the log. */
  lemma CompleteAtEnd(s: Store)
    requires Sound(s) && s.requireNewFile && s.lastIdx > s.base
    ensures CompleteAt(s, s.lastIdx)
  {
    hide Tiles, LogOf, Legible;
    if s.files != [] {
      LatestPlace(s.files, s.archivedIdx, s.lastIdx);
      assert s.Latest() in Chunks(s);
    } else {
      NoneLeft(s.files, s.archivedIdx, s.lastIdx);
      NoneLeft(s.archive, s.base, s.archivedIdx);
      LatestPlace(s.archive, s.base, s.archivedIdx);
      assert s.archive[|s.archive| - 1] in Chunks(s);
    }
  }

  lemma NoneLeft(chunks: seq<Chunk>, start: nat, end: nat)
    requires Tiles(chunks, start, end)
    ensures chunks == [] <==> start == end
  {
    TilesLength(chunks, start, end);
  }

  /** The entry asks for a new chunk. */
  predicate AsksForChunk(data: Entry) {
    |data| >= ENTRY_HEADER_SIZE && ChunkBefore(data)
  }

  /** A write completes chunks at the end of the log if the entry asks for a chunk, even if it is refused, and
      after the entry if the entry ends one. */
  lemma WriteEnds(s: Store, data: Entry, committable: bool, b: nat)
    requires Sound(s)
    ensures s.Ready()
    ensures var (r, idx) := WroteEntry(s, data, committable);
      CompleteAt(r, b) <==>
        || CompleteAt(s, b)
        || (AsksForChunk(data) && s.lastIdx > s.base && b == s.lastIdx)
        || (idx.Some? && r.requireNewFile && b == r.lastIdx)
  {
    SoundReady(s);
    LogBounds(s);
    if |data| >= ENTRY_HEADER_SIZE {
      var s1 := if ChunkBefore(data) && s.files != [] then CompletedLatest(s) else s;
      if s.files != [] {
        CompletedKeeps(s);
        CompletingEnds(s, b);
      } else if s.lastIdx > s.base {
        CompleteAtEnd(s);
      }
      hide Sound, CompleteAt, Store.Log;
      if !ChunkAfter(data) || committable {
        AppendedKeeps(s1, data);
        AppendingEnds(s1, data, b);
        CompletingEnds(AppendedTo(s1, data), b);
      }
    }
  }

  lemma LogBounds(s: Store)
    requires Sound(s)
    ensures s.base <= s.archivedIdx <= s.lastIdx && (s.files != [] ==> s.base < s.lastIdx)
    ensures s.files == [] ==> s.requireNewFile
  {
    hide LogOf;
    NoneLeft(s.files, s.archivedIdx, s.lastIdx);
  }

  // ----- Truncating and committing

  lemma {:induction false} CutEnds(files: seq<Chunk>, start: nat, end: nat, idx: nat, b: nat)
    requires Tiles(files, start, end) && start <= idx < end
    requires forall i :: 0 <= i < |files| ==> !files[i].committed
    ensures EndsIn(Cut(files, idx), b) <==> EndsIn(files, b) && b <= idx
    decreases |files|
  {
    var c, rest := files[0], files[1..];
    assert files == [c] + rest;
    EndsInFirst(c, rest, b);
    if c.LastIdx() <= idx {
      CutEnds(rest, start + |c.entries|, end, idx, b);
      EndsInFirst(c, Cut(rest, idx), b);
    } else {
      if EndsIn(rest, b) {
        LaterEnds(rest, start + |c.entries|, end, b);
      }
      var cut := Truncated(c, idx).0;
      EndsInFirst(cut, [], b);
    }
  }

  lemma EndsInFirst(c: Chunk, chunks: seq<Chunk>, b: nat)
    ensures EndsIn([c] + chunks, b) <==> (c.completed && c.LastIdx() == b) || EndsIn(chunks, b)
  {
    assert c in [c] + chunks;
    assert forall d <- chunks :: d in [c] + chunks;
  }

  lemma LaterEnds(chunks: seq<Chunk>, start: nat, end: nat, b: nat)
    requires Tiles(chunks, start, end) && EndsIn(chunks, b)
    ensures start < b <= end
  {
    hide Tiles, LogOf;
    var c :| c in chunks && c.completed && c.LastIdx() == b;
    var k :| 0 <= k < |chunks| && chunks[k] == c;
    ChunkPlace(chunks, start, end, k);
  }

  /** Truncating keeps the ends up to the index it cuts at. */
  lemma TruncateEnds(s: Store, idx: nat, b: nat)
    requires Sound(s)
    ensures CompleteAt(TruncatedAt(s, idx), b) <==>
      CompleteAt(s, b) && (s.committedIdx <= idx < s.lastIdx ==> b <= idx)
  {
    if s.committedIdx <= idx < s.lastIdx {
      EndsInParts(s, b);
      EndsInParts(TruncatedAt(s, idx), b);
      CutEnds(s.files, s.archivedIdx, s.lastIdx, idx, b);
      hide EndsIn, CompleteAt, Tiles;
      if EndsIn(s.archive, b) {
        LaterEnds(s.archive, s.base, s.archivedIdx, b);
      }
    }
  }

  lemma {:induction false} CommitAllEnds(chunks: seq<Chunk>, b: nat)
    ensures EndsIn(CommitAll(chunks), b) <==> EndsIn(chunks, b)
    decreases |chunks|
  {
    if chunks != [] {
      hide EndsIn;
      var c := chunks[0];
      assert chunks == [c] + chunks[1..];
      CommitAllEnds(chunks[1..], b);
      EndsInFirst(c, chunks[1..], b);
      EndsInFirst(c.(committed := true), CommitAll(chunks[1..]), b);
    }
  }

  lemma EndsInConcat(a: seq<Chunk>, c: seq<Chunk>, b: nat)
    ensures EndsIn(a + c, b) <==> EndsIn(a, b) || EndsIn(c, b)
  {
    assert forall d <- a :: d in a + c;
    assert forall d <- c :: d in a + c;
  }

  /** Committing moves chunks and leaves their ends. */
  lemma CommitEnds(s: Store, idx: nat, b: nat)
    ensures CompleteAt(CommittedAt(s, idx), b) <==> CompleteAt(s, b)
  {
    if s.committedIdx < idx <= s.lastIdx {
      var m := Committable(s.files, idx);
      EndsInParts(s, b);
      EndsInParts(CommittedAt(s, idx), b);
      hide EndsIn, CompleteAt, Committable, CommitAll;
      assert s.files == s.files[..m] + s.files[m..];
      EndsInConcat(s.files[..m], s.files[m..], b);
      EndsInConcat(s.archive, CommitAll(s.files[..m]), b);
      CommitAllEnds(s.files[..m], b);
    }
  }

  // ----- Committability of the entries, and the ends it makes bad

  /** The plain log, which of its entries are committable, and the indices at which a chunk was made to end
      although its last entry is not.  Chunks do not occur in it. */
  datatype Trail = Trail(plain: Plain, marks: seq<bool>, bad: set<nat>) {
    predicate LastUncommittable() {
      marks != [] && !marks[|marks| - 1]
    }
  }

  /** The operation asks for a new chunk when the last entry is not committable. */
  predicate Offends(t: Trail, op: Op) {
    op.Write? && AsksForChunk(op.data) && t.LastUncommittable()
  }

  function Traced(t: Trail, op: Op): Trail {
    var plain := PlainApplied(t.plain, op);
    match op
    case Write(data, committable) =>
      Trail(plain,
            if |plain.log| > |t.plain.log| then t.marks + [committable] else t.marks,
            if Offends(t, op) then t.bad + {t.plain.base + |t.marks|} else t.bad)
    case Truncate(idx) =>
      if |plain.log| < |t.plain.log| && |plain.log| <= |t.marks|
      then Trail(plain, t.marks[..|plain.log|], set b <- t.bad | b <= idx)
      else t.(plain := plain)
    case Commit(_) => t.(plain := plain)
  }

  function TracedAll(t: Trail, ops: seq<Op>): Trail
    decreases |ops|
  {
    if ops == [] then t else TracedAll(Traced(t, ops[0]), ops[1..])
  }

  /** The entry at an index of the log is not committable. */
  predicate Uncommittable(t: Trail, b: nat) {
    t.plain.base < b <= t.plain.base + |t.marks| && !t.marks[b - t.plain.base - 1]
  }

  /** The bad ends are exactly the ends of complete chunks with entries that are not committable. */
  ghost predicate Exact(s: Store, t: Trail) {
    && t.plain == Abstract(s) && |t.marks| == |t.plain.log|
    && forall b: nat :: b in t.bad <==> CompleteAt(s, b) && Uncommittable(t, b)
  }

  /** What a write does to the length of the log, and that a chunk that ends with its entry ends committable. */
  lemma WriteSteps(s: Store, data: Entry, committable: bool)
    requires Sound(s)
    ensures s.Ready()
    ensures var (r, idx) := WroteEntry(s, data, committable);
      && Sound(r) && s.base == r.base <= s.lastIdx && |s.Log()| == s.lastIdx - s.base
      && (if idx.Some? then r.lastIdx == s.lastIdx + 1 else r.lastIdx == s.lastIdx)
      && (idx.Some? && r.requireNewFile ==> committable)
      && (idx.None? <==> |data| < ENTRY_HEADER_SIZE || (ChunkAfter(data) && !committable))
  {
    SoundReady(s);
    LogLength(s);
    Bounds(s);
    WriteKeeps(s, data, committable);
    if |data| >= ENTRY_HEADER_SIZE && (ChunkAfter(data) ==> committable) {
      WriteChunks(s, data, committable);
      RequiredIff(WroteEntry(s, data, committable).0);
    }
  }

  /** The same step on the trail alone: `was` and `now` say whether a complete chunk ends at `b`. */
  lemma TracedWrite(t: Trail, op: Op, b: nat, was: bool, now: bool, full: bool)
    requires op.Write? && |t.marks| == |t.plain.log|
    requires b in t.bad <==> was && Uncommittable(t, b)
    requires was ==> b <= t.plain.LastIdx()
    requires full ==> op.committable && |PlainApplied(t.plain, op).log| > |t.plain.log|
    requires now <==>
      || was
      || (AsksForChunk(op.data) && t.plain.log != [] && b == t.plain.LastIdx())
      || (full && b == t.plain.LastIdx() + 1)
    ensures b in Traced(t, op).bad <==> now && Uncommittable(Traced(t, op), b)
  {
    hide AsksForChunk, ChunkAfter;
  }

  lemma WriteExactAt(s: Store, t: Trail, op: Op, b: nat)
    requires Sound(s) && Exact(s, t) && op.Write?
    ensures s.Ready()
    ensures b in Traced(t, op).bad <==> CompleteAt(Applied(s, op), b) && Uncommittable(Traced(t, op), b)
  {
    EndBounds(s);
    WriteSteps(s, op.data, op.committable);
    WriteEnds(s, op.data, op.committable, b);
    hide Sound, CompleteAt, WroteEntry, Store.Log, AsksForChunk, ChunkAfter, Traced, Uncommittable;
    var (r, idx) := WroteEntry(s, op.data, op.committable);
    TracedWrite(t, op, b, CompleteAt(s, b), CompleteAt(r, b), idx.Some? && r.requireNewFile);
  }

  lemma WriteExact(s: Store, t: Trail, op: Op)
    requires Sound(s) && Exact(s, t) && op.Write?
    ensures s.Ready() && Exact(Applied(s, op), Traced(t, op))
  {
    AppliedRefines(s, op);
    var r, u := Applied(s, op), Traced(t, op);
    hide Sound, CompleteAt, WroteEntry, Store.Log, AsksForChunk, Uncommittable;
    forall b: nat
      ensures b in u.bad <==> CompleteAt(r, b) && Uncommittable(u, b)
    {
      WriteExactAt(s, t, op, b);
    }
  }

  lemma RequiredIff(s: Store)
    requires Sound(s)
    ensures s.files != [] ==> (s.requireNewFile <==> s.Latest().completed)
  {
  }

  lemma EndBounds(s: Store)
    requires Sound(s)
    ensures forall b: nat :: CompleteAt(s, b) ==> s.base < b <= s.lastIdx
  {
    ChunksTile(s);
    hide Sound, Tiles;
    forall b: nat | CompleteAt(s, b)
      ensures s.base < b <= s.lastIdx
    {
      LaterEnds(Chunks(s), s.base, s.lastIdx, b);
    }
  }

  lemma TracedTruncate(t: Trail, op: Op, b: nat, was: bool, now: bool)
    requires op.Truncate? && |t.marks| == |t.plain.log| && t.plain.base <= t.plain.committedIdx
    requires b in t.bad <==> was && Uncommittable(t, b)
    requires now <==> was && (t.plain.committedIdx <= op.idx < t.plain.LastIdx() ==> b <= op.idx)
    ensures b in Traced(t, op).bad <==> now && Uncommittable(Traced(t, op), b)
  {
  }

  lemma TruncateExact(s: Store, t: Trail, op: Op)
    requires Sound(s) && Exact(s, t) && op.Truncate?
    ensures s.Ready() && Exact(Applied(s, op), Traced(t, op))
  {
    AppliedRefines(s, op);
    Bounds(s);
    var r, u := Applied(s, op), Traced(t, op);
    assert |u.marks| == |u.plain.log|;
    hide Sound, CompleteAt, Store.Log, TruncatedAt, Traced, PlainApplied, Uncommittable;
    forall b: nat
      ensures b in u.bad <==> CompleteAt(r, b) && Uncommittable(u, b)
    {
      TruncateEnds(s, op.idx, b);
      TracedTruncate(t, op, b, CompleteAt(s, b), CompleteAt(r, b));
    }
  }

  lemma CommitExact(s: Store, t: Trail, op: Op)
    requires Sound(s) && Exact(s, t) && op.Commit?
    ensures s.Ready() && Exact(Applied(s, op), Traced(t, op))
  {
    AppliedRefines(s, op);
    var r, u := Applied(s, op), Traced(t, op);
    hide Sound, CompleteAt, Store.Log, CommittedAt;
    forall b: nat
      ensures b in u.bad <==> CompleteAt(r, b) && Uncommittable(u, b)
    {
      CommitEnds(s, op.idx, b);
    }
  }

  // ----- Over whole runs

  /**
  A write leaves a chunk that ends with an entry that is not committable, and did not before, if and only if it
  asks for a chunk while the latest chunk is open and its last entry is not committable.  Whether the write then
  succeeds does not matter.
  */
  lemma NewBadEnd(s: Store, t: Trail, op: Op)
    requires Sound(s) && Exact(s, t) && op.Write?
    ensures s.Ready()
    ensures (exists b: nat :: CompleteAt(Applied(s, op), b) && Uncommittable(Traced(t, op), b) && !CompleteAt(s, b))
      <==> AsksForChunk(op.data) && !s.requireNewFile && t.LastUncommittable()
  {
    WriteExact(s, t, op);
    AppliedRefines(s, op);
    LogBounds(s);
    var r, u, n := Applied(s, op), Traced(t, op), s.lastIdx;
    if exists b: nat :: CompleteAt(r, b) && Uncommittable(u, b) && !CompleteAt(s, b) {
      var b: nat :| CompleteAt(r, b) && Uncommittable(u, b) && !CompleteAt(s, b);
      assert b in u.bad && b !in t.bad;
      if s.requireNewFile && n > s.base {
        CompleteAtEnd(s);
      }
    }
    if AsksForChunk(op.data) && !s.requireNewFile && t.LastUncommittable() {
      OpenEnd(s);
      assert n in u.bad;
      assert CompleteAt(r, n) && Uncommittable(u, n) && !CompleteAt(s, n);
    }
  }

  /** While the latest chunk is open no complete one ends the log. */
  lemma OpenEnd(s: Store)
    requires Sound(s) && !s.requireNewFile
    ensures !CompleteAt(s, s.lastIdx)
  {
    if CompleteAt(s, s.lastIdx) {
      var n := |s.files| - 1;
      LatestPlace(s.files, s.archivedIdx, s.lastIdx);
      EndsInParts(s, s.lastIdx);
      assert s.files == s.files[..n] + [s.Latest()];
      EndsInLast(s.files[..n], s.Latest(), s.lastIdx);
      hide EndsIn, LogOf;
      if EndsIn(s.archive, s.lastIdx) {
        LaterEnds(s.archive, s.base, s.archivedIdx, s.lastIdx);
      } else {
        LaterEnds(s.files[..n], s.archivedIdx, s.Latest().startIdx - 1, s.lastIdx);
      }
      assert false;
    }
  }

  lemma {:induction false} RunExact(s: Store, t: Trail, ops: seq<Op>)
    requires Sound(s) && Exact(s, t)
    ensures Exact(Run(s, ops), TracedAll(t, ops))
    decreases |ops|
  {
    if ops != [] {
      var op := ops[0];
      AppliedKeeps(s, op);
      match op {
        case Write(_, _) => WriteExact(s, t, op);
        case Truncate(_) => TruncateExact(s, t, op);
        case Commit(_) => CommitExact(s, t, op);
      }
      hide Sound, Exact, Applied, Traced;
      RunExact(Applied(s, op), Traced(t, op), ops[1..]);
    }
  }

  function Fresh(base: nat): Trail {
    Trail(Plain([], base, base), [], {})
  }

  /**
  After any run from an empty ledger, the complete chunks that end with an entry that is not committable are
  exactly those that some write, asking for a new chunk, ended when the last entry was not committable, and that
  no truncation has removed since.
  */
  lemma BadEndsExactly(base: nat, threshold: nat, ops: seq<Op>)
    ensures Sound(Empty(base, threshold))
    ensures var s := Run(Empty(base, threshold), ops);
      var t := TracedAll(Fresh(base), ops);
      forall b: nat :: b in t.bad <==> CompleteAt(s, b) && Uncommittable(t, b)
  {
    EmptySound(base, threshold);
    RunExact(Empty(base, threshold), Fresh(base), ops);
  }

  /** No write of the run asks for a chunk when the last entry is not committable. */
  predicate Orderly(t: Trail, ops: seq<Op>)
    decreases |ops|
  {
    ops != [] ==> !Offends(t, ops[0]) && Orderly(Traced(t, ops[0]), ops[1..])
  }

  lemma {:induction false} OrderlyClean(t: Trail, ops: seq<Op>)
    requires t.bad == {} && Orderly(t, ops)
    ensures TracedAll(t, ops).bad == {}
    decreases |ops|
  {
    if ops != [] {
      OrderlyClean(Traced(t, ops[0]), ops[1..]);
    }
  }

  lemma {:induction false} OffenceMarks(t: Trail, ops: seq<Op>)
    requires !Orderly(t, ops)
    ensures exists n :: 0 <= n <= |ops| && TracedAll(t, ops[..n]).bad != {}
    decreases |ops|
  {
    var u := Traced(t, ops[0]);
    if Offends(t, ops[0]) {
      assert ops[..1] == [ops[0]];
      assert TracedAll(u, ops[..1][1..]) == u;
      assert TracedAll(t, ops[..1]).bad != {};
    } else {
      OffenceMarks(u, ops[1..]);
      var n :| 0 <= n <= |ops[1..]| && TracedAll(u, ops[1..][..n]).bad != {};
      assert ops[..n + 1][1..] == ops[1..][..n];
      assert TracedAll(t, ops[..n + 1]).bad != {};
    }
  }

  lemma OrderlyPrefix(t: Trail, ops: seq<Op>, n: nat)
    requires n <= |ops| && Orderly(t, ops)
    ensures Orderly(t, ops[..n])
    decreases |ops|
  {
    if n > 0 {
      OrderlyPrefix(Traced(t, ops[0]), ops[1..], n - 1);
      assert ops[..n][1..] == ops[1..][..n - 1];
    }
  }

  /** After the run some complete chunk ends with an entry that is not committable. */
  ghost predicate EndsBadly(base: nat, threshold: nat, ops: seq<Op>) {
    EmptySound(base, threshold);
    var t := TracedAll(Fresh(base), ops);
    exists b: nat :: CompleteAt(Run(Empty(base, threshold), ops), b) && Uncommittable(t, b)
  }

  lemma EndsBadlyIff(base: nat, threshold: nat, ops: seq<Op>)
    ensures EndsBadly(base, threshold, ops) <==> TracedAll(Fresh(base), ops).bad != {}
  {
    BadEndsExactly(base, threshold, ops);
    hide Run, TracedAll, CompleteAt, Uncommittable, Sound, Fresh;
    var t := TracedAll(Fresh(base), ops);
    if t.bad != {} {
      var b :| b in t.bad;
    }
  }

  /** Chunks end with committable entries all through a run if and only if no write asks for a new chunk when the
      last entry is not committable. */
  lemma ChunksEndCommittableIff(base: nat, threshold: nat, ops: seq<Op>)
    ensures (forall n :: 0 <= n <= |ops| ==> !EndsBadly(base, threshold, ops[..n])) <==> Orderly(Fresh(base), ops)
  {
    hide TracedAll, EndsBadly, Orderly;
    if Orderly(Fresh(base), ops) {
      forall n | 0 <= n <= |ops|
        ensures !EndsBadly(base, threshold, ops[..n])
      {
        OrderlyPrefix(Fresh(base), ops, n);
        OrderlyClean(Fresh(base), ops[..n]);
        EndsBadlyIff(base, threshold, ops[..n]);
      }
    } else {
      OffenceMarks(Fresh(base), ops);
      var n :| 0 <= n <= |ops| && TracedAll(Fresh(base), ops[..n]).bad != {};
      EndsBadlyIff(base, threshold, ops[..n]);
    }
  }
}
