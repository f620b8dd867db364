/**
The host ledger as a value: a log kept in chunk files.  The newest chunk is open for writing, those before
it are complete, and chunks whose entries are all committed move to the committed files.
*/
module LedgerStore {
  import opened Options
  import opened LedgerChunks
  import opened LedgerTiles

  /** An entry's header: a version, flags, and the size of what follows in six bytes. */
  const ENTRY_HEADER_SIZE: nat := 8

  /** The entry must end its chunk. */
  predicate ChunkAfter(entry: Entry)
    requires |entry| >= ENTRY_HEADER_SIZE
  {
    entry[1] % 2 == 1
  }

  /** The entry must begin a chunk. */
  predicate ChunkBefore(entry: Entry)
    requires |entry| >= ENTRY_HEADER_SIZE
  {
    entry[1] / 2 % 2 == 1
  }

  /** The chunks open for writing, the committed files, and how far each reaches; the log starts after `base`. */
  datatype Store = Store(
    base: nat, threshold: nat, files: seq<Chunk>, lastIdx: nat, committedIdx: nat, archivedIdx: nat,
    requireNewFile: bool, archive: seq<Chunk>)
  {
    /** The log: entry `i` of the ledger is entry `i - base - 1` here. */
    function Log(): seq<Entry> {
      LogOf(archive) + LogOf(files)
    }

    function Latest(): Chunk
      requires files != []
    {
      files[|files| - 1]
    }

    /** There is an open chunk to write to, or it is known that one is needed. */
    predicate Ready() {
      files == [] ==> requireNewFile
    }
  }

  function Empty(base: nat, threshold: nat): Store {
    Store(base, threshold, [], base, base, base, true, [])
  }

  // ----- Operations

  function CompletedLatest(s: Store): (r: Store)
    requires s.files != []
    ensures r.Ready() && r.files != []
  {
    s.(files := s.files[|s.files| - 1 := Completed(s.Latest())], requireNewFile := true)
  }

  /** An entry is appended to the latest chunk, or to a new one if that is complete. */
  function AppendedTo(s: Store, data: Entry): (r: Store)
    requires s.Ready()
    ensures r.files != []
  {
    var c := if s.requireNewFile then Chunk(s.lastIdx + 1, [data], false, false) else Written(s.Latest(), data);
    var kept := if s.requireNewFile then s.files else s.files[..|s.files| - 1];
    s.(files := kept + [c], lastIdx := c.LastIdx(), requireNewFile := false)
  }

  /** `None` where the source throws: a short entry, or a chunk that would end in an entry that is not committable. */
  function WroteEntry(s: Store, data: Entry, committable: bool): (Store, Option<nat>)
    requires s.Ready()
  {
    if |data| < ENTRY_HEADER_SIZE then (s, None)
    else
      var s1 := if ChunkBefore(data) && s.files != [] then CompletedLatest(s) else s;
      if ChunkAfter(data) && !committable then (s1, None)
      else
        var s2 := AppendedTo(s1, data);
        var s3 :=
          if committable && (ChunkAfter(data) || s2.Latest().Size() >= s.threshold) then CompletedLatest(s2) else s2;
        (s3, Some(s3.lastIdx))
  }

  /** The chunks cut back to `idx`: later ones are deleted, the one that spans it is truncated. */
  function Cut(files: seq<Chunk>, idx: nat): seq<Chunk> {
    if files == [] then []
    else if files[0].LastIdx() <= idx then [files[0]] + Cut(files[1..], idx)
    else if idx < files[0].startIdx then []
    else [Truncated(files[0], idx).0]
  }

  /** Some chunk goes on past `idx`, having begun by then. */
  predicate Spans(files: seq<Chunk>, idx: nat) {
    files != [] && if files[0].LastIdx() <= idx then Spans(files[1..], idx) else idx >= files[0].startIdx
  }

  function TruncatedAt(s: Store, idx: nat): Store {
    if idx >= s.lastIdx || idx < s.committedIdx then s
    else s.(files := Cut(s.files, idx), lastIdx := idx, requireNewFile := !Spans(s.files, idx))
  }

  /** How many of the oldest chunks are complete and end by `idx`. */
  function Committable(files: seq<Chunk>, idx: nat): (m: nat)
    ensures m <= |files|
  {
    if files == [] || !files[0].completed || files[0].LastIdx() > idx then 0
    else 1 + Committable(files[1..], idx)
  }

  function CommitAll(chunks: seq<Chunk>): (r: seq<Chunk>)
    ensures |r| == |chunks|
  {
    if chunks == [] then [] else [chunks[0].(committed := true)] + CommitAll(chunks[1..])
  }

  function CommittedAt(s: Store, idx: nat): Store {
    if idx <= s.committedIdx || idx > s.lastIdx then s
    else
      var m := Committable(s.files, idx);
      s.(files := s.files[m..], archive := s.archive + CommitAll(s.files[..m]),
         archivedIdx := if m == 0 then s.archivedIdx else s.files[m - 1].LastIdx(), committedIdx := idx)
  }

  // ----- What every operation keeps

  /** The chunks open for writing: none is committed, and all but the latest are complete. */
  ghost predicate OpenFiles(files: seq<Chunk>) {
    && (forall i :: 0 <= i < |files| ==> !files[i].committed)
    && (forall i :: 0 <= i < |files| - 1 ==> files[i].completed)
  }

  ghost predicate Archived(archive: seq<Chunk>) {
    forall i :: 0 <= i < |archive| ==> archive[i].completed && archive[i].committed
  }

  ghost predicate Legible(log: seq<Entry>) {
    forall i :: 0 <= i < |log| ==> log[i] != []
  }

  /**
  The committed files tile the log up to their end and the open chunks tile the rest; all but the latest are
  complete; a new file is needed exactly when the latest is not open; and no open chunk ends before the
  commit index.
  */
  ghost predicate Sound(s: Store) {
    && Tiles(s.archive, s.base, s.archivedIdx)
    && Tiles(s.files, s.archivedIdx, s.lastIdx)
    && Archived(s.archive) && OpenFiles(s.files)
    && (s.requireNewFile <==> s.files == [] || s.Latest().completed)
    && s.base <= s.archivedIdx <= s.committedIdx <= s.lastIdx
    && (s.files != [] ==> s.committedIdx <= s.files[0].LastIdx())
    && Legible(s.Log())
  }

  lemma EmptySound(base: nat, threshold: nat)
    ensures Sound(Empty(base, threshold)) && Empty(base, threshold).Log() == []
  {
  }

  // ----- Writing

  lemma LatestPlace(files: seq<Chunk>, start: nat, end: nat)
    requires Tiles(files, start, end) && files != []
    ensures var n := |files| - 1;
      && files == files[..n] + [files[n]]
      && Tiles(files[..n], start, EndAt(files, start, n))
      && files[n].startIdx == EndAt(files, start, n) + 1 && files[n].LastIdx() == end && files[n].entries != []
      && LogOf(files) == LogOf(files[..n]) + files[n].entries
  {
    hide Tiles, LogOf;
    var n := |files| - 1;
    ChunkPlace(files, start, end, n);
    TilesSplit(files, start, end, n);
    assert files[..n + 1] == files;
    TilesLength(files, start, end);
    assert files == files[..n] + [files[n]];
    LogConcat(files[..n], [files[n]]);
    LogOne(files[n]);
  }

  /** Putting a chunk after others. */
  lemma ChunkAdded(a: seq<Chunk>, start: nat, mid: nat, c: Chunk)
    requires Tiles(a, start, mid) && c.startIdx == mid + 1 && c.entries != []
    ensures Tiles(a + [c], start, c.LastIdx()) && LogOf(a + [c]) == LogOf(a) + c.entries
  {
    TilesSingle(c, mid);
    hide Tiles, LogOf;
    TilesConcat(a, [c], start, mid, c.LastIdx());
    LogConcat(a, [c]);
    LogOne(c);
  }

  lemma TilesSingle(c: Chunk, start: nat)
    requires c.startIdx == start + 1 && c.entries != []
    ensures Tiles([c], start, c.LastIdx())
  {
    assert [c][1..] == [];
  }

  lemma CompletedKeeps(s: Store)
    requires Sound(s) && s.files != []
    ensures Sound(CompletedLatest(s)) && CompletedLatest(s).Log() == s.Log()
  {
    hide Tiles, LogOf, Legible, Archived;
    var n, c := |s.files| - 1, Completed(s.Latest());
    LatestPlace(s.files, s.archivedIdx, s.lastIdx);
    ChunkAdded(s.files[..n], s.archivedIdx, EndAt(s.files, s.archivedIdx, n), c);
    assert s.files[n := c] == s.files[..n] + [c];
  }

  lemma AppendedTiles(s: Store, data: Entry)
    requires Sound(s)
    ensures var r := AppendedTo(s, data);
      && Tiles(r.files, s.archivedIdx, r.lastIdx) && r.lastIdx == s.lastIdx + 1
      && LogOf(r.files) == LogOf(s.files) + [data]
  {
    hide Tiles, LogOf, Legible, Archived, OpenFiles;
    if s.requireNewFile {
      ChunkAdded(s.files, s.archivedIdx, s.lastIdx, Chunk(s.lastIdx + 1, [data], false, false));
    } else {
      var n, c := |s.files| - 1, Written(s.Latest(), data);
      LatestPlace(s.files, s.archivedIdx, s.lastIdx);
      ChunkAdded(s.files[..n], s.archivedIdx, EndAt(s.files, s.archivedIdx, n), c);
      var a := LogOf(s.files[..n]);
      assert a + (s.Latest().entries + [data]) == a + s.Latest().entries + [data];
    }
  }

  lemma AppendedShape(s: Store, data: Entry)
    requires Sound(s)
    ensures var r := AppendedTo(s, data);
      && OpenFiles(r.files) && !r.Latest().completed
      && (s.files != [] ==> s.files[0].LastIdx() <= r.files[0].LastIdx())
      && (s.files == [] ==> r.files[0].LastIdx() == s.lastIdx + 1)
  {
    hide Tiles, LogOf, Legible, Archived;
  }

  lemma AppendedKeeps(s: Store, data: Entry)
    requires Sound(s) && data != []
    ensures s.Ready() && Sound(AppendedTo(s, data)) && AppendedTo(s, data).Log() == s.Log() + [data]
  {
    AppendedTiles(s, data);
    AppendedShape(s, data);
    hide Tiles, LogOf, Archived, OpenFiles;
    var a := LogOf(s.archive);
    assert a + (LogOf(s.files) + [data]) == a + LogOf(s.files) + [data];
  }

  /** Writing appends the entry to the log, or leaves the log alone. */
  lemma WriteKeeps(s: Store, data: Entry, committable: bool)
    requires Sound(s)
    ensures s.Ready()
    ensures var (r, idx) := WroteEntry(s, data, committable);
      && Sound(r) && r.committedIdx == s.committedIdx && r.archive == s.archive && r.base == s.base
      && (idx.None? <==> |data| < ENTRY_HEADER_SIZE || (ChunkAfter(data) && !committable))
      && (idx.None? ==> r.Log() == s.Log() && r.lastIdx == s.lastIdx)
      && (idx.Some? ==> idx.value == r.lastIdx == s.lastIdx + 1 && r.Log() == s.Log() + [data])
  {
    if |data| >= ENTRY_HEADER_SIZE {
      var s1 := if ChunkBefore(data) && s.files != [] then CompletedLatest(s) else s;
      if s.files != [] {
        CompletedKeeps(s);
      }
      hide Sound, AppendedTo, Store.Log;
      if !ChunkAfter(data) || committable {
        AppendedKeeps(s1, data);
        AppendedFields(s1, data);
        CompletedKeeps(AppendedTo(s1, data));
      }
    }
  }

  lemma AppendedFields(s: Store, data: Entry)
    requires Sound(s)
    ensures var r := AppendedTo(s, data);
      r.lastIdx == s.lastIdx + 1 && r.committedIdx == s.committedIdx && r.archive == s.archive && r.base == s.base
  {
    hide Tiles, LogOf, Legible, Archived, OpenFiles;
    AppendedTiles(s, data);
  }

  /**
  Where chunks begin and end: an entry begins a chunk exactly if the latest is complete or the entry asks for
  it, and ends one exactly if it is committable and asks for it or makes the chunk reach the threshold.
  */
  lemma WriteChunks(s: Store, data: Entry, committable: bool)
    requires Sound(s) && |data| >= ENTRY_HEADER_SIZE && (ChunkAfter(data) ==> committable)
    ensures s.Ready()
    ensures var r := WroteEntry(s, data, committable).0;
      && r.files != []
      && (r.Latest().entries == [data] <==> s.requireNewFile || ChunkBefore(data))
      && (r.Latest().completed <==> committable && (ChunkAfter(data) || r.Latest().Size() >= s.threshold))
  {
    SoundReady(s);
    if s.files != [] {
      LatestNotEmpty(s);
    }
    hide Sound, Tiles, LogOf;
  }

  lemma SoundReady(s: Store)
    requires Sound(s)
    ensures s.Ready()
  {
  }

  lemma LatestNotEmpty(s: Store)
    requires Sound(s) && s.files != []
    ensures s.Latest().entries != []
  {
    hide LogOf;
    LatestPlace(s.files, s.archivedIdx, s.lastIdx);
  }

  /** An entry that begins a chunk completes the one before it even if that ends in an entry that is not committable. */
  lemma ChunkEndsUncommittable(base: nat, threshold: nat, first: Entry, second: Entry)
    requires |first| >= ENTRY_HEADER_SIZE && !ChunkAfter(first)
    requires |second| >= ENTRY_HEADER_SIZE && ChunkBefore(second) && !ChunkAfter(second)
    ensures var s := WroteEntry(Empty(base, threshold), first, false).0;
      && s.Ready()
      && WroteEntry(s, second, false).0.files ==
        [Chunk(base + 1, [first], true, false), Chunk(base + 2, [second], false, false)]
  {
  }

  // ----- Truncating

  lemma OpenRest(files: seq<Chunk>)
    requires OpenFiles(files)
    ensures files != [] ==> OpenFiles(files[1..])
  {
    if files != [] {
      var rest := files[1..];
      assert forall i :: 0 <= i < |rest| ==> rest[i] == files[i + 1];
    }
  }

  lemma {:induction false} CutTiles(files: seq<Chunk>, start: nat, end: nat, idx: nat)
    requires Tiles(files, start, end) && OpenFiles(files) && start <= idx < end
    ensures Tiles(Cut(files, idx), start, idx) && LogOf(Cut(files, idx)) <= LogOf(files)
    decreases |files|
  {
    if files != [] {
      var c, rest := files[0], files[1..];
      OpenRest(files);
      if c.LastIdx() <= idx {
        CutTiles(rest, start + |c.entries|, end, idx);
        assert ([c] + Cut(rest, idx))[1..] == Cut(rest, idx);
      } else if idx >= c.startIdx {
        var cut := Truncated(c, idx).0;
        assert [cut][1..] == [];
        assert cut.entries + [] == cut.entries;
        assert c.entries == cut.entries + c.entries[idx - c.startIdx + 1..];
      }
    }
  }

  lemma {:induction false} CutShape(files: seq<Chunk>, start: nat, end: nat, idx: nat)
    requires Tiles(files, start, end) && OpenFiles(files) && start <= idx < end
    ensures OpenFiles(Cut(files, idx))
    ensures Spans(files, idx) <==> Cut(files, idx) != [] && !Cut(files, idx)[|Cut(files, idx)| - 1].completed
    ensures Cut(files, idx) != [] ==>
      files != [] && (Cut(files, idx)[0].LastIdx() == idx || Cut(files, idx)[0] == files[0])
    decreases |files|
  {
    if files != [] {
      var c, rest := files[0], files[1..];
      OpenRest(files);
      if c.LastIdx() <= idx {
        MoreFollow(files, start, end, idx);
        CutShape(rest, start + |c.entries|, end, idx);
        assert c.completed;
        OpenPrepended(c, Cut(rest, idx));
      }
    }
  }

  lemma MoreFollow(files: seq<Chunk>, start: nat, end: nat, idx: nat)
    requires Tiles(files, start, end) && files != [] && idx < end && files[0].LastIdx() <= idx
    ensures |files| > 1
  {
  }

  lemma OpenPrepended(c: Chunk, rest: seq<Chunk>)
    requires !c.committed && c.completed && OpenFiles(rest)
    ensures OpenFiles([c] + rest)
  {
  }

  lemma LegiblePrefix(a: seq<Entry>, b: seq<Entry>)
    requires Legible(b) && a <= b
    ensures Legible(a)
  {
  }

  lemma LogLength(s: Store)
    requires Sound(s)
    ensures |LogOf(s.archive)| == s.archivedIdx - s.base && |s.Log()| == s.lastIdx - s.base
  {
    hide Tiles, LogOf, OpenFiles, Archived, Legible;
    TilesLength(s.archive, s.base, s.archivedIdx);
    TilesLength(s.files, s.archivedIdx, s.lastIdx);
  }

  lemma CutLog(s: Store, idx: nat)
    requires Sound(s) && s.committedIdx <= idx < s.lastIdx
    ensures |s.Log()| == s.lastIdx - s.base
    ensures Tiles(Cut(s.files, idx), s.archivedIdx, idx)
    ensures LogOf(s.archive) + LogOf(Cut(s.files, idx)) == s.Log()[..idx - s.base]
  {
    hide Tiles, LogOf, OpenFiles, Archived, Legible, Cut;
    LogLength(s);
    CutTiles(s.files, s.archivedIdx, s.lastIdx, idx);
    TilesLength(Cut(s.files, idx), s.archivedIdx, idx);
    PrefixTaken(LogOf(s.archive), LogOf(Cut(s.files, idx)), LogOf(s.files), idx - s.base);
  }

  lemma PrefixTaken(a: seq<Entry>, b: seq<Entry>, c: seq<Entry>, n: nat)
    requires b <= c && |a| + |b| == n
    ensures a + b == (a + c)[..n]
  {
  }

  /** Truncating cuts the log back to the index, and only to one at or after the commit index. */
  lemma TruncateKeeps(s: Store, idx: nat)
    requires Sound(s)
    ensures |s.Log()| == s.lastIdx - s.base
    ensures var r := TruncatedAt(s, idx);
      && Sound(r) && r.committedIdx == s.committedIdx && r.archive == s.archive && r.base == s.base
      && r.Log() == (if s.committedIdx <= idx < s.lastIdx then s.Log()[..idx - s.base] else s.Log())
  {
    hide Tiles, LogOf, OpenFiles, Archived, Legible, Cut, Spans;
    LogLength(s);
    if s.committedIdx <= idx < s.lastIdx {
      CutLog(s, idx);
      CutShape(s.files, s.archivedIdx, s.lastIdx, idx);
      LegiblePrefix(s.Log()[..idx - s.base], s.Log());
    }
  }

  // ----- Committing

  lemma {:induction false} CommitAllTiles(chunks: seq<Chunk>, start: nat, end: nat)
    requires Tiles(chunks, start, end)
    ensures Tiles(CommitAll(chunks), start, end) && LogOf(CommitAll(chunks)) == LogOf(chunks)
    decreases |chunks|
  {
    if chunks != [] {
      CommitAllTiles(chunks[1..], start + |chunks[0].entries|, end);
      assert CommitAll(chunks)[1..] == CommitAll(chunks[1..]);
    }
  }

  lemma {:induction false} CommittableShape(files: seq<Chunk>, idx: nat)
    ensures forall i :: 0 <= i < Committable(files, idx) ==> files[i].completed && files[i].LastIdx() <= idx
    ensures Committable(files, idx) < |files| ==>
      !files[Committable(files, idx)].completed || files[Committable(files, idx)].LastIdx() > idx
  {
    if files != [] && files[0].completed && files[0].LastIdx() <= idx {
      CommittableShape(files[1..], idx);
      assert forall i :: 0 < i <= Committable(files[1..], idx) ==> files[i] == files[1..][i - 1] || i >= |files|;
    }
  }

  lemma {:induction false} CommitAllArchived(chunks: seq<Chunk>)
    requires forall i :: 0 <= i < |chunks| ==> chunks[i].completed
    ensures Archived(CommitAll(chunks))
    decreases |chunks|
  {
    if chunks != [] {
      CommitAllArchived(chunks[1..]);
    }
  }

  lemma OpenSuffix(files: seq<Chunk>, m: nat)
    requires OpenFiles(files) && m <= |files|
    ensures OpenFiles(files[m..])
  {
    var rest := files[m..];
    assert forall i :: 0 <= i < |rest| ==> rest[i] == files[m + i];
  }

  lemma ArchivedIdxIs(s: Store, idx: nat)
    requires Sound(s) && s.committedIdx < idx <= s.lastIdx
    ensures CommittedAt(s, idx).archivedIdx == EndAt(s.files, s.archivedIdx, Committable(s.files, idx))
  {
    hide Tiles, LogOf, Legible, Archived, OpenFiles, Committable, CommitAll;
    var m := Committable(s.files, idx);
    if m > 0 {
      ChunkPlace(s.files, s.archivedIdx, s.lastIdx, m - 1);
    } else {
      NoChunks(s.files);
    }
  }

  /** The chunks that commit, and those that stay, each tile their part. */
  lemma CommittedTiles(s: Store, idx: nat)
    requires Sound(s) && s.committedIdx < idx <= s.lastIdx
    ensures var r := CommittedAt(s, idx);
      && Tiles(r.archive, s.base, r.archivedIdx) && Tiles(r.files, r.archivedIdx, s.lastIdx)
      && s.archivedIdx <= r.archivedIdx
  {
    hide Tiles, LogOf, Legible, Archived, OpenFiles, Committable, CommitAll;
    var m := Committable(s.files, idx);
    ArchivedIdxIs(s, idx);
    TilesSplit(s.files, s.archivedIdx, s.lastIdx, m);
    var mid := EndAt(s.files, s.archivedIdx, m);
    CommitAllTiles(s.files[..m], s.archivedIdx, mid);
    TilesConcat(s.archive, CommitAll(s.files[..m]), s.base, s.archivedIdx, mid);
  }

  lemma CommittedLog(s: Store, idx: nat)
    requires Sound(s) && s.committedIdx < idx <= s.lastIdx
    ensures CommittedAt(s, idx).Log() == s.Log()
  {
    hide Tiles, LogOf, Legible, Archived, OpenFiles, Committable, CommitAll;
    var m := Committable(s.files, idx);
    var moved, kept := s.files[..m], s.files[m..];
    TilesSplit(s.files, s.archivedIdx, s.lastIdx, m);
    CommitAllTiles(moved, s.archivedIdx, EndAt(s.files, s.archivedIdx, m));
    assert s.files == moved + kept;
    LogConcat(moved, kept);
    LogConcat(s.archive, CommitAll(moved));
    assert LogOf(s.archive) + (LogOf(moved) + LogOf(kept)) == LogOf(s.archive) + LogOf(moved) + LogOf(kept);
  }

  lemma NoChunks(files: seq<Chunk>)
    ensures LogOf(files[..0]) == []
  {
  }

  lemma CommittedShape(s: Store, idx: nat)
    requires Sound(s) && s.committedIdx < idx <= s.lastIdx
    ensures var r := CommittedAt(s, idx);
      && Archived(r.archive) && OpenFiles(r.files) && r.archivedIdx <= idx
      && (r.files != [] ==> r.files[0].LastIdx() >= idx)
      && (r.requireNewFile <==> r.files == [] || r.Latest().completed)
  {
    hide Tiles, LogOf, Legible, Committable, CommitAll;
    var m := Committable(s.files, idx);
    CommittableShape(s.files, idx);
    CommitAllArchived(s.files[..m]);
    OpenSuffix(s.files, m);
    if m < |s.files| && !s.files[m].completed {
      LatestPlace(s.files, s.archivedIdx, s.lastIdx);
    }
    hide OpenFiles, Archived;
    ArchivedConcat(s.archive, CommitAll(s.files[..m]));
  }

  lemma ArchivedConcat(a: seq<Chunk>, b: seq<Chunk>)
    requires Archived(a) && Archived(b)
    ensures Archived(a + b)
  {
  }

  /** Committing moves whole chunks to the committed files and changes no entry. */
  lemma CommitKeeps(s: Store, idx: nat)
    requires Sound(s)
    ensures var r := CommittedAt(s, idx);
      && Sound(r) && r.Log() == s.Log() && r.lastIdx == s.lastIdx && r.base == s.base
      && r.committedIdx == (if s.committedIdx < idx <= s.lastIdx then idx else s.committedIdx)
      && s.archive <= r.archive
  {
    if s.committedIdx < idx <= s.lastIdx {
      CommittedTiles(s, idx);
      CommittedLog(s, idx);
      CommittedShape(s, idx);
      hide Tiles, LogOf, Archived, OpenFiles, Committable, CommitAll;
    }
  }
}
