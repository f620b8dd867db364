/** The host ledger: its methods keep the store that `LedgerStore` describes. */
module Ledgers {
  import opened Bytes
  import opened Options
  import opened LedgerChunks
  import opened LedgerTiles
  import opened LedgerStore
  import opened LedgerRanges

  /** The files read lately, after one of them or another has been read: that one is put last, in place of the oldest if
      there are too many. */
  function Recent(cache: seq<Chunk>, c: Chunk, limit: nat): seq<Chunk> {
    if c in cache then cache
    else if |cache| < limit then cache + [c]
    else (cache + [c])[1..]
  }

  /** What was read lately stays, unless it is the oldest of as many files as are kept; and none is kept twice. */
  lemma RecentKeeps(cache: seq<Chunk>, c: Chunk, limit: nat)
    requires forall i, j :: 0 <= i < j < |cache| ==> cache[i] != cache[j]
    ensures var next := Recent(cache, c, limit);
      && (forall i, j :: 0 <= i < j < |next| ==> next[i] != next[j])
      && (limit > 0 && |cache| <= limit ==> c in next && |next| <= limit)
      && (forall d :: d in next ==> d in cache || d == c)
      && (forall i :: 0 <= i < |cache| && (i > 0 || |cache| < limit) ==> cache[i] in next)
  {
    var next := Recent(cache, c, limit);
    if c !in cache && next != [] {
      assert next[|next| - 1] == c;
      forall i | 0 <= i < |cache| && (i > 0 || |cache| < limit)
        ensures cache[i] in next
      {
        assert next[if |cache| < limit then i else i - 1] == cache[i];
      }
    }
  }

  class Ledger {
    const base: nat
    const chunkThreshold: nat
    const maxReadCacheFiles: nat
    var files: seq<Chunk>
    var lastIdx: nat
    var committedIdx: nat
    var endOfCommittedFilesIdx: nat
    var requireNewFile: bool

    /** The committed files, and those of them that were read lately. */
    var archive: seq<Chunk>
    var readCache: seq<Chunk>

    function State(): Store
      reads this
    {
      Store(base, chunkThreshold, files, lastIdx, committedIdx, endOfCommittedFilesIdx, requireNewFile, archive)
    }

    ghost predicate Valid()
      reads this
    {
      Sound(State()) && forall c <- readCache :: c in archive
    }

    constructor (base: nat, chunkThreshold: nat, maxReadCacheFiles: nat)
      ensures Valid() && State() == Empty(base, chunkThreshold) && readCache == []
      ensures this.maxReadCacheFiles == maxReadCacheFiles
    {
      EmptySound(base, chunkThreshold);
      this.base, this.chunkThreshold, this.maxReadCacheFiles := base, chunkThreshold, maxReadCacheFiles;
      files, archive, readCache := [], [], [];
      lastIdx, committedIdx, endOfCommittedFilesIdx, requireNewFile := base, base, base, true;
    }

    method CompleteLatest()
      requires files != []
      modifies this`files, this`requireNewFile
      ensures State() == CompletedLatest(old(State()))
    {
      var n := |files| - 1;
      files := files[n := Completed(files[n])];
      requireNewFile := true;
    }

    method Append(data: Entry)
      requires State().Ready()
      modifies this`files, this`lastIdx, this`requireNewFile
      ensures State() == AppendedTo(old(State()), data)
    {
      if requireNewFile {
        files := files + [Chunk(lastIdx + 1, [], false, false)];
        requireNewFile := false;
      }
      var n := |files| - 1;
      files := files[n := Written(files[n], data)];
      lastIdx := files[n].LastIdx();
      assert [] + [data] == [data];
      assert files == files[..n] + [files[n]];
    }

    method WriteEntry(data: Entry, committable: bool) returns (r: Option<nat>)
      requires Valid()
      modifies this`files, this`lastIdx, this`requireNewFile
      ensures Valid() && old(State()).Ready() && (State(), r) == WroteEntry(old(State()), data, committable)
    {
      WriteKeeps(State(), data, committable);
      hide Sound, AppendedTo, CompletedLatest;
      if |data| < ENTRY_HEADER_SIZE {
        return None;
      }
      if ChunkBefore(data) && |files| > 0 {
        CompleteLatest();
      }
      if ChunkAfter(data) && !committable {
        return None;
      }
      Append(data);
      if committable && (ChunkAfter(data) || files[|files| - 1].Size() >= chunkThreshold) {
        CompleteLatest();
      }
      r := Some(lastIdx);
    }

    method Truncate(idx: nat)
      requires Valid()
      modifies this`files, this`lastIdx, this`requireNewFile
      ensures Valid() && State() == TruncatedAt(old(State()), idx)
    {
      TruncateKeeps(State(), idx);
      if idx >= lastIdx || idx < committedIdx {
        return;
      }
      hide Cut, Spans;
      files, requireNewFile := TruncateFiles(files, idx, lastIdx, endOfCommittedFilesIdx);
      lastIdx := idx;
    }

    /** Truncates the chunk that contains the entry after `idx` and deletes those after it. */
    static method TruncateFiles(files: seq<Chunk>, idx: nat, lastIdx: nat, ghost start: nat)
      returns (next: seq<Chunk>, requireNewFile: bool)
      requires Tiles(files, start, lastIdx) && OpenFiles(files) && start <= idx < lastIdx
      ensures next == Cut(files, idx) && requireNewFile == !Spans(files, idx)
    {
      hide Tiles, Cut, Spans, FindContaining, OpenFiles;
      requireNewFile := true;
      var from, end := FindContaining(files, idx + 1), FindContaining(files, lastIdx) + 1;
      FindContainingFinds(files, start, lastIdx, idx + 1);
      FindLatest(files, start, lastIdx);
      CutIs(files, start, lastIdx, idx);
      next := files;
      var i, first := from, true;
      ghost var done := from;
      while i < end
        invariant from <= done <= |files| && 0 <= i <= |next| && end == |next|
        invariant first <==> done == from
        invariant first ==> next == files && i == from && requireNewFile
        invariant !first ==> next[..i] == Cut(files, idx) && requireNewFile == !Spans(files, idx)
        invariant next[i..] == files[done..]
        decreases |files| - done
      {
        assert next[i] == next[i..][0] == files[done];
        Deletable(files, start, lastIdx, done);
        var truncateIdx := if first then idx else next[i].startIdx - 1;
        var (c, deleted) := Truncated(next[i], truncateIdx);
        DropOne(next, i);
        DropOne(files, done);
        if deleted {
          next := next[..i] + next[i + 1..];
          end := end - 1;
        } else {
          next := next[i := c];
          requireNewFile := false;
          i := i + 1;
        }
        first := false;
        done := done + 1;
      }
      assert next[..i] == next;
    }

    method Commit(idx: nat)
      requires Valid()
      modifies this`files, this`archive, this`committedIdx, this`endOfCommittedFilesIdx
      ensures Valid() && State() == CommittedAt(old(State()), idx)
    {
      CommitKeeps(State(), idx);
      if idx <= committedIdx || idx > lastIdx {
        return;
      }
      CommitStart(State());
      var from := FindContaining(files, if committedIdx == 0 then 1 else committedIdx);
      hide Sound, Committable, CommitAll;
      var moved;
      files, moved, endOfCommittedFilesIdx :=
        CommitFiles(files, from, idx, lastIdx, endOfCommittedFilesIdx);
      archive := archive + moved;
      committedIdx := idx;
    }

    /** Commits the chunks up to the one that contains `idx`, that one only if it is complete and ends there. */
    static method CommitFiles(files: seq<Chunk>, from: nat, idx: nat, lastIdx: nat, endOfCommitted: nat)
      returns (next: seq<Chunk>, moved: seq<Chunk>, endOfCommittedFilesIdx: nat)
      requires Tiles(files, endOfCommitted, lastIdx) && OpenFiles(files) && endOfCommitted < idx <= lastIdx
      requires from == 0
      ensures var m := Committable(files, idx);
        && next == files[m..] && moved == CommitAll(files[..m])
        && endOfCommittedFilesIdx == if m == 0 then endOfCommitted else files[m - 1].LastIdx()
    {
      hide Tiles, OpenFiles, FindContaining, Committable, CommitAll, Committed, Moved;
      next, moved, endOfCommittedFilesIdx := files, [], endOfCommitted;
      var last := FindContaining(files, idx);
      FindContainingFinds(files, endOfCommitted, lastIdx, idx);
      CommittableIs(files, endOfCommitted, lastIdx, idx);
      NoneMoved(files, endOfCommitted);
      var i: int, target: int, end: int := from, last, last + 1;
      ghost var m, done := Committable(files, idx), 0;
      while i < end
        invariant 0 <= done <= m && Moved(files, endOfCommitted, done, next, moved, endOfCommittedFilesIdx)
        invariant i < end ==> i == 0 && target + done == last && end == target + 1
        invariant i >= end ==> done == m
        decreases end - i
      {
        MovedNext(files, endOfCommitted, done, next, moved, endOfCommittedFilesIdx);
        CommitsIff(files, endOfCommitted, lastIdx, idx, done);
        var lastInFile := next[i].LastIdx();
        var commitIdx := if i == target then idx else lastInFile;
        var (c, ok) := Committed(next[i], commitIdx);
        if ok && (i != target || idx == lastInFile) {
          endOfCommittedFilesIdx := lastInFile;
          moved := moved + [c];
          next := next[..i] + next[i + 1..];
          end := end - 1;
          target := target - 1;
          done := done + 1;
        } else {
          next := next[i := c];
          i := i + 1;
        }
      }
      MovedAll(files, endOfCommitted, done, next, moved, endOfCommittedFilesIdx);
    }

    // ----- Reading

    /** The committed file that contains the index: from the cache, or opened and put there in place of the oldest. */
    method GetFileFromCache(idx: nat) returns (r: Option<Chunk>)
      requires Valid()
      modifies this`readCache
      ensures Valid()
      ensures r.Some? <==> base < idx <= endOfCommittedFilesIdx
      ensures r.Some? ==> Holds(State(), r.value, idx)
      ensures |old(readCache)| <= maxReadCacheFiles ==> |readCache| <= maxReadCacheFiles
      ensures readCache == if r.None? then old(readCache) else Recent(old(readCache), r.value, maxReadCacheFiles)
    {
      hide Sound;
      if idx == 0 {
        return None;
      }
      var i := 0;
      while i < |readCache|
        invariant 0 <= i <= |readCache|
        invariant forall j :: 0 <= j < i ==> !readCache[j].Has(idx, idx)
      {
        if readCache[i].startIdx <= idx <= readCache[i].LastIdx() {
          assert readCache[i] in readCache;
          ArchivedHolds(State(), readCache[i], idx);
          return Some(readCache[i]);
        }
        i := i + 1;
      }
      var k := 0;
      while k < |archive| && !(archive[k].startIdx <= idx <= archive[k].LastIdx())
        invariant 0 <= k <= |archive|
        invariant forall j :: 0 <= j < k ==> !archive[j].Has(idx, idx)
      {
        k := k + 1;
      }
      if k == |archive| {
        NotArchived(State(), idx);
        return None;
      }
      ArchivedHolds(State(), archive[k], idx);
      readCache := readCache + [archive[k]];
      if |readCache| > maxReadCacheFiles {
        readCache := readCache[1..];
      }
      r := Some(archive[k]);
    }

    method GetFileFromIdx(idx: nat, readCacheOnly: bool) returns (r: Option<Chunk>)
      requires Valid() && idx <= lastIdx
      modifies this`readCache
      ensures Valid()
      ensures r.Some? <==> base < idx <= if readCacheOnly then endOfCommittedFilesIdx else lastIdx
      ensures r.Some? ==> Holds(State(), r.value, idx)
      ensures |old(readCache)| <= maxReadCacheFiles ==> |readCache| <= maxReadCacheFiles
    {
      hide Sound, FindStarting;
      IndexBounds(State());
      if idx == 0 {
        return None;
      }
      if !readCacheOnly {
        StartingHolds(State(), idx);
        var k := FindStarting(files, idx);
        if k < |files| {
          return Some(files[k]);
        }
      }
      r := GetFileFromCache(idx);
    }

    /**
    The entries of a range, from as many files as it takes.  With a cap on their size, as many as a best
    effort finds; not strictly, the range may go on past the end of the log.
    */
    method ReadEntriesRange(from: nat, upto: nat, readCacheOnly: bool, strict: bool, maxEntriesSize: Option<nat>)
      returns (r: Option<seq<byte>>)
      requires Valid()
      modifies this`readCache
      ensures Valid()
      ensures r == ReadResult(State(), from, upto, readCacheOnly, strict, maxEntriesSize)
    {
      hide Sound, Outcome, Walked, ReadEntries;
      ghost var s, limit := State(), Limit(State(), readCacheOnly);
      IndexBounds(s);
      if from <= 0 || upto < from {
        return None;
      }
      var end := upto;
      if end > lastIdx {
        if strict {
          return None;
        }
        end := lastIdx;
      }
      if from > end {
        return Some([]);
      }
      r := ReadFiles(from, end, readCacheOnly, maxEntriesSize);
    }

    method ReadFiles(from: nat, end: nat, readCacheOnly: bool, maxEntriesSize: Option<nat>)
      returns (r: Option<seq<byte>>)
      requires Valid() && 0 < from <= end <= lastIdx
      modifies this`readCache
      ensures Valid()
      ensures r == Outcome(State(), from, end, Limit(State(), readCacheOnly), maxEntriesSize)
    {
      hide Sound, Outcome, Walked, ReadEntries;
      ghost var s, limit := State(), Limit(State(), readCacheOnly);
      WalkBegins(s, from, end, limit, maxEntriesSize);
      var entries: seq<byte> := [];
      var idx := from;
      while idx <= end
        invariant from <= idx && State() == s && Valid()
        invariant idx <= end ==> Walked(s, from, idx, end, limit, maxEntriesSize, entries)
        invariant idx > end ==> Some(entries) == Outcome(s, from, end, limit, maxEntriesSize)
        decreases end + 1 - idx
      {
        var f := GetFileFromIdx(idx, readCacheOnly);
        if f.None? {
          WalkFails(s, from, idx, end, limit, maxEntriesSize, entries);
          return None;
        }
        WalkGoesOn(s, from, idx, end, limit, maxEntriesSize, entries, f.value);
        var last := Least(f.value.LastIdx(), end);
        var v := ReadEntries(f.value, idx, last, Less(maxEntriesSize, |entries|));
        if v.None? {
          return None;
        }
        entries := entries + v.value.bytes;
        if v.value.last != last {
          break;
        }
        idx := last + 1;
      }
      r := Some(entries);
    }
  }

  lemma DropOne(chunks: seq<Chunk>, i: nat)
    requires i < |chunks|
    ensures chunks[i..][1..] == chunks[i + 1..]
  {
  }

  lemma {:induction false} FindLatest(files: seq<Chunk>, start: nat, end: nat)
    requires Tiles(files, start, end) && start < end
    ensures files != [] && FindContaining(files, end) == |files| - 1
    decreases |files|
  {
    if |files| > 1 {
      TilesLength(files[1..], start + |files[0].entries|, end);
      FindLatest(files[1..], start + |files[0].entries|, end);
    }
  }

  lemma {:induction false} CutIs(files: seq<Chunk>, start: nat, end: nat, idx: nat)
    requires Tiles(files, start, end) && start <= idx < end
    ensures var k := FindContaining(files, idx + 1);
      && k < |files|
      && Cut(files, idx) == files[..k] + (if idx < files[k].startIdx then [] else [Truncated(files[k], idx).0])
      && (Spans(files, idx) <==> idx >= files[k].startIdx)
    decreases |files|
  {
    var k := FindContaining(files, idx + 1);
    if files[0].LastIdx() <= idx {
      CutIs(files[1..], start + |files[0].entries|, end, idx);
      assert files[..k] == [files[0]] + files[1..][..k - 1];
    }
  }

  /** A chunk open for writing is deleted when it is cut back to before its first entry, and only then. */
  lemma Deletable(files: seq<Chunk>, start: nat, end: nat, k: nat)
    requires Tiles(files, start, end) && OpenFiles(files) && k < |files|
    ensures files[k].entries != []
    ensures Truncated(files[k], files[k].startIdx - 1) == (files[k], true)
    ensures forall idx: nat :: files[k].startIdx <= idx < files[k].LastIdx() ==> !Truncated(files[k], idx).1
  {
    hide Tiles;
    ChunkPlace(files, start, end, k);
  }

  // ----- Committing

  lemma CommitStart(s: Store)
    requires Sound(s) && s.committedIdx < s.lastIdx
    ensures s.files != [] && FindContaining(s.files, if s.committedIdx == 0 then 1 else s.committedIdx) == 0
  {
    LatestOrNone(s.files, s.archivedIdx, s.lastIdx);
  }

  lemma LatestOrNone(files: seq<Chunk>, start: nat, end: nat)
    requires Tiles(files, start, end)
    ensures files == [] ==> start == end
    ensures files != [] ==> files[0].LastIdx() >= 1
  {
  }

  /** The first `done` chunks have been moved to the committed files. */
  ghost predicate Moved(
    files: seq<Chunk>, start: nat, done: nat, next: seq<Chunk>, moved: seq<Chunk>, end: nat)
  {
    && done <= |files| && next == files[done..] && moved == CommitAll(files[..done])
    && end == if done == 0 then start else files[done - 1].LastIdx()
  }

  lemma NoneMoved(files: seq<Chunk>, start: nat)
    ensures Moved(files, start, 0, files, [], start)
  {
  }

  lemma MovedNext(files: seq<Chunk>, start: nat, done: nat, next: seq<Chunk>, moved: seq<Chunk>, end: nat)
    requires Moved(files, start, done, next, moved, end) && done < |files|
    ensures next != [] && next[0] == files[done] && next[0 := next[0]] == next
    ensures Moved(files, start, done + 1, next[..0] + next[1..], moved + [next[0].(committed := true)], next[0].LastIdx())
  {
    hide CommitAll;
    DropOne(files, done);
    CommitOne(files, done);
    assert next[..0] + next[1..] == next[1..];
  }

  lemma MovedAll(files: seq<Chunk>, start: nat, done: nat, next: seq<Chunk>, moved: seq<Chunk>, end: nat)
    requires Moved(files, start, done, next, moved, end)
    ensures next == files[done..] && moved == CommitAll(files[..done])
    ensures end == if done == 0 then start else files[done - 1].LastIdx()
  {
  }

  lemma {:induction false} CommitAllOne(chunks: seq<Chunk>, c: Chunk)
    ensures CommitAll(chunks + [c]) == CommitAll(chunks) + [c.(committed := true)]
    decreases |chunks|
  {
    if chunks == [] {
      assert chunks + [c] == [c] && [c][1..] == [];
    } else {
      CommitAllOne(chunks[1..], c);
      assert (chunks + [c])[1..] == chunks[1..] + [c];
    }
  }

  lemma CommitOne(files: seq<Chunk>, done: nat)
    requires done < |files|
    ensures CommitAll(files[..done + 1]) == CommitAll(files[..done]) + [files[done].(committed := true)]
  {
    assert files[..done + 1] == files[..done] + [files[done]];
    CommitAllOne(files[..done], files[done]);
  }

  /** The chunks before the one that contains `idx` commit, and that one if it is complete and ends there. */
  lemma {:induction false} CommittableIs(files: seq<Chunk>, start: nat, end: nat, idx: nat)
    requires Tiles(files, start, end) && OpenFiles(files) && start < idx <= end
    ensures var t := FindContaining(files, idx);
      t < |files| && Committable(files, idx) == if files[t].completed && files[t].LastIdx() == idx then t + 1 else t
    decreases |files|
  {
    var rest := files[1..];
    OpenRest(files);
    if idx <= files[0].LastIdx() {
      if rest != [] {
        FirstTile(rest, start + |files[0].entries|, end);
      }
    } else {
      LatestOrNone(rest, start + |files[0].entries|, end);
      CommittableIs(rest, start + |files[0].entries|, end, idx);
    }
  }

  /** What committing the chunk does, before and at the one that contains `idx`. */
  lemma CommitsIff(files: seq<Chunk>, start: nat, end: nat, idx: nat, done: nat)
    requires Tiles(files, start, end) && OpenFiles(files) && start < idx <= end
    requires done <= FindContaining(files, idx) < |files|
    ensures var c, t := files[done], FindContaining(files, idx);
      && (done < t ==> Committed(c, c.LastIdx()) == (c.(committed := true), true) && done < Committable(files, idx))
      && (done == t && done < Committable(files, idx) ==>
        Committed(c, idx) == (c.(committed := true), true) && idx == c.LastIdx())
      && (done == t && done == Committable(files, idx) ==> Committed(c, idx) == (c, false))
  {
    CommittableIs(files, start, end, idx);
    hide Tiles, Committable, FindContaining;
  }

  // ----- Reading

  lemma IndexBounds(s: Store)
    requires Sound(s)
    ensures s.base <= s.archivedIdx <= s.lastIdx
  {
  }

  lemma ArchivedHolds(s: Store, c: Chunk, idx: nat)
    requires Sound(s) && c in s.archive && c.Has(idx, idx)
    ensures s.base < idx <= s.archivedIdx && Holds(s, c, idx)
  {
    var k :| 0 <= k < |s.archive| && s.archive[k] == c;
    ChunkPlace(s.archive, s.base, s.archivedIdx, k);
  }

  lemma NotArchived(s: Store, idx: nat)
    requires Sound(s) && forall j :: 0 <= j < |s.archive| ==> !s.archive[j].Has(idx, idx)
    ensures !(s.base < idx <= s.archivedIdx)
  {
    if s.base < idx <= s.archivedIdx {
      FindContainingFinds(s.archive, s.base, s.archivedIdx, idx);
      assert false;
    }
  }

  lemma StartingHolds(s: Store, idx: nat)
    requires Sound(s) && idx <= s.lastIdx
    ensures var k := FindStarting(s.files, idx);
      && (k < |s.files| <==> idx > s.archivedIdx)
      && (k < |s.files| ==> Holds(s, s.files[k], idx))
  {
    hide Tiles, FindStarting;
    FindStartingFinds(s.files, s.archivedIdx, s.lastIdx, idx);
    var k := FindStarting(s.files, idx);
    if k < |s.files| {
      assert s.files[k] in s.files;
    }
  }
}
