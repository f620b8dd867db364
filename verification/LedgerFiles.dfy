/**
A ledger file.  It begins with the offset of a table of entry positions, zero until the file is completed;
the entries follow, and once the file is completed, the table.
*/
module LedgerFiles {
  import opened Bytes
  import opened Options
  import opened Sequences
  import opened LedgerChunks

  const POSITION_SIZE: nat := 4

  // ----- What a file holds

  function Positions(entries: seq<Entry>): (r: seq<nat>)
    ensures |r| == |entries|
  {
    seq(|entries|, i requires 0 <= i < |entries| => OFFSET_SIZE + Position(entries, i))
  }

  function Table(positions: seq<nat>): (r: seq<byte>)
    ensures |r| == POSITION_SIZE * |positions|
  {
    if positions == [] then [] else EncodeLE(positions[0], POSITION_SIZE) + Table(positions[1..])
  }

  function OpenBytes(entries: seq<Entry>): seq<byte> {
    Zeros(OFFSET_SIZE) + Flatten(entries)
  }

  function CompleteBytes(entries: seq<Entry>): seq<byte> {
    EncodeLE(OFFSET_SIZE + |Flatten(entries)|, OFFSET_SIZE) + Flatten(entries) + Table(Positions(entries))
  }

  /** Writes at an offset, beyond the end if need be: the gap reads as zeros. */
  function WriteAt(contents: seq<byte>, at: nat, data: seq<byte>): seq<byte> {
    if at > |contents| then contents + Zeros(at - |contents|) + data
    else contents[..at] + data + if at + |data| < |contents| then contents[at + |data|..] else []
  }

  lemma {:induction false} RangeBytes(entries: seq<Entry>, i: nat, j: nat)
    requires i <= j <= |entries|
    ensures Position(entries, i) <= Position(entries, j) <= |Flatten(entries)|
    ensures Position(entries, j) - Position(entries, i) == |Flatten(entries[i..j])|
    ensures Flatten(entries)[Position(entries, i)..Position(entries, j)] == Flatten(entries[i..j])
  {
    var a, b, c := entries[..i], entries[i..j], entries[j..];
    assert entries == a + (b + c) && entries[..j] == a + b;
    FlattenConcat(a, b + c);
    FlattenConcat(b, c);
    FlattenConcat(a, b);
  }

  /** Where entry `j - 1` ends. */
  function EndPosition(entries: seq<Entry>, j: nat): nat
    requires j <= |entries|
  {
    if j == |entries| then OFFSET_SIZE + |Flatten(entries)| else Positions(entries)[j]
  }

  /** The size of a range of entries, from the positions alone. */
  lemma RangeSize(entries: seq<Entry>, i: nat, j: nat)
    requires i < j <= |entries|
    ensures OFFSET_SIZE <= Positions(entries)[i] <= EndPosition(entries, j) <= OFFSET_SIZE + |Flatten(entries)|
    ensures EndPosition(entries, j) - Positions(entries)[i] == |Flatten(entries[i..j])|
  {
    RangeBytes(entries, i, j);
    assert entries[..|entries|] == entries;
  }

  /** The bytes of a range of entries are where the positions say. */
  lemma RangeInFile(contents: seq<byte>, entries: seq<Entry>, completed: bool, i: nat, j: nat)
    requires Holds(contents, entries, completed) && i < j <= |entries|
    ensures Positions(entries)[i] <= EndPosition(entries, j) <= |contents|
    ensures contents[Positions(entries)[i]..EndPosition(entries, j)] == Flatten(entries[i..j])
  {
    EntriesInFile(contents, entries, completed);
    RangeBytes(entries, i, j);
    RangeSize(entries, i, j);
    assert entries[..|entries|] == entries;
    hide Flatten, Holds;
    SubSlice(contents, OFFSET_SIZE, |Flatten(entries)|, Position(entries, i), |Flatten(entries[i..j])|);
  }

  lemma AppendedFlat(entries: seq<Entry>, entry: Entry)
    ensures Flatten(entries + [entry]) == Flatten(entries) + entry
    ensures Positions(entries + [entry]) == Positions(entries) + [OFFSET_SIZE + |Flatten(entries)|]
  {
    hide Flatten;
    FlattenAppended(entries, entry);
    var more := entries + [entry];
    assert more[..|entries|] == entries;
    forall i | 0 <= i < |entries|
      ensures more[..i] == entries[..i]
    {
    }
  }

  lemma CutFlat(entries: seq<Entry>, n: nat)
    requires n < |entries|
    ensures Positions(entries[..n]) == Positions(entries)[..n]
    ensures Positions(entries)[n] == OFFSET_SIZE + |Flatten(entries[..n])|
    ensures Flatten(entries[..n]) <= Flatten(entries)
  {
    forall i | 0 <= i < n
      ensures entries[..n][..i] == entries[..i]
    {
    }
    assert entries == entries[..n] + entries[n..];
    FlattenConcat(entries[..n], entries[n..]);
  }

  class LedgerFile {
    const startIdx: Idx
    var totalLen: nat
    var positions: seq<nat>
    var completed: bool
    var committed: bool
    var contents: seq<byte>
    ghost var entries: seq<Entry>

    ghost predicate Valid()
      reads this
    {
      && positions == Positions(entries)
      && totalLen == OFFSET_SIZE + |Flatten(entries)|
      && Holds(contents, entries, completed)
    }

    /** Nothing follows the last entry but the table. */
    ghost predicate Trimmed()
      reads this
    {
      completed || |contents| <= totalLen
    }

    ghost function State(): Chunk
      reads this
    {
      Chunk(startIdx, entries, completed, committed)
    }

    constructor (startIdx: Idx)
      ensures Valid() && Trimmed() && State() == Chunk(startIdx, [], false, false)
    {
      this.startIdx := startIdx;
      totalLen, positions, completed, committed := OFFSET_SIZE, [], false, false;
      contents, entries := [], [];
    }

    /** A file found on disk, with what reading it gave. */
    constructor Reopened(startIdx: Idx, contents: seq<byte>, totalLen: nat, positions: seq<nat>, completed: bool,
      ghost entries: seq<Entry>)
      requires Holds(contents, entries, completed)
      requires positions == Positions(entries) && totalLen == OFFSET_SIZE + |Flatten(entries)|
      ensures Valid() && State() == Chunk(startIdx, entries, completed, false) && this.contents == contents
    {
      this.startIdx, this.contents, this.totalLen := startIdx, contents, totalLen;
      this.positions, this.completed, this.committed, this.entries := positions, completed, false, entries;
    }

    function LastIdx(): nat
      reads this
    {
      startIdx + |positions| - 1
    }

    /** Appends an entry; an empty one cannot be written.  In a completed file it would overwrite the table. */
    method WriteEntry(data: Entry) returns (last: Option<nat>)
      requires Valid()
      modifies this
      ensures data == [] ==> Valid() && last == None && State() == old(State()) && contents == old(contents)
      ensures data != [] && !old(completed) ==>
        && Valid() && (old(Trimmed()) ==> Trimmed())
        && State() == Written(old(State()), data) && last == Some(State().LastIdx())
      ensures data != [] && old(completed) ==>
        && contents == WriteAt(old(contents), old(totalLen), data) && completed
        && positions == old(positions) + [old(totalLen)] && totalLen == old(totalLen) + |data|
    {
      if data == [] {
        return None;
      }
      AppendedFlat(entries, data);
      if !completed {
        AppendBytes(contents, entries, data);
      }
      hide Holds, Flatten, Positions, WriteAt;
      contents := WriteAt(contents, totalLen, data);
      positions := positions + [totalLen];
      totalLen := totalLen + |data|;
      entries := entries + [data];
      last := Some(LastIdx());
    }

    /** The size of the entries in a range, and the last index among them, halving the range until they fit. */
    method EntriesSize(from: nat, upto: nat, maxSize: Option<nat>) returns (size: int, last: nat)
      requires Valid()
      ensures (size, last) == FittingSize(State(), from, upto, maxSize)
    {
      if from < startIdx || upto < from || upto > LastIdx() {
        return 0, 0;
      }
      size, last := HalveToFit(startIdx, totalLen, positions, from, upto, maxSize, State());
    }

    static method HalveToFit(startIdx: Idx, totalLen: nat, positions: seq<nat>, from: nat, upto: nat,
      maxSize: Option<nat>, ghost c: Chunk) returns (size: int, last: nat)
      requires startIdx == c.startIdx && totalLen == c.Size() && positions == Positions(c.entries) && c.Has(from, upto)
      ensures (size, last) == FittingSize(c, from, upto, maxSize)
    {
      hide Flatten, Positions, Chunk.Range, Chunk.Size, FittingSize;
      last := upto;
      while true
        invariant c.Has(from, last)
        invariant FittingSize(c, from, last, maxSize) == FittingSize(c, from, upto, maxSize)
        decreases last
      {
        SizeFromPositions(c, from, last);
        FittingStep(c, from, last, maxSize);
        var end := if last == startIdx + |positions| - 1 then totalLen else positions[last - startIdx + 1];
        size := end - positions[from - startIdx];
        if maxSize.None? || size <= maxSize.value {
          return;
        }
        if from == last {
          return 0, 0;
        }
        last := from + (last - from) / 2;
      }
    }

    /** The bytes of a range of entries. */
    method Read(from: nat, upto: nat, maxSize: Option<nat>) returns (r: Option<Reading>)
      requires Valid()
      ensures r == ReadEntries(State(), from, upto, maxSize)
    {
      hide FittingTo, Flatten, Positions, Holds;
      if from < startIdx || upto > LastIdx() || upto < from {
        return None;
      }
      var size, last := EntriesSize(from, upto, maxSize);
      if size == 0 {
        return None;
      }
      RangeSize(entries, from - startIdx, last - startIdx + 1);
      RangeInFile(contents, entries, completed, from - startIdx, last - startIdx + 1);
      var start := positions[from - startIdx];
      r := Some(Reading(contents[start..start + size], last));
    }

    /** Cuts the file back to `idx`, so that it ends with that entry; true if that leaves nothing and it is deleted.
        It throws for an index past the end of an open file, whose offset it has by then set to zero again. */
    method Truncate(idx: nat) returns (deleted: Option<bool>)
      requires Valid()
      modifies this
      ensures Valid() && State() == Truncated(old(State()), idx).0
      ensures deleted.None? <==> !old(committed) && !old(completed) && idx > old(LastIdx())
      ensures deleted.Some? ==> deleted.value == Truncated(old(State()), idx).1
      ensures deleted.None? ==> contents == WriteAt(old(contents), 0, Zeros(OFFSET_SIZE))
      ensures old(committed) || (old(completed) && idx >= old(LastIdx())) || idx < startIdx ==> contents == old(contents)
      ensures deleted.Some? && !old(committed) && !(old(completed) && idx >= old(LastIdx())) && idx >= startIdx ==>
        contents == OpenBytes(entries)
    {
      hide Holds, Flatten, Positions, WriteAt, OpenBytes;
      if committed || idx < startIdx - 1 || (completed && idx >= LastIdx()) {
        return Some(false);
      }
      if idx == startIdx - 1 {
        return Some(true);
      }
      if idx > LastIdx() {
        HeaderReset(contents, entries);
        contents := WriteAt(contents, 0, Zeros(OFFSET_SIZE));
        return None;
      }
      var n := idx - startIdx + 1;
      TruncateBytes(contents, entries, completed, n);
      if n < |entries| {
        CutFlat(entries, n);
      }
      assert entries[..|entries|] == entries;
      contents := WriteAt(contents, 0, Zeros(OFFSET_SIZE));
      completed := false;
      if idx != LastIdx() {
        totalLen := positions[n];
        positions := positions[..n];
      }
      contents := contents[..totalLen];
      entries := entries[..n];
      deleted := Some(false);
    }

    /** Writes the table of positions after the entries and its offset at the start. */
    method Complete()
      requires Valid() && Trimmed()
      modifies this
      ensures Valid() && State() == Completed(old(State()))
    {
      if completed {
        return;
      }
      CompletedBytes(contents, entries);
      hide Flatten, Positions, WriteAt, CompleteBytes;
      var tableOffset := totalLen;
      contents := WriteAt(contents, totalLen, Table(positions));
      contents := WriteAt(contents, 0, EncodeLE(tableOffset, OFFSET_SIZE));
      completed := true;
    }

    /** Renames the file as committed, if it is complete and `idx` is its last index. */
    method Commit(idx: nat) returns (r: bool)
      requires Valid()
      modifies this
      ensures Valid() && contents == old(contents) && (State(), r) == Committed(old(State()), idx)
    {
      if !completed || committed || idx != LastIdx() {
        return false;
      }
      committed := true;
      r := true;
    }
  }

  lemma SizeFromPositions(c: Chunk, from: nat, upto: nat)
    requires c.Has(from, upto)
    ensures var end := if upto == c.LastIdx() then c.Size() else Positions(c.entries)[upto - c.startIdx + 1];
      end - Positions(c.entries)[from - c.startIdx] == |c.Range(from, upto)|
  {
    hide Flatten, Positions;
    RangeSize(c.entries, from - c.startIdx, upto - c.startIdx + 1);
  }

  /** The bytes of a file with these entries; one that has not been completed may end in a torn entry. */
  ghost predicate Holds(contents: seq<byte>, entries: seq<Entry>, completed: bool) {
    if completed then contents == CompleteBytes(entries)
    else (entries == [] && contents == []) || OpenBytes(entries) <= contents
  }

  lemma EntriesInFile(contents: seq<byte>, entries: seq<Entry>, completed: bool)
    requires Holds(contents, entries, completed) && entries != []
    ensures |contents| >= OFFSET_SIZE + |Flatten(entries)|
    ensures contents[OFFSET_SIZE..OFFSET_SIZE + |Flatten(entries)|] == Flatten(entries)
  {
    hide Flatten, Positions;
  }

  lemma AppendBytes(contents: seq<byte>, entries: seq<Entry>, data: Entry)
    requires Holds(contents, entries, false)
    ensures Holds(WriteAt(contents, OFFSET_SIZE + |Flatten(entries)|, data), entries + [data], false)
    ensures |contents| <= OFFSET_SIZE + |Flatten(entries)| ==>
      |WriteAt(contents, OFFSET_SIZE + |Flatten(entries)|, data)| == OFFSET_SIZE + |Flatten(entries)| + |data|
  {
    hide Flatten;
    FlattenAppended(entries, data);
    var end := OFFSET_SIZE + |Flatten(entries)|;
    if entries == [] && contents == [] {
      FlattenNone<byte>();
      assert WriteAt(contents, end, data) == Zeros(OFFSET_SIZE) + data;
      assert [] + data == data;
    } else {
      Overwritten(contents, end, data);
      assert contents[..end] == OpenBytes(entries);
      Associative(Zeros(OFFSET_SIZE), Flatten(entries), data);
    }
  }

  lemma Overwritten(contents: seq<byte>, at: nat, data: seq<byte>)
    requires at <= |contents|
    ensures contents[..at] + data <= WriteAt(contents, at, data)
    ensures at == |contents| ==> |WriteAt(contents, at, data)| == at + |data|
  {
  }

  lemma HeaderReset(contents: seq<byte>, entries: seq<Entry>)
    requires Holds(contents, entries, false)
    ensures Holds(WriteAt(contents, 0, Zeros(OFFSET_SIZE)), entries, false)
  {
    var next := WriteAt(contents, 0, Zeros(OFFSET_SIZE));
    if entries == [] && contents == [] {
      assert next == Zeros(OFFSET_SIZE) + [] == OpenBytes([]);
    } else {
      hide Flatten;
      assert contents[..OFFSET_SIZE] == Zeros(OFFSET_SIZE);
      assert next == contents;
    }
  }

  lemma TruncateBytes(contents: seq<byte>, entries: seq<Entry>, completed: bool, n: nat)
    requires Holds(contents, entries, completed) && 0 < n <= |entries|
    ensures OFFSET_SIZE + |Flatten(entries[..n])| <= |contents| == |WriteAt(contents, 0, Zeros(OFFSET_SIZE))|
    ensures WriteAt(contents, 0, Zeros(OFFSET_SIZE))[..OFFSET_SIZE + |Flatten(entries[..n])|] == OpenBytes(entries[..n])
    ensures Holds(OpenBytes(entries[..n]), entries[..n], false)
  {
    EntriesInFile(contents, entries, completed);
    assert entries == entries[..n] + entries[n..];
    FlattenConcat(entries[..n], entries[n..]);
    hide Flatten, Holds;
    var kept, whole, next := Flatten(entries[..n]), Flatten(entries), WriteAt(contents, 0, Zeros(OFFSET_SIZE));
    var end := OFFSET_SIZE + |kept|;
    assert next == Zeros(OFFSET_SIZE) + contents[OFFSET_SIZE..];
    assert contents[OFFSET_SIZE..end] == kept by {
      SubSlice(contents, OFFSET_SIZE, |whole|, 0, |kept|);
      assert whole[0..|kept|] == kept;
    }
    assert next[..end] == Zeros(OFFSET_SIZE) + contents[OFFSET_SIZE..end];
    assert Holds(OpenBytes(entries[..n]), entries[..n], false) by { HoldsOpen(entries[..n]); }
  }

  lemma HoldsOpen(entries: seq<Entry>)
    ensures Holds(OpenBytes(entries), entries, false)
  {
  }

  lemma CompletedBytes(contents: seq<byte>, entries: seq<Entry>)
    requires Holds(contents, entries, false) && |contents| <= OFFSET_SIZE + |Flatten(entries)|
    ensures var end := OFFSET_SIZE + |Flatten(entries)|;
      WriteAt(WriteAt(contents, end, Table(Positions(entries))), 0, EncodeLE(end, OFFSET_SIZE)) == CompleteBytes(entries)
  {
    hide Flatten, Positions, EncodeLE, Table;
    var flat := if entries == [] then [] else Flatten(entries);
    assert flat == Flatten(entries) by { FlattenNone<byte>(); }
    var end, table := OFFSET_SIZE + |flat|, Table(Positions(entries));
    var tabled := WriteAt(contents, end, table);
    assert tabled == Zeros(OFFSET_SIZE) + (flat + table);
    assert tabled[OFFSET_SIZE..] == flat + table;
    var header := EncodeLE(end, OFFSET_SIZE);
    assert WriteAt(tabled, 0, header) == header + tabled[OFFSET_SIZE..];
    assert header + (flat + table) == header + flat + table;
  }
}
