/** Reopening a ledger file: what is read back is what was written, up to the last entry that is whole. */
module LedgerRecovery {
  import opened Bytes
  import opened Options
  import opened Sequences
  import opened LedgerChunks
  import opened LedgerFiles

  /** An entry's header: a version, flags, and the size of what follows in six bytes. */
  const HEADER_SIZE: nat := 8

  ghost predicate Framed(e: Entry) {
    |e| >= HEADER_SIZE && DecodeLE(e[2..HEADER_SIZE]) == |e| - HEADER_SIZE
  }

  ghost predicate AllFramed(entries: seq<Entry>) {
    forall i :: 0 <= i < |entries| ==> Framed(entries[i])
  }

  datatype Opened = Opened(totalLen: nat, positions: seq<nat>, completed: bool)

  function ReadTable(bytes: seq<byte>): (r: seq<nat>)
    ensures |r| == |bytes| / POSITION_SIZE
  {
    if |bytes| < POSITION_SIZE then []
    else [DecodeLE(bytes[..POSITION_SIZE])] + ReadTable(bytes[POSITION_SIZE..])
  }

  /** The size in the header of the entry at an offset, with the header. */
  function SizeAt(contents: seq<byte>, at: nat): nat
    requires at + HEADER_SIZE <= |contents|
  {
    HEADER_SIZE + DecodeLE(contents[at + 2..at + HEADER_SIZE])
  }

  /** The positions of the whole entries from an offset on, and where the last of them ends. */
  function Scan(contents: seq<byte>, at: nat): (seq<nat>, nat)
    requires at <= |contents|
    decreases |contents| - at
  {
    if |contents| - at < HEADER_SIZE || |contents| - at < SizeAt(contents, at) then ([], at)
    else
      var (positions, end) := Scan(contents, at + SizeAt(contents, at));
      ([at] + positions, end)
  }

  /** What reopening a file finds in it; `None` where the source throws. */
  function Reopen(contents: seq<byte>): Option<Opened> {
    if |contents| < OFFSET_SIZE then None
    else
      var offset := DecodeLE(contents[..OFFSET_SIZE]);
      if offset != 0 then
        if offset > |contents| then None else Some(Opened(offset, ReadTable(contents[offset..]), true))
      else
        var (positions, end) := Scan(contents, OFFSET_SIZE);
        Some(Opened(end, positions, false))
  }

  method OpenFile(contents: seq<byte>) returns (r: Option<Opened>)
    ensures r == Reopen(contents)
  {
    hide DecodeLE, Scan;
    if |contents| < OFFSET_SIZE {
      return None;
    }
    var tableOffset := DecodeLE(contents[..OFFSET_SIZE]);
    if tableOffset != 0 {
      if tableOffset > |contents| {
        return None;
      }
      return Some(Opened(tableOffset, ReadTable(contents[tableOffset..]), true));
    }
    var totalLen := OFFSET_SIZE;
    var positions: seq<nat> := [];
    var len := |contents| - totalLen;
    assert [] + Scan(contents, totalLen).0 == Scan(contents, totalLen).0;
    while len >= HEADER_SIZE
      invariant totalLen + len == |contents| && len >= 0
      invariant (positions + Scan(contents, totalLen).0, Scan(contents, totalLen).1) == Scan(contents, OFFSET_SIZE)
      decreases len
    {
      ScanStep(contents, totalLen);
      var size := DecodeLE(contents[totalLen + 2..totalLen + HEADER_SIZE]);
      len := len - HEADER_SIZE;
      if len < size {
        assert positions + [] == positions;
        return Some(Opened(totalLen, positions, false));
      }
      len := len - size;
      Shifted(positions, totalLen, Scan(contents, totalLen + HEADER_SIZE + size).0);
      positions := positions + [totalLen];
      totalLen := totalLen + HEADER_SIZE + size;
    }
    ScanStep(contents, totalLen);
    assert positions + [] == positions;
    r := Some(Opened(totalLen, positions, false));
  }

  lemma Shifted(a: seq<nat>, x: nat, b: seq<nat>)
    ensures a + ([x] + b) == a + [x] + b
  {
  }

  lemma ScanStep(contents: seq<byte>, at: nat)
    requires at <= |contents|
    ensures Scan(contents, at) ==
      if |contents| - at < HEADER_SIZE || |contents| - at < SizeAt(contents, at) then ([], at)
      else ([at] + Scan(contents, at + SizeAt(contents, at)).0, Scan(contents, at + SizeAt(contents, at)).1)
  {
  }

  // ----- Files of any bytes

  /** The first entry that the scan finds at an offset, and that there is one exactly if a framed entry is there. */
  lemma EntryAt(contents: seq<byte>, at: nat, e: Entry)
    requires at <= |contents| && Framed(e) && |e| <= |contents| - at && contents[at..at + |e|] == e
    ensures at + HEADER_SIZE <= |contents| && SizeAt(contents, at) == |e|
  {
    hide DecodeLE;
    SubSlice(contents, at, |e|, 2, HEADER_SIZE - 2);
  }

  lemma FoundFramed(contents: seq<byte>, at: nat)
    requires at + HEADER_SIZE <= |contents| && SizeAt(contents, at) <= |contents| - at
    ensures Framed(contents[at..at + SizeAt(contents, at)])
  {
    hide DecodeLE;
    SubSlice(contents, at, SizeAt(contents, at), 2, HEADER_SIZE - 2);
  }

  /** The scan divides any bytes into framed entries, as many as there are, and a rest that does not begin with one. */
  lemma {:induction false} ScanDivides(contents: seq<byte>, at: nat) returns (entries: seq<Entry>)
    requires at <= |contents|
    ensures AllFramed(entries) && at + |Flatten(entries)| <= |contents|
    ensures contents[at..at + |Flatten(entries)|] == Flatten(entries)
    ensures Scan(contents, at) == (PositionsFrom(entries, at), at + |Flatten(entries)|)
    ensures forall e :: Framed(e) ==> !(e <= contents[at + |Flatten(entries)|..])
    decreases |contents| - at
  {
    hide Framed, SizeAt;
    ScanStep(contents, at);
    if |contents| - at < HEADER_SIZE || |contents| - at < SizeAt(contents, at) {
      entries := [];
      FlattenNone<byte>();
      forall e | Framed(e) && e <= contents[at..]
        ensures false
      {
        EntryAt(contents, at, e);
      }
    } else {
      var e := contents[at..at + SizeAt(contents, at)];
      FoundFramed(contents, at);
      LongEnough(e);
      var rest := ScanDivides(contents, at + |e|);
      entries := [e] + rest;
      FlattenFirst(entries);
      assert contents[at..at + |e| + |Flatten(rest)|] == e + contents[at + |e|..at + |e| + |Flatten(rest)|];
    }
  }

  /**
  What reopening makes of any bytes.  It fails exactly if they are too few for the offset of a table, or the offset is
  beyond them; with an offset of zero they are entries, as many as there are, and a rest that is left out.
  */
  lemma ReopenAny(offset: nat, bytes: seq<byte>, short: seq<byte>) returns (entries: seq<Entry>)
    requires offset < Pow256(OFFSET_SIZE) && |short| < OFFSET_SIZE
    ensures Reopen(short) == None
    ensures var contents := EncodeLE(offset, OFFSET_SIZE) + bytes;
      && (Reopen(contents).None? <==> offset > OFFSET_SIZE + |bytes|)
      && (0 < offset <= OFFSET_SIZE + |bytes| ==>
        Reopen(contents) == Some(Opened(offset, ReadTable(contents[offset..]), true)))
      && (offset == 0 ==>
        && AllFramed(entries) && Flatten(entries) <= bytes
        && (forall e :: Framed(e) ==> !(e <= bytes[|Flatten(entries)|..]))
        && Reopen(contents) == Some(Opened(OFFSET_SIZE + |Flatten(entries)|, Positions(entries), false)))
  {
    hide EncodeLE, DecodeLE, Pow256, Flatten, Positions, ReadTable, Scan, Framed;
    var contents := EncodeLE(offset, OFFSET_SIZE) + bytes;
    assert contents[..OFFSET_SIZE] == EncodeLE(offset, OFFSET_SIZE);
    EncodeDecode(offset, OFFSET_SIZE);
    entries := ScanDivides(contents, OFFSET_SIZE);
    PositionsAgree(entries);
    var n := |Flatten(entries)|;
    assert contents[OFFSET_SIZE..OFFSET_SIZE + n] == bytes[..n] && contents[OFFSET_SIZE + n..] == bytes[n..];
  }

  // ----- Completed files

  lemma {:induction false} TableRead(positions: seq<nat>)
    requires forall i :: 0 <= i < |positions| ==> positions[i] < Pow256(POSITION_SIZE)
    ensures ReadTable(Table(positions)) == positions
    decreases |positions|
  {
    if positions != [] {
      var first, rest := EncodeLE(positions[0], POSITION_SIZE), Table(positions[1..]);
      hide EncodeLE, DecodeLE, Pow256;
      assert (first + rest)[..POSITION_SIZE] == first && (first + rest)[POSITION_SIZE..] == rest;
      EncodeDecode(positions[0], POSITION_SIZE);
      TableRead(positions[1..]);
    }
  }

  /** A completed file yields, from its table, the positions and the length it was completed with. */
  lemma CompletedReopens(entries: seq<Entry>)
    requires OFFSET_SIZE + |Flatten(entries)| < Pow256(OFFSET_SIZE)
    requires forall i :: 0 <= i < |entries| ==> Positions(entries)[i] < Pow256(POSITION_SIZE)
    ensures Reopen(CompleteBytes(entries)) ==
      Some(Opened(OFFSET_SIZE + |Flatten(entries)|, Positions(entries), true))
  {
    hide EncodeLE, DecodeLE, Pow256, Flatten, Positions, Table, Scan, ReadTable;
    var contents, flat, table := CompleteBytes(entries), Flatten(entries), Table(Positions(entries));
    var end := OFFSET_SIZE + |flat|;
    assert contents[..OFFSET_SIZE] == EncodeLE(end, OFFSET_SIZE);
    EncodeDecode(end, OFFSET_SIZE);
    assert contents[end..] == table;
    TableRead(Positions(entries));
  }

  // ----- Files cut short

  lemma EntryRead(contents: seq<byte>, at: nat, e: Entry)
    requires Framed(e) && at <= |contents|
    requires |contents| - at >= |e| ==> contents[at..at + |e|] == e
    requires |contents| - at < |e| ==> contents[at..] == e[..|contents| - at]
    ensures |contents| - at >= HEADER_SIZE ==> SizeAt(contents, at) == |e|
  {
    hide DecodeLE;
    if |contents| - at >= HEADER_SIZE {
      assert contents[at + 2..at + HEADER_SIZE] == e[2..HEADER_SIZE] by {
        var n := if |contents| - at < |e| then |contents| - at else |e|;
        assert contents[at..at + n] == e[..n];
        SubSlice(contents, at, n, 2, HEADER_SIZE - 2);
        assert e[..n][2..HEADER_SIZE] == e[2..HEADER_SIZE];
      }
    }
  }

  /** How many of the entries are whole in the first `n` bytes. */
  function Whole(entries: seq<Entry>, n: nat): (k: nat)
    ensures k <= |entries|
  {
    if entries == [] || n < |entries[0]| then 0 else 1 + Whole(entries[1..], n - |entries[0]|)
  }

  /** They fit, and one more would not. */
  lemma {:induction false} WholeMaximal(entries: seq<Entry>, n: nat)
    ensures |Flatten(entries[..Whole(entries, n)])| <= n
    ensures Whole(entries, n) < |entries| ==> n < |Flatten(entries[..Whole(entries, n) + 1])|
  {
    var k := Whole(entries, n);
    if entries == [] || n < |entries[0]| {
      assert entries[..0] == [];
      if entries != [] {
        assert entries[..1] == [entries[0]];
        FlattenOne(entries[0]);
      }
    } else {
      WholeMaximal(entries[1..], n - |entries[0]|);
      assert entries[..k][1..] == entries[1..][..k - 1];
      if k < |entries| {
        assert entries[..k + 1][1..] == entries[1..][..k];
      }
    }
  }

  /** Where each of some entries begins, the first beginning at `at`. */
  function PositionsFrom(entries: seq<Entry>, at: nat): seq<nat> {
    if entries == [] then [] else [at] + PositionsFrom(entries[1..], at + |entries[0]|)
  }

  lemma {:induction false} PositionsFromAre(entries: seq<Entry>, at: nat, i: nat)
    requires i < |entries|
    ensures |PositionsFrom(entries, at)| == |entries|
    ensures PositionsFrom(entries, at)[i] == at + Position(entries, i)
  {
    if i == 0 {
      assert entries[..0] == [];
      if |entries| > 1 {
        PositionsFromAre(entries[1..], at + |entries[0]|, 0);
      }
    } else {
      PositionsFromAre(entries[1..], at + |entries[0]|, i - 1);
      assert entries[..i][1..] == entries[1..][..i - 1];
    }
  }

  lemma PositionsAgree(entries: seq<Entry>)
    ensures PositionsFrom(entries, OFFSET_SIZE) == Positions(entries)
  {
    if entries != [] {
      PositionsFromAre(entries, OFFSET_SIZE, 0);
    }
    forall i | 0 <= i < |entries|
      ensures PositionsFrom(entries, OFFSET_SIZE)[i] == Positions(entries)[i]
    {
      PositionsFromAre(entries, OFFSET_SIZE, i);
    }
  }

  /** The bytes from `at` on are the first `n` bytes of the entries. */
  ghost predicate Begins(contents: seq<byte>, at: nat, entries: seq<Entry>, n: nat) {
    at + n == |contents| && n <= |Flatten(entries)| && contents[at..] == Flatten(entries)[..n]
  }

  lemma BeginsRest(contents: seq<byte>, at: nat, entries: seq<Entry>, n: nat)
    requires Begins(contents, at, entries, n) && entries != []
    ensures n >= |entries[0]| ==>
      contents[at..at + |entries[0]|] == entries[0] && Begins(contents, at + |entries[0]|, entries[1..], n - |entries[0]|)
    ensures n < |entries[0]| ==> contents[at..] == entries[0][..n]
  {
    var e, rest := entries[0], Flatten(entries[1..]);
    assert Flatten(entries) == e + rest;
    hide Flatten;
    if n >= |e| {
      Divided(contents[at..], e, rest, n);
      assert contents[at..at + |e|] == contents[at..][..|e|];
      assert contents[at + |e|..] == contents[at..][|e|..];
    } else {
      assert (e + rest)[..n] == e[..n];
    }
  }

  lemma Divided(s: seq<byte>, a: seq<byte>, b: seq<byte>, n: nat)
    requires |a| <= n <= |a| + |b| && s == (a + b)[..n]
    ensures s[..|a|] == a && s[|a|..] == b[..n - |a|]
  {
  }

  lemma {:induction false} ScanFinds(contents: seq<byte>, at: nat, entries: seq<Entry>, n: nat)
    requires AllFramed(entries) && Begins(contents, at, entries, n)
    ensures var kept := entries[..Whole(entries, n)];
      Scan(contents, at) == (PositionsFrom(kept, at), at + |Flatten(kept)|)
    decreases |entries|
  {
    hide Framed, Begins;
    var k := Whole(entries, n);
    if entries == [] {
      NothingLeft(contents, at, n);
    } else {
      var e, rest := entries[0], entries[1..];
      BeginsRest(contents, at, entries, n);
      Lengths(contents, at, entries, n);
      EntryRead(contents, at, e);
      hide DecodeLE;
      ScanStep(contents, at);
      if n < |e| {
        assert entries[..0] == [];
      } else {
        LongEnough(e);
        assert forall i :: 0 <= i < |rest| ==> rest[i] == entries[i + 1];
        ScanFinds(contents, at + |e|, rest, n - |e|);
        assert entries[..k][0] == e && entries[..k][1..] == rest[..k - 1];
      }
    }
  }

  lemma LongEnough(e: Entry)
    requires Framed(e)
    ensures |e| >= HEADER_SIZE
  {
  }

  lemma Lengths(contents: seq<byte>, at: nat, entries: seq<Entry>, n: nat)
    requires Begins(contents, at, entries, n)
    ensures at + n == |contents|
  {
  }

  lemma NothingLeft(contents: seq<byte>, at: nat, n: nat)
    requires Begins(contents, at, [], n)
    ensures n == 0 && Scan(contents, at) == ([], at)
  {
  }

  /**
  A file that was not completed, cut at any byte after its header, yields exactly its whole entries: their
  positions, and the offset at which the last of them ends.
  */
  lemma TornReopens(entries: seq<Entry>, n: nat)
    requires AllFramed(entries) && OFFSET_SIZE <= n <= |OpenBytes(entries)|
    ensures var kept := entries[..Whole(entries, n - OFFSET_SIZE)];
      Reopen(OpenBytes(entries)[..n]) == Some(Opened(OFFSET_SIZE + |Flatten(kept)|, Positions(kept), false))
  {
    hide DecodeLE, Flatten, Scan, Positions, AllFramed, Whole;
    var contents := OpenBytes(entries)[..n];
    assert contents[..OFFSET_SIZE] == Zeros(OFFSET_SIZE);
    DecodeZeros(OFFSET_SIZE);
    assert contents[OFFSET_SIZE..] == Flatten(entries)[..n - OFFSET_SIZE];
    ScanFinds(contents, OFFSET_SIZE, entries, n - OFFSET_SIZE);
    PositionsAgree(entries[..Whole(entries, n - OFFSET_SIZE)]);
  }

  // ----- Files cut short in the table of positions

  /** Scanning goes through whole entries to whatever follows them. */
  lemma {:induction false} ScanThrough(contents: seq<byte>, at: nat, entries: seq<Entry>)
    requires AllFramed(entries) && at + |Flatten(entries)| <= |contents|
    requires contents[at..at + |Flatten(entries)|] == Flatten(entries)
    ensures var (positions, end) := Scan(contents, at + |Flatten(entries)|);
      Scan(contents, at) == (PositionsFrom(entries, at) + positions, end)
    decreases |entries|
  {
    hide Framed, Flatten, SizeAt, Scan;
    if entries == [] {
      FlattenNone<byte>();
      assert [] + Scan(contents, at).0 == Scan(contents, at).0;
    } else {
      var e, rest := entries[0], entries[1..];
      FlattenFirst(entries);
      ThroughFirst(contents, at, e, Flatten(rest));
      LongEnough(e);
      assert forall i :: 0 <= i < |rest| ==> rest[i] == entries[i + 1];
      ScanStep(contents, at);
      ScanThrough(contents, at + |e|, rest);
      var after := Scan(contents, at + |e| + |Flatten(rest)|).0;
      assert [at] + (PositionsFrom(rest, at + |e|) + after) == [at] + PositionsFrom(rest, at + |e|) + after;
    }
  }

  lemma ThroughFirst(contents: seq<byte>, at: nat, e: Entry, rest: seq<byte>)
    requires Framed(e) && at + |e| + |rest| <= |contents| && contents[at..at + |e| + |rest|] == e + rest
    ensures contents[at..at + |e|] == e && contents[at + |e|..at + |e| + |rest|] == rest
    ensures at + HEADER_SIZE <= |contents| && SizeAt(contents, at) == |e|
  {
    hide DecodeLE;
    var both := contents[at..at + |e| + |rest|];
    assert contents[at..at + |e|] == both[..|e|] == e;
    assert contents[at + |e|..at + |e| + |rest|] == both[|e|..] == rest;
    EntryRead(contents, at, e);
  }

  /** The size that the first two positions of a table, read as the header of an entry, seem to give. */
  lemma TableAsHeader(p: nat)
    requires p < Pow256(POSITION_SIZE)
    ensures var bytes := EncodeLE(OFFSET_SIZE, POSITION_SIZE) + EncodeLE(p, POSITION_SIZE);
      DecodeLE(bytes[2..HEADER_SIZE]) == 0x1_0000 * p
  {
    var low, high := EncodeLE(OFFSET_SIZE, POSITION_SIZE), EncodeLE(p, POSITION_SIZE);
    EightEncoded();
    assert (low + high)[2..HEADER_SIZE] == [0, 0] + high;
    EncodeDecode(p, POSITION_SIZE);
    hide EncodeLE, Pow256;
    assert ([0, 0] + high)[1..] == [0] + high && ([0] + high)[1..] == high;
  }

  lemma EightEncoded()
    ensures EncodeLE(OFFSET_SIZE, POSITION_SIZE) == [8, 0, 0, 0]
  {
    assert EncodeLE(0, 1) == [0] + EncodeLE(0, 0) == [0];
    assert EncodeLE(0, 2) == [0] + EncodeLE(0, 1) == [0, 0];
    assert EncodeLE(0, 3) == [0] + EncodeLE(0, 2) == [0, 0, 0];
  }

  lemma TableStarts(positions: seq<nat>, j: nat)
    requires HEADER_SIZE <= j <= |Table(positions)|
    ensures |positions| >= 2
    ensures Table(positions)[..j][..HEADER_SIZE] ==
      EncodeLE(positions[0], POSITION_SIZE) + EncodeLE(positions[1], POSITION_SIZE)
  {
    hide EncodeLE;
    var a, b, rest := EncodeLE(positions[0], POSITION_SIZE), EncodeLE(positions[1], POSITION_SIZE), Table(positions[2..]);
    assert positions[1..][1..] == positions[2..];
    assert Table(positions) == a + (b + rest);
  }

  /** What a scan makes of the beginning of a table at the end of the file. */
  lemma ScanTable(contents: seq<byte>, at: nat, positions: seq<nat>, j: nat)
    requires j <= |Table(positions)| && at + j == |contents| && contents[at..] == Table(positions)[..j]
    requires positions != [] ==> positions[0] == OFFSET_SIZE
    requires |positions| > 1 ==> positions[1] < Pow256(POSITION_SIZE)
    ensures Scan(contents, at).0 == [] <==> |positions| < 2 || j < HEADER_SIZE + 0x1_0000 * positions[1]
    ensures Scan(contents, at).0 == [] ==> Scan(contents, at).1 == at
  {
    hide EncodeLE, DecodeLE, Pow256, Table;
    ScanStep(contents, at);
    if j >= HEADER_SIZE {
      TableStarts(positions, j);
      TableAsHeader(positions[1]);
      assert contents[at + 2..at + HEADER_SIZE] == contents[at..][..HEADER_SIZE][2..HEADER_SIZE];
    } else {
      assert |positions| > 1 ==> 0x1_0000 * positions[1] >= 0;
    }
  }

  /**
  A file cut short while its table was being written yields its entries, and nothing after them if and only if what
  there is of the table is shorter than the entry that the first two positions seem to announce.
  */
  lemma TornTableReopens(entries: seq<Entry>, j: nat)
    requires AllFramed(entries) && j <= |Table(Positions(entries))|
    requires |entries| > 1 ==> Positions(entries)[1] < Pow256(POSITION_SIZE)
    ensures var r := Reopen(OpenBytes(entries) + Table(Positions(entries))[..j]);
      var exact := |entries| < 2 || j < HEADER_SIZE + 0x1_0000 * Positions(entries)[1];
      && r.Some? && (if exact then r.value.positions == Positions(entries) else Positions(entries) < r.value.positions)
      && (r == Some(Opened(OFFSET_SIZE + |Flatten(entries)|, Positions(entries), false)) <==> exact)
  {
    hide DecodeLE, Flatten, Scan, AllFramed, Table, Pow256;
    var flat, table := Flatten(entries), Table(Positions(entries))[..j];
    var contents, end := OpenBytes(entries) + table, OFFSET_SIZE + |flat|;
    assert contents[..OFFSET_SIZE] == Zeros(OFFSET_SIZE);
    DecodeZeros(OFFSET_SIZE);
    assert contents[OFFSET_SIZE..end] == flat && contents[end..] == table;
    ScanThrough(contents, OFFSET_SIZE, entries);
    PositionsAgree(entries);
    FirstPosition(entries);
    ScanTable(contents, end, Positions(entries), j);
    hide Positions;
    var more := Scan(contents, end).0;
    assert Positions(entries) + more == Positions(entries) <==> more == [];
  }

  /** An entry that is nothing but a header. */
  lemma BareEntry()
    ensures Framed(Zeros(HEADER_SIZE))
  {
    assert Zeros(HEADER_SIZE)[2..HEADER_SIZE] == Zeros(6);
    DecodeZeros(6);
  }

  /** It takes many entries: with 300000 of the smallest, cut in the middle of the table, more are found than there
      were. */
  lemma TornTableMisread()
    ensures var entries := seq(300000, _ => Zeros(HEADER_SIZE));
      && 1048584 <= |Table(Positions(entries))|
      && var r := Reopen(OpenBytes(entries) + Table(Positions(entries))[..1048584]);
      r.Some? && Positions(entries) < r.value.positions
  {
    hide Table, Reopen, Flatten, Framed;
    var entries := seq(300000, _ => Zeros(HEADER_SIZE));
    BareEntry();
    SecondPosition(entries);
    Pow256Values();
    TornTableReopens(entries, 1048584);
  }

  lemma SecondPosition(entries: seq<Entry>)
    requires |entries| > 1
    ensures Positions(entries)[1] == OFFSET_SIZE + |entries[0]|
  {
    assert entries[..1] == [entries[0]];
    FlattenOne(entries[0]);
  }

  lemma FirstPosition(entries: seq<Entry>)
    ensures entries != [] ==> Positions(entries)[0] == OFFSET_SIZE
  {
    assert entries[..0] == [];
  }

  lemma KeptInFile(entries: seq<Entry>, n: nat)
    requires OFFSET_SIZE <= n <= |OpenBytes(entries)|
    ensures Holds(OpenBytes(entries)[..n], entries[..Whole(entries, n - OFFSET_SIZE)], false)
  {
    hide Flatten, Whole, Holds;
    var k := Whole(entries, n - OFFSET_SIZE);
    WholeMaximal(entries, n - OFFSET_SIZE);
    OpenBytesDivided(entries, k);
    PrefixCut(OpenBytes(entries[..k]), Flatten(entries[k..]), n);
    HoldsPrefix(OpenBytes(entries)[..n], entries[..k]);
  }

  lemma HoldsPrefix(contents: seq<byte>, entries: seq<Entry>)
    requires OpenBytes(entries) <= contents
    ensures Holds(contents, entries, false)
  {
  }

  lemma OpenBytesDivided(entries: seq<Entry>, k: nat)
    requires k <= |entries|
    ensures OpenBytes(entries) == OpenBytes(entries[..k]) + Flatten(entries[k..])
  {
    hide Flatten;
    assert entries == entries[..k] + entries[k..];
    FlattenConcat(entries[..k], entries[k..]);
    var a, b := Flatten(entries[..k]), Flatten(entries[k..]);
    assert Zeros(OFFSET_SIZE) + (a + b) == Zeros(OFFSET_SIZE) + a + b;
  }

  lemma PrefixCut(a: seq<byte>, b: seq<byte>, n: nat)
    requires |a| <= n <= |a| + |b|
    ensures a <= (a + b)[..n]
  {
  }

  /**
  Recovering a file that was cut short: it is reopened and then truncated at its last whole entry, so that it
  holds the whole entries and nothing else; without any, it is deleted.
  */
  method RecoverFile(startIdx: Idx, contents: seq<byte>, ghost entries: seq<Entry>) returns (f: Option<LedgerFile>)
    requires AllFramed(entries)
    requires OFFSET_SIZE <= |contents| <= |OpenBytes(entries)| && contents == OpenBytes(entries)[..|contents|]
    ensures var kept := entries[..Whole(entries, |contents| - OFFSET_SIZE)];
      && (f.None? <==> kept == [])
      && (f.Some? ==>
        && f.value.Valid() && f.value.State() == Chunk(startIdx, kept, false, false)
        && f.value.contents == OpenBytes(kept))
  {
    hide AllFramed, Whole, Flatten, Positions, Holds, Reopen, OpenBytes;
    ghost var kept := entries[..Whole(entries, |contents| - OFFSET_SIZE)];
    TornReopens(entries, |contents|);
    KeptInFile(entries, |contents|);
    var o := OpenFile(contents);
    var file := new LedgerFile.Reopened(startIdx, contents, o.value.totalLen, o.value.positions, o.value.completed, kept);
    assert file.State().entries == kept;
    assert kept[..|kept|] == kept;
    var deleted := file.Truncate(file.LastIdx());
    f := if deleted.value then None else Some(file);
  }
}
