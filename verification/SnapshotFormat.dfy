/** Which bytes are a snapshot of which entries, whatever the bytes that fill them up. */
module SnapshotFormat {
  import opened Bytes
  import opened Options
  import opened MapSerializers

  lemma FirstByte(b: byte, n: nat)
    ensures (b + 256 * n) % 256 == b && (b + 256 * n) / 256 == n
  {
  }

  lemma {:induction false} DecodeEncode(s: seq<byte>)
    ensures EncodeLE(DecodeLE(s), |s|) == s
  {
    if s != [] {
      var rest := s[1..];
      FirstByte(s[0], DecodeLE(rest));
      DecodeEncode(rest);
      assert s == [s[0]] + rest;
    }
  }

  /** Blocks are filled up to the next multiple of eight bytes, and no further. */
  lemma PaddedLeast(size: nat, m: nat)
    ensures Padded(size) % 8 == 0 && size <= Padded(size)
    ensures m % 8 == 0 && size <= m ==> Padded(size) <= m
  {
  }

  /** The data begins with the block, its length before it and as many bytes of any kind after it as fill it up. */
  ghost predicate IsBlock(data: seq<byte>, block: seq<byte>, fill: seq<byte>, rest: seq<byte>) {
    && |block| < 0x1_0000_0000_0000_0000 && |fill| == Padding(8 + |block|)
    && data == ((EncodeLE(|block|, 8) + block) + fill) + rest
  }

  ghost predicate BeginsWith(data: seq<byte>, block: seq<byte>, rest: seq<byte>) {
    exists fill :: IsBlock(data, block, fill, rest)
  }

  lemma BlockIff(data: seq<byte>, block: seq<byte>, rest: seq<byte>)
    ensures ReadBlock(data) == Some((block, rest)) <==> BeginsWith(data, block, rest)
  {
    hide EncodeLE, DecodeLE, Padding;
    if BeginsWith(data, block, rest) {
      var fill :| IsBlock(data, block, fill, rest);
      Layout(EncodeLE(|block|, 8), block, fill, rest);
      Pow256Values();
      EncodeDecode(|block|, 8);
      BlockRead(data, |block|);
    }
    if ReadBlock(data) == Some((block, rest)) {
      var used := 8 + |block|;
      var fill := data[used..used + Padding(used)];
      Decode64(data[..8]);
      DecodeEncode(data[..8]);
      Rejoined(data, 8, used, used + Padding(used));
      assert IsBlock(data, block, fill, rest);
    }
  }

  lemma Rejoined(data: seq<byte>, a: nat, b: nat, c: nat)
    requires a <= b <= c <= |data|
    ensures data == ((data[..a] + data[a..b]) + data[b..c]) + data[c..]
  {
  }

  ghost predicate EntryAt(data: seq<byte>, e: StoreEntry, mid: seq<byte>, rest: seq<byte>) {
    && e.value.readVersion == 0
    && BeginsWith(data, e.key, mid) && BeginsWith(mid, ValueBytes(e), rest)
  }

  ghost predicate BeginsWithEntry(data: seq<byte>, e: StoreEntry, rest: seq<byte>) {
    exists mid :: EntryAt(data, e, mid, rest)
  }

  function ValueBytes(e: StoreEntry): seq<byte> {
    EncodeLE(e.value.version, 8) + e.value.value
  }

  lemma ValueIs(value: seq<byte>, e: StoreEntry)
    ensures value == ValueBytes(e) <==>
      |value| >= 8 && DecodeLE(value[..8]) == e.value.version && value[8..] == e.value.value
  {
    hide EncodeLE, DecodeLE;
    if value == ValueBytes(e) {
      assert value[..8] == EncodeLE(e.value.version, 8);
      Pow256Values();
      EncodeDecode(e.value.version, 8);
    }
    if |value| >= 8 && DecodeLE(value[..8]) == e.value.version && value[8..] == e.value.value {
      DecodeEncode(value[..8]);
      assert value == value[..8] + value[8..];
    }
  }

  lemma EntryIff(data: seq<byte>, e: StoreEntry, rest: seq<byte>)
    ensures ReadEntry(data) == Some((e, rest)) <==> BeginsWithEntry(data, e, rest)
  {
    hide EncodeLE, DecodeLE, ReadBlock, BeginsWith, ValueBytes;
    if BeginsWithEntry(data, e, rest) {
      var mid :| EntryAt(data, e, mid, rest);
      BlockIff(data, e.key, mid);
      BlockIff(mid, ValueBytes(e), rest);
      ValueIs(ValueBytes(e), e);
    }
    if ReadEntry(data) == Some((e, rest)) {
      var mid := ReadBlock(data).value.1;
      var value := ReadBlock(mid).value.0;
      BlockIff(data, e.key, mid);
      ValueIs(value, e);
      BlockIff(mid, value, rest);
      assert EntryAt(data, e, mid, rest);
    }
  }

  /** The bytes are a snapshot of the entries. */
  ghost predicate IsSnapshot(data: seq<byte>, entries: seq<StoreEntry>)
    decreases |entries|
  {
    if entries == [] then data == []
    else exists rest :: BeginsWithEntry(data, entries[0], rest) && IsSnapshot(rest, entries[1..])
  }

  /** Reading accepts exactly the snapshots of some entries, and gives these: any other bytes are rejected. */
  lemma {:induction false} ReadIff(data: seq<byte>, entries: seq<StoreEntry>)
    ensures ReadAll(data) == Some(entries) <==> IsSnapshot(data, entries)
    decreases |data|
  {
    hide ReadEntry, BeginsWithEntry;
    if data == [] {
      if entries != [] && IsSnapshot(data, entries) {
        var rest :| BeginsWithEntry(data, entries[0], rest) && IsSnapshot(rest, entries[1..]);
        EntryIff(data, entries[0], rest);
      }
    } else if entries != [] {
      if ReadEntry(data).Some? {
        var (e, rest) := ReadEntry(data).value;
        EntryIff(data, e, rest);
        ReadIff(rest, entries[1..]);
      }
      if IsSnapshot(data, entries) {
        var rest :| BeginsWithEntry(data, entries[0], rest) && IsSnapshot(rest, entries[1..]);
        EntryIff(data, entries[0], rest);
        ReadIff(rest, entries[1..]);
        assert entries == [entries[0]] + entries[1..];
      }
    }
  }
}
