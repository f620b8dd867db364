/**
Serialised map snapshots: every key and value behind its own eight-byte length, padded with zeros
to a multiple of eight bytes.  The entries are those of the key-value store, whose keys are bytes
and whose values carry a version; the read version is not written out.
*/
module MapSerializers {
  import opened Bytes
  import opened Options
  import opened KeyValue

  type Word64 = x: nat | x < 0x1_0000_0000_0000_0000

  type Key = seq<byte>

  datatype Versioned = Versioned(version: Word64, readVersion: Word64, value: seq<byte>)

  type StoreEntry = Entry<Key, Versioned>

  function Padding(size: nat): nat {
    if size % 8 == 0 then 0 else 8 - size % 8
  }

  function Padded(size: nat): nat {
    size + Padding(size)
  }

  function KeySize(k: Key): nat {
    8 + |k|
  }

  function ValueSize(v: Versioned): nat {
    8 + 8 + |v.value|
  }

  // ----- Writing

  function AddPadding(s: seq<byte>): (r: seq<byte>)
    ensures |r| == Padded(|s|)
  {
    s + Zeros(Padding(|s|))
  }

  function SerializeKey(k: Key): (s: seq<byte>)
    ensures |s| == KeySize(k)
  {
    EncodeLE(|k|, 8) + k
  }

  function SerializeValue(v: Versioned): (s: seq<byte>)
    ensures |s| == ValueSize(v)
  {
    EncodeLE(8 + |v.value|, 8) + EncodeLE(v.version, 8) + v.value
  }

  function EntrySize(e: StoreEntry): nat {
    Padded(KeySize(e.key)) + Padded(ValueSize(e.value))
  }

  function SerializeEntry(e: StoreEntry): (s: seq<byte>)
    ensures |s| == EntrySize(e)
  {
    AddPadding(SerializeKey(e.key)) + AddPadding(SerializeValue(e.value))
  }

  function SerializeAll(entries: seq<StoreEntry>): seq<byte> {
    if entries == [] then [] else SerializeEntry(entries[0]) + SerializeAll(entries[1..])
  }

  lemma {:induction false} SerializedLength(entries: seq<StoreEntry>)
    ensures |SerializeAll(entries)| == Total(EntrySize, entries)
  {
    hide SerializeEntry;
    if entries != [] {
      SerializedLength(entries[1..]);
    }
  }

  // ----- Reading

  /** The length fields hold 64 bits. */
  predicate Encodable(e: StoreEntry) {
    |e.key| < 0x1_0000_0000_0000_0000 && 8 + |e.value.value| < 0x1_0000_0000_0000_0000
  }

  /** A length-prefixed block at the front of `data`: its bytes and what follows its padding, or
      nothing where the source's cursor functions throw. */
  function ReadBlock(data: seq<byte>): (r: Option<(seq<byte>, seq<byte>)>)
    ensures r.Some? ==> |r.value.1| < |data|
  {
    if |data| < 8 then None
    else
      var n := DecodeLE(data[..8]);
      if |data| - 8 < n then None
      else
        var used := 8 + n;
        if |data| - used < Padding(used) then None
        else Some((data[8..used], data[used + Padding(used)..]))
  }

  function ReadEntry(data: seq<byte>): (r: Option<(StoreEntry, seq<byte>)>)
    ensures r.Some? ==> |r.value.1| < |data|
  {
    match ReadBlock(data)
    case None => None
    case Some((key, rest)) =>
      match ReadBlock(rest)
      case None => None
      case Some((value, rest2)) =>
        if |value| < 8 then None
        else
          Decode64(value[..8]);
          Some((Entry(key, Versioned(DecodeLE(value[..8]), 0, value[8..])), rest2))
  }

  lemma {:induction false} DecodeBound(s: seq<byte>)
    ensures DecodeLE(s) < Pow256(|s|)
  {
    if s != [] {
      DecodeBound(s[1..]);
    }
  }

  lemma Decode64(s: seq<byte>)
    requires |s| == 8
    ensures DecodeLE(s) < 0x1_0000_0000_0000_0000
  {
    DecodeBound(s);
    Pow256Values();
  }

  function ReadAll(data: seq<byte>): (r: Option<seq<StoreEntry>>)
    decreases |data|
  {
    if data == [] then Some([])
    else
      match ReadEntry(data)
      case None => None
      case Some((e, rest)) =>
        match ReadAll(rest)
        case None => None
        case Some(es) => Some([e] + es)
  }

  /** The entries read before, in front of those still to come. */
  function Before(entries: seq<StoreEntry>, rest: Option<seq<StoreEntry>>): Option<seq<StoreEntry>> {
    match rest
    case None => None
    case Some(es) => Some(entries + es)
  }

  lemma BeforeNothing(rest: Option<seq<StoreEntry>>)
    ensures Before([], rest) == rest
  {
    match rest
    case None =>
    case Some(es) => assert [] + es == es;
  }

  lemma ReadOneMore(entries: seq<StoreEntry>, data: seq<byte>)
    requires data != []
    ensures Before(entries, ReadAll(data)) ==
      match ReadEntry(data)
      case None => None
      case Some((e, rest)) => Before(entries + [e], ReadAll(rest))
  {
    hide ReadEntry;
    if ReadEntry(data).Some? {
      var (e, rest) := ReadEntry(data).value;
      if ReadAll(rest).Some? {
        var es := ReadAll(rest).value;
        assert entries + ([e] + es) == (entries + [e]) + es;
      }
    }
  }

  /** The loop of `deserialize_map`, handing its entries to `put` in order. */
  method DeserializeEntries(state: seq<byte>) returns (r: Option<seq<StoreEntry>>)
    ensures r == ReadAll(state)
  {
    hide ReadEntry;
    var data := state;
    var entries: seq<StoreEntry> := [];
    BeforeNothing(ReadAll(state));
    while |data| != 0
      invariant ReadAll(state) == Before(entries, ReadAll(data))
      decreases |data|
    {
      ReadOneMore(entries, data);
      var next := ReadEntry(data);
      if next.None? {
        return None;
      }
      entries := entries + [next.value.0];
      data := next.value.1;
    }
    assert entries + [] == entries;
    return Some(entries);
  }

  // ----- Round trip

  lemma Layout(head: seq<byte>, block: seq<byte>, pad: seq<byte>, rest: seq<byte>)
    ensures var data := ((head + block) + pad) + rest;
      && data[..|head|] == head
      && data[|head|..|head| + |block|] == block
      && data[|head| + |block| + |pad|..] == rest
  {
  }

  lemma BlockRead(data: seq<byte>, n: nat)
    requires |data| >= 8 && DecodeLE(data[..8]) == n && 8 + n + Padding(8 + n) <= |data|
    ensures ReadBlock(data) == Some((data[8..8 + n], data[8 + n + Padding(8 + n)..]))
  {
    hide DecodeLE, Padding;
  }

  lemma Padding8(s: seq<byte>)
    ensures AddPadding(s) == s + Zeros(Padding(|s|))
  {
    hide Padding;
  }

  lemma ReadBack(block: seq<byte>, rest: seq<byte>)
    requires |block| < 0x1_0000_0000_0000_0000
    ensures ReadBlock(AddPadding(EncodeLE(|block|, 8) + block) + rest) == Some((block, rest))
  {
    hide *;
    var head := EncodeLE(|block|, 8);
    var pad := Zeros(Padding(|head + block|));
    Padding8(head + block);
    Layout(head, block, pad, rest);
    Pow256Values();
    EncodeDecode(|block|, 8);
    BlockRead(((head + block) + pad) + rest, |block|);
  }

  /** The read version does not survive. */
  function Forget(e: StoreEntry): StoreEntry {
    e.(value := e.value.(readVersion := 0))
  }

  function ForgetAll(entries: seq<StoreEntry>): (r: seq<StoreEntry>)
    ensures |r| == |entries|
    ensures forall i :: 0 <= i < |entries| ==> r[i] == Forget(entries[i])
  {
    seq(|entries|, i requires 0 <= i < |entries| => Forget(entries[i]))
  }

  lemma EntryReadBack(e: StoreEntry, rest: seq<byte>)
    requires Encodable(e)
    ensures ReadEntry(SerializeEntry(e) + rest) == Some((Forget(e), rest))
  {
    hide EncodeLE, DecodeLE, ReadBlock, AddPadding;
    var value := EncodeLE(e.value.version, 8) + e.value.value;
    assert EncodeLE(8 + |e.value.value|, 8) + EncodeLE(e.value.version, 8) + e.value.value ==
           EncodeLE(|value|, 8) + value;
    ReadBack(e.key, AddPadding(SerializeValue(e.value)) + rest);
    ReadBack(value, rest);
    assert SerializeEntry(e) + rest ==
           AddPadding(SerializeKey(e.key)) + (AddPadding(SerializeValue(e.value)) + rest);
    assert value[..8] == EncodeLE(e.value.version, 8) && value[8..] == e.value.value;
    Pow256Values();
    EncodeDecode(e.value.version, 8);
  }

  /** Reading a snapshot gives back the entries that were written, in order, without their read
      versions. */
  lemma {:induction false} RoundTrip(entries: seq<StoreEntry>)
    requires forall i :: 0 <= i < |entries| ==> Encodable(entries[i])
    ensures ReadAll(SerializeAll(entries)) == Some(ForgetAll(entries))
  {
    hide SerializeEntry, ReadEntry, Forget;
    if entries != [] {
      RoundTrip(entries[1..]);
      EntryReadBack(entries[0], SerializeAll(entries[1..]));
      assert ForgetAll(entries) == [Forget(entries[0])] + ForgetAll(entries[1..]);
      assert |SerializeEntry(entries[0])| > 0;
    }
  }
}
