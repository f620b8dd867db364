/** Filling a buffer with the serialised entries of a map, one write after the other. */
module SnapshotBuffers {
  import opened Bytes
  import opened MapSerializers

  /** Writes bytes at the cursor and moves it on, unless there is too little space left. */
  method WriteBytes(buffer: array<byte>, at: nat, bytes: seq<byte>) returns (ok: bool, next: nat)
    requires at <= buffer.Length
    modifies buffer
    ensures ok <==> at + |bytes| <= buffer.Length
    ensures !ok ==> next == at && buffer[..] == old(buffer[..])
    ensures ok ==> next == at + |bytes| && buffer[..next] == old(buffer[..at]) + bytes
  {
    if buffer.Length - at < |bytes| {
      return false, at;
    }
    var i := 0;
    while i < |bytes|
      invariant 0 <= i <= |bytes|
      invariant buffer[..at + i] == old(buffer[..at]) + bytes[..i]
    {
      buffer[at + i] := bytes[i];
      assert bytes[..i + 1] == bytes[..i] + [bytes[i]];
      i := i + 1;
    }
    assert bytes[..i] == bytes;
    return true, at + |bytes|;
  }

  method WriteEntry(buffer: array<byte>, at: nat, e: StoreEntry) returns (ok: bool, next: nat)
    requires at <= buffer.Length
    modifies buffer
    ensures next <= buffer.Length && (ok <==> at + EntrySize(e) <= buffer.Length)
    ensures ok ==> next == at + EntrySize(e) && buffer[..next] == old(buffer[..at]) + SerializeEntry(e)
  {
    ghost var start := buffer[..at];
    var key, value := SerializeKey(e.key), SerializeValue(e.value);
    ok, next := WriteBytes(buffer, at, key);
    if ok {
      ok, next := WriteBytes(buffer, next, Zeros(Padding(|key|)));
    }
    if ok {
      ok, next := WriteBytes(buffer, next, value);
    }
    if ok {
      ok, next := WriteBytes(buffer, next, Zeros(Padding(|value|)));
    }
    if ok {
      assert start + key + Zeros(Padding(|key|)) + value + Zeros(Padding(|value|)) == start + SerializeEntry(e);
    }
  }

  /** Fills the buffer exactly, if it has exactly the serialised size. */
  method Serialize(buffer: array<byte>, entries: seq<StoreEntry>) returns (ok: bool)
    modifies buffer
    ensures ok <==> buffer.Length == |SerializeAll(entries)|
    ensures ok ==> buffer[..] == SerializeAll(entries)
  {
    hide SerializeEntry, EntrySize, SerializeAll;
    var at: nat, i: nat := 0, 0;
    Nothing(entries);
    while i < |entries|
      invariant 0 <= i <= |entries| && at <= buffer.Length
      invariant buffer[..at] == SerializeAll(entries[..i])
    {
      SerializedMore(entries, i);
      ok, at := WriteEntry(buffer, at, entries[i]);
      if !ok {
        return;
      }
      i := i + 1;
    }
    assert entries[..i] == entries;
    ok := at == buffer.Length;
    assert ok ==> buffer[..at] == buffer[..];
  }

  lemma Nothing(entries: seq<StoreEntry>)
    ensures SerializeAll(entries[..0]) == []
  {
  }

  lemma {:induction false} SerializedConcat(a: seq<StoreEntry>, b: seq<StoreEntry>)
    ensures SerializeAll(a + b) == SerializeAll(a) + SerializeAll(b)
  {
    hide SerializeEntry;
    if a == [] {
      assert a + b == b;
    } else {
      assert (a + b)[1..] == a[1..] + b;
      SerializedConcat(a[1..], b);
    }
  }

  lemma SerializedMore(entries: seq<StoreEntry>, i: nat)
    requires i < |entries|
    ensures SerializeAll(entries[..i + 1]) == SerializeAll(entries[..i]) + SerializeEntry(entries[i])
    ensures |SerializeAll(entries)| >= |SerializeAll(entries[..i])| + EntrySize(entries[i])
  {
    var one, rest := [entries[i]], entries[i + 1..];
    assert one[1..] == [];
    assert SerializeAll(one) == SerializeEntry(entries[i]);
    assert entries[..i + 1] == entries[..i] + one && entries == entries[..i + 1] + rest;
    SerializedConcat(entries[..i], one);
    SerializedConcat(entries[..i + 1], rest);
  }
}
