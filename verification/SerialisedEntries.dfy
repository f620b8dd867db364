/** The entries that the key-value store serialises, as the host's ledger reads them. */
module SerialisedEntries {
  import opened Bytes
  import opened LedgerChunks
  import opened LedgerStore
  import opened LedgerRecovery

  const ENTRY_FORMAT: byte := 1
  const FORCE_LEDGER_CHUNK_AFTER: byte := 0x01
  const FORCE_LEDGER_CHUNK_BEFORE: byte := 0x02

  /** The size has a field of six bytes. */
  const SIZE_SIZE: nat := 6

  function FlagByte(before: bool, after: bool): byte {
    (if before then FORCE_LEDGER_CHUNK_BEFORE else 0) + (if after then FORCE_LEDGER_CHUNK_AFTER else 0)
  }

  /** A header and what follows it; a size that is too large for its field loses its high bits. */
  function Serialised(before: bool, after: bool, domains: seq<byte>): Entry {
    [ENTRY_FORMAT, FlagByte(before, after)] + EncodeLE(|domains| % Pow256(SIZE_SIZE), SIZE_SIZE) + domains
  }

  lemma SerialisedParts(before: bool, after: bool, domains: seq<byte>)
    ensures var e := Serialised(before, after, domains);
      && |e| == ENTRY_HEADER_SIZE + |domains| && e[1] == FlagByte(before, after) && e[ENTRY_HEADER_SIZE..] == domains
      && DecodeLE(e[2..ENTRY_HEADER_SIZE]) == |domains| % Pow256(SIZE_SIZE)
  {
    hide EncodeLE, DecodeLE, Pow256;
    var e, size := Serialised(before, after, domains), |domains| % Pow256(SIZE_SIZE);
    EncodeDecode(size, SIZE_SIZE);
    assert e[2..ENTRY_HEADER_SIZE] == EncodeLE(size, SIZE_SIZE);
  }

  /** The ledger reads the flags as they were set, and recovery frames the entry right exactly if its size fits. */
  lemma SerialisedRead(before: bool, after: bool, domains: seq<byte>)
    ensures var e := Serialised(before, after, domains);
      && |e| >= ENTRY_HEADER_SIZE && ChunkBefore(e) == before && ChunkAfter(e) == after
      && (Framed(e) <==> |domains| < Pow256(SIZE_SIZE))
  {
    hide Serialised, DecodeLE, Pow256;
    SerialisedParts(before, after, domains);
  }

  /**
  So in the ledger, wherever it stands: a transaction that asks for a chunk before it begins one, and one that asks for
  a chunk after it ends one or, if it is not committable, is refused.
  */
  lemma SerialisedChunks(s: Store, before: bool, after: bool, domains: seq<byte>, committable: bool)
    requires Sound(s)
    ensures s.Ready()
    ensures var e := Serialised(before, after, domains);
      var (r, idx) := WroteEntry(s, e, committable);
      && (idx.None? <==> after && !committable)
      && (idx.Some? ==>
        && r.files != []
        && (r.Latest().entries == [e] <==> s.requireNewFile || before)
        && (r.Latest().completed <==> committable && (after || r.Latest().Size() >= s.threshold)))
  {
    hide Serialised, Sound, Framed;
    var e := Serialised(before, after, domains);
    SerialisedRead(before, after, domains);
    SoundReady(s);
    if after ==> committable {
      WriteChunks(s, e, committable);
    }
  }
}
