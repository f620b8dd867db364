/**
A ledger chunk: consecutive entries of the log that share a file.  These functions say what each operation
on the file does to the chunk; the file itself is in `LedgerFiles`.
*/
module LedgerChunks {
  import opened Bytes
  import opened Options
  import opened Sequences

  type Entry = seq<byte>

  /** Entries are numbered from 1. */
  type Idx = x: int | x > 0 witness 1

  /** The space at the start of a file for the offset of its position table. */
  const OFFSET_SIZE: nat := 8

  datatype Chunk = Chunk(startIdx: Idx, entries: seq<Entry>, completed: bool, committed: bool) {
    function LastIdx(): nat {
      startIdx + |entries| - 1
    }

    /** The size of the file up to the end of its last entry. */
    function Size(): nat {
      OFFSET_SIZE + |Flatten(entries)|
    }

    predicate Has(from: nat, upto: nat) {
      startIdx <= from <= upto <= LastIdx()
    }

    /** The entries from one index to another, laid end to end. */
    function Range(from: nat, upto: nat): seq<byte>
      requires Has(from, upto)
    {
      Flatten(entries[from - startIdx..upto - startIdx + 1])
    }
  }

  function Written(c: Chunk, entry: Entry): Chunk {
    c.(entries := c.entries + [entry])
  }

  /** The chunk cut back to `idx`, and whether its file was deleted, being left empty. */
  function Truncated(c: Chunk, idx: nat): (Chunk, bool) {
    if c.committed || idx < c.startIdx - 1 || (c.completed && idx >= c.LastIdx()) then (c, false)
    else if idx == c.startIdx - 1 then (c, true)
    else if idx > c.LastIdx() then (c, false)
    else (c.(entries := c.entries[..idx - c.startIdx + 1], completed := false), false)
  }

  function Completed(c: Chunk): Chunk {
    c.(completed := true)
  }

  /** Committing has an effect, and returns true, only for a complete chunk at its last index. */
  function Committed(c: Chunk, idx: nat): (Chunk, bool) {
    if !c.completed || c.committed || idx != c.LastIdx() then (c, false)
    else (c.(committed := true), true)
  }

  /** Truncating leaves a committed chunk alone, and any other unless the index is before its last one and no earlier
      than the one before its first: then it is deleted if nothing is left, and otherwise ends with the index, open. */
  lemma TruncateExactly(c: Chunk, idx: nat)
    ensures var (r, deleted) := Truncated(c, idx);
      && (deleted <==> !c.committed && idx == c.startIdx - 1 && !(c.completed && c.entries == []))
      && (r != c ==> !c.committed && c.startIdx <= idx && !r.completed && (idx < c.LastIdx() || c.completed))
      && (!c.committed && c.startIdx <= idx < c.LastIdx() ==>
        r.LastIdx() == idx && r.entries <= c.entries && !r.completed && !r.committed && r.startIdx == c.startIdx)
      && (idx >= c.LastIdx() && c.entries != [] ==> r == c)
  {
    if c.startIdx <= idx < c.LastIdx() {
      assert c.entries[..idx - c.startIdx + 1] <= c.entries;
    }
    assert c.entries[..|c.entries|] == c.entries;
  }

  /** Committing takes effect once. */
  lemma CommitOnce(c: Chunk, i: nat, j: nat)
    ensures var (r, done) := Committed(c, i);
      && (done <==> r != c) && (done <==> c.completed && !c.committed && i == c.LastIdx())
      && (done ==> Committed(r, j) == (r, false) && Truncated(r, j) == (r, false))
  {
  }

  // ----- Reading

  predicate Within(size: nat, maxSize: Option<nat>) {
    maxSize.None? || size <= maxSize.value
  }

  /** The last index of the entries read when at most `maxSize` bytes may be: the range is halved until it fits. */
  function FittingTo(c: Chunk, from: nat, upto: nat, maxSize: Option<nat>): (r: Option<nat>)
    requires c.Has(from, upto)
    ensures r.Some? ==> from <= r.value <= upto
    decreases upto
  {
    if Within(|c.Range(from, upto)|, maxSize) then Some(upto)
    else if from == upto then None
    else FittingTo(c, from, from + (upto - from) / 2, maxSize)
  }

  /** Halving ends at an index, no later than asked for, up to which the entries fit, unless the first alone does not. */
  lemma {:induction false} FittingToFits(c: Chunk, from: nat, upto: nat, maxSize: Option<nat>)
    requires c.Has(from, upto)
    ensures FittingTo(c, from, upto, maxSize).None? <==> !Within(|c.Range(from, from)|, maxSize)
    ensures FittingTo(c, from, upto, maxSize).Some? ==>
      Within(|c.Range(from, FittingTo(c, from, upto, maxSize).value)|, maxSize)
    ensures maxSize.None? ==> FittingTo(c, from, upto, maxSize) == Some(upto)
    decreases upto
  {
    hide Flatten;
    if Within(|c.Range(from, upto)|, maxSize) {
      RangeGrows(c, from, from, upto);
    } else if from < upto {
      FittingToFits(c, from, from + (upto - from) / 2, maxSize);
    }
  }

  /** `n` halved `k` times. */
  function Halved(n: nat, k: nat): nat {
    if k == 0 then n else Halved(n / 2, k - 1)
  }

  /** The range halved `j` times does not fit. */
  ghost predicate TooLong(c: Chunk, from: nat, upto: nat, maxSize: Option<nat>, j: nat)
    requires c.Has(from, upto)
  {
    from + Halved(upto - from, j) <= upto && !Within(|c.Range(from, from + Halved(upto - from, j))|, maxSize)
  }

  /** The range, halved `k` times and not less, fits. */
  ghost predicate FitsHalved(c: Chunk, from: nat, upto: nat, maxSize: Option<nat>, last: nat, k: nat)
    requires c.Has(from, upto)
  {
    && last == from + Halved(upto - from, k) <= upto && Within(|c.Range(from, last)|, maxSize)
    && forall j :: 0 <= j < k ==> TooLong(c, from, upto, maxSize, j)
  }

  /** What is kept is the range halved no more often than it takes. */
  lemma {:induction false} FittingHalved(c: Chunk, from: nat, upto: nat, maxSize: Option<nat>) returns (k: nat)
    requires c.Has(from, upto) && FittingTo(c, from, upto, maxSize).Some?
    ensures FitsHalved(c, from, upto, maxSize, FittingTo(c, from, upto, maxSize).value, k)
    decreases upto
  {
    hide Chunk.Range;
    if Within(|c.Range(from, upto)|, maxSize) {
      k := 0;
    } else {
      var half, last := from + (upto - from) / 2, FittingTo(c, from, upto, maxSize).value;
      var k' := FittingHalved(c, from, half, maxSize);
      k := k' + 1;
      forall j | 0 <= j < k
        ensures TooLong(c, from, upto, maxSize, j)
      {
        if j > 0 {
          assert TooLong(c, from, half, maxSize, j - 1);
          assert Halved(upto - from, j) == Halved(half - from, j - 1);
        }
      }
    }
  }

  /** So no index further than twice as far from the first one fits. */
  lemma {:induction false} FittingKeepsHalf(c: Chunk, from: nat, upto: nat, maxSize: Option<nat>, m: nat)
    requires c.Has(from, upto) && from <= m <= upto && Within(|c.Range(from, m)|, maxSize)
    ensures FittingTo(c, from, upto, maxSize).Some?
    ensures m - from <= 2 * (FittingTo(c, from, upto, maxSize).value - from)
    decreases upto
  {
    hide Chunk.Range;
    if !Within(|c.Range(from, upto)|, maxSize) {
      assert from < upto;
      var half := from + (upto - from) / 2;
      if m <= half {
        FittingKeepsHalf(c, from, half, maxSize, m);
      } else {
        RangeGrows(c, from, half, m);
      }
    }
  }

  lemma RangeGrows(c: Chunk, from: nat, mid: nat, upto: nat)
    requires c.Has(from, upto) && from <= mid <= upto
    ensures |c.Range(from, mid)| <= |c.Range(from, upto)|
  {
    var a, b := c.entries[from - c.startIdx..mid - c.startIdx + 1], c.entries[mid - c.startIdx + 1..upto - c.startIdx + 1];
    assert c.entries[from - c.startIdx..upto - c.startIdx + 1] == a + b;
    FlattenConcat(a, b);
  }

  /** The size of the entries that fit and the last index among them, or zeros if there are none. */
  function FittingSize(c: Chunk, from: nat, upto: nat, maxSize: Option<nat>): (nat, nat) {
    if !c.Has(from, upto) then (0, 0)
    else
      match FittingTo(c, from, upto, maxSize)
      case None => (0, 0)
      case Some(last) => (|c.Range(from, last)|, last)
  }

  lemma FittingStep(c: Chunk, from: nat, upto: nat, maxSize: Option<nat>)
    requires c.Has(from, upto)
    ensures FittingSize(c, from, upto, maxSize) ==
      if Within(|c.Range(from, upto)|, maxSize) then (|c.Range(from, upto)|, upto)
      else if from == upto then (0, 0)
      else FittingSize(c, from, from + (upto - from) / 2, maxSize)
  {
    hide Flatten;
  }

  datatype Reading = Reading(bytes: seq<byte>, last: nat)

  /** The bytes of a range of entries and the last index among them. */
  function ReadEntries(c: Chunk, from: nat, upto: nat, maxSize: Option<nat>): Option<Reading> {
    if !c.Has(from, upto) then None
    else
      match FittingTo(c, from, upto, maxSize)
      case None => None
      case Some(last) => if c.Range(from, last) == [] then None else Some(Reading(c.Range(from, last), last))
  }

  /** The size that is found is that of what is read, and zero, with no index, if nothing is. */
  lemma SizeOfRead(c: Chunk, from: nat, upto: nat, maxSize: Option<nat>)
    requires forall e <- c.entries :: e != []
    ensures FittingSize(c, from, upto, maxSize) ==
      match ReadEntries(c, from, upto, maxSize)
      case None => (0, 0)
      case Some(v) => (|v.bytes|, v.last)
  {
    hide Flatten;
    if c.Has(from, upto) && FittingTo(c, from, upto, maxSize).Some? {
      var last := FittingTo(c, from, upto, maxSize).value;
      var first := c.entries[from - c.startIdx..last - c.startIdx + 1];
      assert first[0] in c.entries;
      FlattenFirst(first);
    }
  }
}
