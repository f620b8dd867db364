/**
Messages too large for one ring buffer message, sent as fragments: the first carries the message's
identifier, type and total size, every later one the identifier.
*/
module Oversized {
  import opened Bytes
  import opened Options
  import opened RingWriters

  const HEADER_SIZE: nat := 20
  const ID_SIZE: nat := 8

  /** The ring buffer message type of a fragment: some constant. */
  const FRAGMENT: nat := 1

  function Min(a: nat, b: nat): nat {
    if a <= b then a else b
  }

  function Header(id: nat, m: nat, total: nat): (h: seq<byte>)
    ensures |h| == HEADER_SIZE
  {
    EncodeLE(id, 8) + EncodeLE(m, 4) + EncodeLE(total, 8)
  }

  // ----- What an oversized message has emitted so far

  /** The fragments finished, the contents of the one being written, and the space left in it. */
  datatype Emission = Emission(done: seq<seq<byte>>, open: seq<byte>, remainder: nat) {
    function Fragments(): seq<seq<byte>> {
      done + [open]
    }
  }

  function Opened(id: nat, m: nat, total: nat, maxFragment: nat): Emission
    requires maxFragment > HEADER_SIZE
  {
    Emission([], Header(id, m, total), maxFragment - HEADER_SIZE)
  }

  /** Further fragments, as large as possible, until the bytes of this call are used up. */
  function More(e: Emission, id: nat, maxFragment: nat, bytes: seq<byte>): Emission
    requires maxFragment > HEADER_SIZE
    decreases |bytes|
  {
    if bytes == [] then e
    else
      var n := Min(|bytes| + ID_SIZE, maxFragment) - ID_SIZE;
      More(Emission(e.done + [e.open], EncodeLE(id, ID_SIZE) + bytes[..n], 0), id, maxFragment, bytes[n..])
  }

  function Filled(e: Emission, bytes: seq<byte>): Emission
    requires |bytes| <= e.remainder
  {
    e.(open := e.open + bytes, remainder := e.remainder - |bytes|)
  }

  function Wrote(e: Emission, id: nat, maxFragment: nat, bytes: seq<byte>): Emission
    requires maxFragment > HEADER_SIZE
  {
    var n := Min(|bytes|, e.remainder);
    More(Filled(e, bytes[..n]), id, maxFragment, bytes[n..])
  }

  function WroteAll(e: Emission, id: nat, maxFragment: nat, parts: seq<seq<byte>>): Emission
    requires maxFragment > HEADER_SIZE
    decreases |parts|
  {
    if parts == [] then e else WroteAll(Wrote(e, id, maxFragment, parts[0]), id, maxFragment, parts[1..])
  }

  // ----- The writer

  datatype Progress = Progress(slot: nat, identifier: nat, remainder: nat)

  datatype Outcome = Returns(marker: Option<Marker>) | Throws

  class Writer {
    const underlying: RingWriter
    const maxFragmentSize: nat
    const maxTotalSize: nat
    var progress: Option<Progress>

    /** The slots holding the fragments of the message being written, in order. */
    ghost var mine: seq<nat>

    ghost predicate Valid()
      reads this, underlying
    {
      && underlying.Valid()
      && HEADER_SIZE < maxFragmentSize < maxTotalSize
      && (progress.Some? ==>
        && Writing(underlying.slots, mine, progress.value)
        && Acceptable(FRAGMENT, maxFragmentSize, underlying.capacity))
    }

    static ghost predicate Writing(slots: seq<Slot>, mine: seq<nat>, p: Progress) {
      && mine != [] && p.slot == mine[|mine| - 1]
      && (forall i :: 0 <= i < |mine| ==> mine[i] < |slots|)
      && (forall i, j :: 0 <= i < j < |mine| ==> mine[i] < mine[j])
      && (forall i :: 0 <= i < |mine| ==> slots[mine[i]].msg == FRAGMENT && (slots[mine[i]].finished <==> i < |mine| - 1))
      && (forall i :: 0 <= i < |mine| - 1 ==> slots[mine[i]].size == |slots[mine[i]].data|)
      && slots[p.slot].size == |slots[p.slot].data| + p.remainder
      && slots[mine[0]].id == p.identifier
    }

    static ghost function Contents(slots: seq<Slot>, mine: seq<nat>): (r: seq<seq<byte>>)
      requires forall i :: 0 <= i < |mine| ==> mine[i] < |slots|
      ensures |r| == |mine|
    {
      seq(|mine|, i requires 0 <= i < |mine| => slots[mine[i]].data)
    }

    static ghost function EmissionOf(slots: seq<Slot>, mine: seq<nat>, p: Progress): Emission
      requires Writing(slots, mine, p)
    {
      Emission(Contents(slots, mine[..|mine| - 1]), slots[p.slot].data, p.remainder)
    }

    ghost function Emitted(): Emission
      requires Valid() && progress.Some?
      reads this, underlying
    {
      EmissionOf(underlying.slots, mine, progress.value)
    }

    /** Every slot that is not one of this message's is as it was. */
    static ghost predicate OthersKept(before: seq<Slot>, after: seq<Slot>, mine: seq<nat>) {
      |before| <= |after| && forall i :: 0 <= i < |before| && i !in mine ==> after[i] == before[i]
    }

    constructor (writer: RingWriter, f: nat, t: nat)
      requires writer.Valid() && HEADER_SIZE < f < t
      ensures Valid() && progress == None && underlying == writer
      ensures maxFragmentSize == f && maxTotalSize == t
    {
      underlying, maxFragmentSize, maxTotalSize, progress, mine := writer, f, t, None, [];
    }

    /** A writer, unless the fragment size leaves no room for payload or is not below the total. */
    static method Create(writer: RingWriter, f: nat, t: nat) returns (w: Option<Writer>)
      requires writer.Valid()
      ensures w.Some? <==> HEADER_SIZE < f < t
      ensures w.Some? ==>
        && fresh(w.value) && w.value.Valid() && w.value.progress == None && w.value.underlying == writer
        && w.value.maxFragmentSize == f && w.value.maxTotalSize == t
    {
      if f >= t || f <= HEADER_SIZE {
        return None;
      }
      var writer' := new Writer(writer, f, t);
      w := Some(writer');
    }

    method Prepare(m: nat, total: nat, wait: bool) returns (r: Outcome, id: nat)
      requires Valid()
      modifies this, underlying
      ensures Valid()
      ensures r.Throws? <==>
        || old(progress.Some?)
        || (total <= maxFragmentSize && !Acceptable(m, total, underlying.capacity))
        || (total > maxFragmentSize &&
             (total > maxTotalSize || !wait || !Acceptable(FRAGMENT, maxFragmentSize, underlying.capacity)))
      ensures r.Throws? ==> progress == old(progress) && underlying.slots == old(underlying.slots)
      ensures r.Returns? && total <= maxFragmentSize ==>
        && progress == None && (r.marker.None? ==> !wait && underlying.refusals > old(underlying.refusals))
        && (r.marker.Some? ==> r.marker.value == Marker(|old(underlying.slots)|, 0))
        && underlying.slots == old(underlying.slots) + if r.marker.None? then [] else [Slot(id, m, total, [], false)]
      ensures r.Returns? && total > maxFragmentSize ==>
        && progress == Some(Progress(|old(underlying.slots)|, id, maxFragmentSize - HEADER_SIZE))
        && r == Returns(Some(Marker(|old(underlying.slots)|, HEADER_SIZE)))
        && Emitted() == Opened(id, m, total, maxFragmentSize)
        && underlying.slots[..|old(underlying.slots)|] == old(underlying.slots)
    {
      id := 0;
      if progress.Some? {
        return Throws, id;
      }
      var reservation;
      if total <= maxFragmentSize {
        reservation, id := underlying.Prepare(m, total, wait);
        return (match reservation
                case Refused => Throws
                case Full => Returns(None)
                case Granted(marker) => Returns(Some(marker))), id;
      }
      if total > maxTotalSize {
        return Throws, id;
      }
      if !wait {
        return Throws, id;
      }
      reservation, id := underlying.Prepare(FRAGMENT, maxFragmentSize, wait);
      if reservation.Refused? {
        return Throws, id;
      }
      var marker := reservation.marker;
      var next := underlying.WriteBytes(marker, Header(id, m, total));
      mine := [marker.slot];
      progress := Some(Progress(marker.slot, id, maxFragmentSize - HEADER_SIZE));
      r := Returns(Some(next));
    }

    /** Fails unless the fragment in hand is full. */
    method Finish(marker: Marker) returns (ok: bool)
      requires Valid() && (progress.None? ==> marker.slot < |underlying.slots|)
      modifies this, underlying
      ensures Valid()
      ensures ok <==> (old(progress.Some?) ==> old(progress.value.remainder) == 0)
      ensures !ok ==> progress == old(progress) && underlying.slots == old(underlying.slots)
      ensures ok ==>
        && progress == None
        && var slot := if old(progress.Some?) then old(progress.value.slot) else marker.slot;
          underlying.slots == old(underlying.slots)[slot := old(underlying.slots)[slot].(finished := true)]
    {
      if progress.Some? {
        if progress.value.remainder != 0 {
          return false;
        }
        underlying.Finish(progress.value.slot);
        progress := None;
      } else {
        underlying.Finish(marker.slot);
      }
      ok := true;
    }

    /** Where the next bytes of the fragment in hand go. */
    ghost function Next(): Marker
      requires Valid() && progress.Some?
      reads this, underlying
    {
      Marker(progress.value.slot, |underlying.slots[progress.value.slot].data|)
    }

    method FillCurrent(marker: Marker, bytes: seq<byte>) returns (next: Marker)
      requires Valid() && progress.Some? && |bytes| <= progress.value.remainder && marker == Next()
      modifies this, underlying
      ensures Valid() && progress.Some? && next == Next() && mine == old(mine)
      ensures progress.value.identifier == old(progress.value.identifier)
      ensures progress.value.remainder == old(progress.value.remainder) - |bytes|
      ensures Emitted() == Filled(old(Emitted()), bytes)
      ensures OthersKept(old(underlying.slots), underlying.slots, old(mine))
    {
      FillFragment(underlying.slots, mine, progress.value, bytes);
      assert progress.value.slot in mine;
      next := underlying.WriteBytes(marker, bytes);
      progress := Some(progress.value.(remainder := progress.value.remainder - |bytes|));
    }

    /** Finishes the fragment in hand and starts another with as many of the bytes as fit. */
    method NextFragment(bytes: seq<byte>) returns (count: nat, next: Marker)
      requires Valid() && progress.Some? && progress.value.remainder == 0 && bytes != []
      modifies this, underlying
      ensures Valid() && progress.Some? && next == Next() && mine == old(mine) + [|old(underlying.slots)|]
      ensures progress.value.remainder == 0
      ensures progress.value.identifier == old(progress.value.identifier)
      ensures count == Min(|bytes| + ID_SIZE, maxFragmentSize) - ID_SIZE
      ensures Emitted() == Emission(old(Emitted().Fragments()),
        EncodeLE(old(progress.value.identifier), ID_SIZE) + bytes[..count], 0)
      ensures OthersKept(old(underlying.slots), underlying.slots, old(mine))
    {
      var id := progress.value.identifier;
      ghost var slots, p := underlying.slots, progress.value;
      assert p.slot in mine;
      var size := Min(|bytes| + ID_SIZE, maxFragmentSize);
      SmallerAcceptable(FRAGMENT, maxFragmentSize, size, underlying.capacity);
      var reservation, fid := underlying.Prepare(FRAGMENT, size, true);
      underlying.Finish(progress.value.slot);
      count := size - ID_SIZE;
      next := underlying.WriteBytes(reservation.marker, EncodeLE(id, ID_SIZE));
      next := underlying.WriteBytes(next, bytes[..count]);
      ghost var slot := Slot(fid, FRAGMENT, size, EncodeLE(id, ID_SIZE) + bytes[..count], false);
      AppendFragment(slots, mine, p, slot, id);
      assert [] + EncodeLE(id, ID_SIZE) == EncodeLE(id, ID_SIZE);
      assert underlying.slots == slots[p.slot := slots[p.slot].(finished := true)] + [slot];
      mine := mine + [|slots|];
      progress := Some(Progress(reservation.marker.slot, id, 0));
    }

    method WriteBytes(marker: Option<Marker>, bytes: seq<byte>) returns (next: Option<Marker>)
      requires Valid()
      requires marker.Some? && progress.None? ==> Fits(underlying.slots, marker.value, |bytes|)
      requires marker.Some? && progress.Some? ==> marker.value == Next()
      modifies this, underlying
      ensures Valid() && next.Some? == marker.Some? && progress.Some? == old(progress.Some?)
      ensures marker.None? ==> progress == old(progress) && underlying.slots == old(underlying.slots)
      ensures marker.Some? && progress.None? ==>
        && next.value == Marker(marker.value.slot, marker.value.at + |bytes|)
        && underlying.slots == old(underlying.slots)[marker.value.slot :=
          var slot := old(underlying.slots)[marker.value.slot]; slot.(data := slot.data + bytes)]
      ensures marker.Some? && progress.Some? ==>
        && next.value == Next()
        && progress.value.identifier == old(progress.value.identifier)
        && Emitted() == Wrote(old(Emitted()), old(progress.value.identifier), maxFragmentSize, bytes)
        && OthersKept(old(underlying.slots), underlying.slots, old(mine))
    {
      if marker.None? {
        return None;
      }
      if progress.None? {
        var after := underlying.WriteBytes(marker.value, bytes);
        return Some(after);
      }
      var after := WriteFragments(marker.value, bytes);
      next := Some(after);
    }

    /** Fills the fragment in hand and then as many further ones as it takes. */
    method WriteFragments(marker: Marker, bytes: seq<byte>) returns (next: Marker)
      requires Valid() && progress.Some? && marker == Next()
      modifies this, underlying
      ensures Valid() && progress.Some? && next == Next()
      ensures progress.value.identifier == old(progress.value.identifier)
      ensures Emitted() == Wrote(old(Emitted()), old(progress.value.identifier), maxFragmentSize, bytes)
      ensures OthersKept(old(underlying.slots), underlying.slots, old(mine))
    {
      hide Writing, EmissionOf, More, Filled, OthersKept;
      var written := Min(|bytes|, progress.value.remainder);
      RemainderOf(underlying.slots, mine, progress.value);
      next := FillCurrent(marker, bytes[..written]);
      ghost var before, own := old(underlying.slots), old(mine);
      NoneAdded(mine, |before|);
      while written < |bytes|
        invariant 0 <= written <= |bytes| && Valid() && progress.Some? && next == Next()
        invariant progress.value.identifier == old(progress.value.identifier)
        invariant More(Emitted(), progress.value.identifier, maxFragmentSize, bytes[written..])
               == Wrote(old(Emitted()), progress.value.identifier, maxFragmentSize, bytes)
        invariant written < |bytes| ==> progress.value.remainder == 0
        invariant OthersKept(before, underlying.slots, own)
        invariant Added(own, mine, |before|)
      {
        ghost var slots, mid, e := underlying.slots, mine, Emitted();
        var rest := bytes[written..];
        var count;
        count, next := NextFragment(rest);
        assert bytes[written + count..] == rest[count..];
        MoreStep(e, progress.value.identifier, maxFragmentSize, rest, count);
        KeptTwice(before, slots, underlying.slots, own, mid);
        written := written + count;
      }
      assert bytes[written..] == [];
      MoreNone(Emitted(), progress.value.identifier, maxFragmentSize);
    }
  }

  lemma FillFragment(slots: seq<Slot>, mine: seq<nat>, p: Progress, bytes: seq<byte>)
    requires Writer.Writing(slots, mine, p) && |bytes| <= p.remainder
    ensures var next, q := slots[p.slot := slots[p.slot].(data := slots[p.slot].data + bytes)],
        p.(remainder := p.remainder - |bytes|);
      && Writer.Writing(next, mine, q)
      && Writer.EmissionOf(next, mine, q) == Filled(Writer.EmissionOf(slots, mine, p), bytes)
  {
    var next := slots[p.slot := slots[p.slot].(data := slots[p.slot].data + bytes)];
    var done := mine[..|mine| - 1];
    assert Writer.Contents(next, done) == Writer.Contents(slots, done);
  }

  lemma AppendFragment(slots: seq<Slot>, mine: seq<nat>, p: Progress, slot: Slot, id: nat)
    requires Writer.Writing(slots, mine, p)
    requires slot.msg == FRAGMENT && !slot.finished && slot.size == |slot.data|
    requires p.remainder == 0 && id == p.identifier
    ensures var next, q := slots[p.slot := slots[p.slot].(finished := true)] + [slot], Progress(|slots|, id, 0);
      && Writer.Writing(next, mine + [|slots|], q)
      && Writer.EmissionOf(next, mine + [|slots|], q) ==
        (var e := Writer.EmissionOf(slots, mine, p); Emission(e.done + [e.open], slot.data, 0))
  {
    var next := slots[p.slot := slots[p.slot].(finished := true)] + [slot];
    var mine' := mine + [|slots|];
    assert mine'[..|mine'| - 1] == mine;
    var e := Writer.EmissionOf(slots, mine, p);
    assert Writer.Contents(next, mine) == e.done + [e.open];
  }

  /** Slots beyond `own` are new ones. */
  ghost predicate Added(own: seq<nat>, mine: seq<nat>, size: nat) {
    forall i <- mine :: i in own || i >= size
  }

  lemma RemainderOf(slots: seq<Slot>, mine: seq<nat>, p: Progress)
    requires Writer.Writing(slots, mine, p)
    ensures Writer.EmissionOf(slots, mine, p).remainder == p.remainder
  {
  }

  lemma NoneAdded(mine: seq<nat>, size: nat)
    ensures Added(mine, mine, size)
  {
  }

  lemma KeptTwice(a: seq<Slot>, b: seq<Slot>, c: seq<Slot>, own: seq<nat>, mid: seq<nat>)
    requires Writer.OthersKept(a, b, own) && Writer.OthersKept(b, c, mid) && Added(own, mid, |a|)
    ensures Writer.OthersKept(a, c, own) && Added(own, mid + [|b|], |a|)
  {
  }

  lemma MoreNone(e: Emission, id: nat, maxFragment: nat)
    requires maxFragment > HEADER_SIZE
    ensures More(e, id, maxFragment, []) == e
  {
  }

  lemma MoreStep(e: Emission, id: nat, maxFragment: nat, bytes: seq<byte>, n: nat)
    requires maxFragment > HEADER_SIZE && bytes != [] && n == Min(|bytes| + ID_SIZE, maxFragment) - ID_SIZE
    ensures More(e, id, maxFragment, bytes) ==
      More(Emission(e.Fragments(), EncodeLE(id, ID_SIZE) + bytes[..n], 0), id, maxFragment, bytes[n..])
  {
  }
}
