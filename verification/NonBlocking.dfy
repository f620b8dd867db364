/**
The writer that never blocks: a message the ring buffer has no room for, and every message after it, is
queued in memory, to be flushed later in order.
*/
module NonBlocking {
  import opened Bytes
  import opened Options
  import opened RingWriters

  /** A queued message; its buffer begins at the address `start` and is written up to `marker`. */
  datatype Pending = Pending(m: nat, start: nat, marker: nat, finished: bool, buffer: seq<byte>) {
    function End(): nat {
      start + |buffer|
    }

    ghost predicate Valid() {
      start <= marker <= End()
    }
  }

  /** Where a caller writes next: in the ring buffer, or at an address in the buffer of a queued message. */
  datatype Place = InRing(marker: Marker) | InHeap(addr: nat)

  function Advance(place: Place, n: nat): Place {
    match place
    case InRing(marker) => InRing(Marker(marker.slot, marker.at + n))
    case InHeap(addr) => InHeap(addr + n)
  }

  /** A message as its writer sees it; what is not written yet reads as zero. */
  datatype Msg = Msg(m: nat, bytes: seq<byte>, finished: bool)

  /** A message, the marker its writer was given first, the one to write at next, and how much is written. */
  datatype Entry = Entry(msg: Msg, initial: Place, next: Place, written: nat) {
    predicate Fits(bytes: seq<byte>) {
      written + |bytes| <= |msg.bytes|
    }

    /** With the next bytes written. */
    function Written(bytes: seq<byte>): Entry
      requires Fits(bytes)
    {
      Entry(msg.(bytes := msg.bytes[..written] + bytes + msg.bytes[written + |bytes|..]),
            initial, Advance(next, |bytes|), written + |bytes|)
    }

    function Finished(): Entry {
      this.(msg := msg.(finished := true))
    }
  }

  ghost predicate Apart(a: Pending, b: Pending) {
    a.End() <= b.start || b.End() <= a.start
  }

  /** No two buffers overlap, and those with no bytes all have the null address. */
  ghost predicate Allocated(pending: seq<Pending>) {
    && (forall i :: 0 <= i < |pending| ==> pending[i].Valid() && (pending[i].start == 0 <==> pending[i].buffer == []))
    && (forall i, j :: 0 <= i < j < |pending| ==> Apart(pending[i], pending[j]))
  }

  ghost predicate Bounded(slots: seq<Slot>) {
    forall i :: 0 <= i < |slots| ==> |slots[i].data| <= slots[i].size
  }

  function SlotEntry(i: nat, s: Slot): (e: Entry)
    requires |s.data| <= s.size
  {
    Entry(Msg(s.msg, s.data + Zeros(s.size - |s.data|), s.finished),
          InRing(Marker(i, 0)), InRing(Marker(i, |s.data|)), |s.data|)
  }

  function PendingEntry(p: Pending): (e: Entry)
    requires p.Valid()
  {
    Entry(Msg(p.m, p.buffer, p.finished), InHeap(p.start), InHeap(p.marker), p.marker - p.start)
  }

  ghost function SlotEntries(slots: seq<Slot>): (r: seq<Entry>)
    requires Bounded(slots)
    ensures |r| == |slots|
    ensures forall i :: 0 <= i < |slots| ==> r[i] == SlotEntry(i, slots[i])
  {
    seq(|slots|, i requires 0 <= i < |slots| => SlotEntry(i, slots[i]))
  }

  ghost function PendingEntries(pending: seq<Pending>): (r: seq<Entry>)
    requires Allocated(pending)
    ensures |r| == |pending|
    ensures forall i :: 0 <= i < |pending| ==> r[i] == PendingEntry(pending[i])
  {
    seq(|pending|, i requires 0 <= i < |pending| => PendingEntry(pending[i]))
  }

  /** Every message prepared so far, in that order: those in the ring buffer, then those queued. */
  ghost function Entries(slots: seq<Slot>, pending: seq<Pending>): (r: seq<Entry>)
    requires Bounded(slots) && Allocated(pending)
    ensures |r| == |slots| + |pending|
  {
    SlotEntries(slots) + PendingEntries(pending)
  }

  /** The first message that starts at the address, or the number of messages. */
  function FindStart(pending: seq<Pending>, addr: nat): (i: nat)
    ensures i <= |pending|
  {
    if pending == [] || pending[0].start == addr then 0 else 1 + FindStart(pending[1..], addr)
  }

  /** The first message that is written up to the address and has room left. */
  function FindMarker(pending: seq<Pending>, addr: nat): (i: nat)
    ensures i <= |pending|
    ensures i < |pending| ==> pending[i].marker == addr != pending[i].End()
  {
    if pending == [] || (pending[0].marker == addr && addr != pending[0].End()) then 0
    else 1 + FindMarker(pending[1..], addr)
  }

  /** The queued message with the next bytes written. */
  function Put(p: Pending, bytes: seq<byte>): Pending
    requires p.Valid() && p.marker + |bytes| <= p.End()
  {
    var at := p.marker - p.start;
    p.(buffer := p.buffer[..at] + bytes + p.buffer[at + |bytes|..], marker := p.marker + |bytes|)
  }

  /** `Wild` is a write to memory that is no message's: the ring buffer is given an address for an index. */
  datatype Outcome = Returns(place: Place) | Throws | Wild

  /** Writing through an address: the queued message found, or else the ring buffer, takes the bytes. */
  function WroteAt(pending: seq<Pending>, addr: nat, bytes: seq<byte>): (Outcome, seq<Pending>)
    requires forall i :: 0 <= i < |pending| ==> pending[i].Valid()
  {
    var k := FindMarker(pending, addr);
    if k == |pending| then (if bytes == [] then Returns(InHeap(addr)) else Wild, pending)
    else if addr + |bytes| > pending[k].End() then (Throws, pending)
    else (Returns(InHeap(addr + |bytes|)), pending[k := Put(pending[k], bytes)])
  }

  /** The message that bytes written through the marker of message `i` reach. */
  ghost function Receiver(slots: seq<Slot>, pending: seq<Pending>, i: nat): (r: nat)
    requires i < |slots| + |pending|
    ensures r < |slots| + |pending|
  {
    if i < |slots| then i
    else
      var k := FindMarker(pending, pending[i - |slots|].marker);
      if k < |pending| then |slots| + k else i
  }

  /** Bytes written through the marker of message `i` reach no message, or one that the ring buffer does not check. */
  ghost predicate Lost(slots: seq<Slot>, pending: seq<Pending>, i: nat, bytes: seq<byte>)
    requires i < |slots| + |pending|
  {
    && bytes != []
    && if i < |slots| then slots[i].finished || |slots[i].data| + |bytes| > slots[i].size
       else FindMarker(pending, pending[i - |slots|].marker) == |pending|
  }

  /** The bytes were written to message `k` and changed nothing else, or they were refused or lost and changed
      nothing. */
  ghost predicate Wrote(before: seq<Entry>, after: seq<Entry>, k: nat, place: Place, bytes: seq<byte>, r: Outcome) {
    && k < |before| == |after|
    && (r.Throws? <==> !r.Wild? && !before[k].Fits(bytes))
    && (r.Returns? ==> r.place == Advance(place, |bytes|) && after == before[k := before[k].Written(bytes)])
    && (!r.Returns? ==> after == before)
  }

  /** The message that finishing message `i` marks. */
  function Marked(slots: seq<Slot>, pending: seq<Pending>, i: nat): (r: nat)
    requires i < |slots| + |pending|
    ensures r < |slots| + |pending|
  {
    if i < |slots| then i
    else
      StartFound(pending, i - |slots|);
      |slots| + FindStart(pending, pending[i - |slots|].start)
  }

  ghost predicate MarkedFinished(before: seq<Entry>, after: seq<Entry>, k: nat) {
    k < |before| && after == before[k := before[k].Finished()]
  }

  /** The messages are the same, and those still being written are where they were. */
  ghost predicate SameMessages(before: seq<Entry>, after: seq<Entry>) {
    && |after| == |before|
    && forall i :: 0 <= i < |before| ==>
      && after[i].msg == before[i].msg
      && (!before[i].msg.finished ==> after[i] == before[i])
  }

  class NonBlockingWriter {
    const underlying: RingWriter
    var pending: seq<Pending>

    ghost predicate Valid()
      reads this, underlying
    {
      underlying.Valid() && Bounded(underlying.slots) && Allocated(pending)
    }

    ghost function Messages(): seq<Entry>
      requires Valid()
      reads this, underlying
    {
      Entries(underlying.slots, pending)
    }

    constructor (writer: RingWriter)
      requires writer.Valid()
      ensures Valid() && pending == [] && underlying == writer
    {
      underlying, pending := writer, [];
    }

    /** Reserves the message in the ring buffer only if nothing is queued and there is room.  What the ring buffer
        would refuse is refused only if nothing is queued. */
    method Prepare(m: nat, size: nat) returns (r: Outcome)
      requires Valid()
      modifies this, underlying
      ensures Valid() && !r.Wild?
      ensures r.Throws? <==> old(pending) == [] && !Acceptable(m, size, underlying.capacity)
      ensures r.Throws? ==> Messages() == old(Messages())
      ensures r.Returns? ==> Messages() == old(Messages()) + [Entry(Msg(m, Zeros(size), false), r.place, r.place, 0)]
      ensures old(pending) != [] ==> underlying.slots == old(underlying.slots)
      ensures r.Returns? ==> (r.place.InHeap? <==> old(pending) != [] || underlying.refusals > old(underlying.refusals))
    {
      ghost var slots := underlying.slots;
      if |pending| == 0 {
        var reservation, id := underlying.Prepare(m, size, false);
        if reservation.Refused? {
          return Throws;
        }
        if reservation.Granted? {
          SlotAdded(slots, id, m, size);
          return Returns(InRing(reservation.marker));
        }
      }
      var start := Allocate(size);
      PendingAdded(underlying.slots, pending, m, start, size);
      pending := pending + [Pending(m, start, start, false, Zeros(size))];
      r := Returns(InHeap(start));
    }

    predicate Free(start: nat, size: nat)
      reads this
    {
      && (start == 0 <==> size == 0)
      && forall i :: 0 <= i < |pending| ==> start + size <= pending[i].start || pending[i].End() <= start
    }

    /** An address, any address, at which a buffer overlaps no other; the null address if it has no bytes. */
    method Allocate(size: nat) returns (start: nat)
      ensures Free(start, size)
    {
      if size == 0 {
        return 0;
      }
      start := 1;
      var i := 0;
      while i < |pending|
        invariant 0 <= i <= |pending| && start >= 1
        invariant forall j :: 0 <= j < i ==> pending[j].End() <= start
      {
        if pending[i].End() > start {
          start := pending[i].End();
        }
        i := i + 1;
      }
      var other: nat := *;
      if Free(other, size) {
        start := other;
      }
    }

    /**
    Writes the next bytes of message `i`, which the caller names by its marker alone.  A message in the ring
    buffer is not checked, so bytes past its end, or after it is finished, reach other memory.  A queued message
    with room left takes the bytes or refuses them; if it is full they reach whatever `Receiver` says.
    */
    method WriteBytes(place: Place, bytes: seq<byte>, ghost i: nat) returns (r: Outcome)
      requires Valid() && i < |Messages()| && place == Messages()[i].next
      modifies this, underlying
      ensures Valid() && (r.Wild? <==> old(Lost(underlying.slots, pending, i, bytes)))
      ensures Wrote(old(Messages()), Messages(), old(Receiver(underlying.slots, pending, i)), place, bytes, r)
    {
      hide Entries, Allocated, Wrote, FindMarker, WroteAt, Bounded;
      Whereabouts(underlying.slots, pending, i);
      match place {
        case InRing(marker) => r := WriteRing(marker, bytes, i);
        case InHeap(addr) =>
          QueueReached(underlying.slots, pending, i - |underlying.slots|, bytes);
          r := WriteQueued(addr, bytes);
      }
    }

    method WriteRing(marker: Marker, bytes: seq<byte>, ghost i: nat) returns (r: Outcome)
      requires Valid() && i < |underlying.slots| && Messages()[i].next == InRing(marker)
      modifies underlying
      ensures Valid() && (r.Wild? <==> old(Lost(underlying.slots, pending, i, bytes)))
      ensures Wrote(old(Messages()), Messages(), i, InRing(marker), bytes, r)
    {
      AtSlot(underlying.slots, pending, i);
      EntryFits(underlying.slots, pending, i);
      if bytes == [] {
        WrittenNothing(Messages()[i]);
        return Returns(InRing(marker));
      }
      if !Fits(underlying.slots, marker, |bytes|) {
        return Wild;
      }
      RingWritten(underlying.slots, pending, i, bytes);
      hide Entries, Allocated, Entry.Written;
      var next := underlying.WriteBytes(marker, bytes);
      r := Returns(InRing(next));
    }

    method WriteQueued(addr: nat, bytes: seq<byte>) returns (r: Outcome)
      requires forall i :: 0 <= i < |pending| ==> pending[i].Valid()
      modifies this
      ensures (r, pending) == WroteAt(old(pending), addr, bytes)
    {
      hide Put;
      var i := 0;
      while i < |pending|
        invariant 0 <= i <= |pending| && pending == old(pending)
        invariant FindMarker(pending, addr) == i + FindMarker(pending[i..], addr)
      {
        assert pending[i..][1..] == pending[i + 1..];
        if pending[i].marker == addr && addr != pending[i].End() {
          if addr + |bytes| > pending[i].End() {
            return Throws;
          }
          pending := pending[i := Put(pending[i], bytes)];
          return Returns(InHeap(addr + |bytes|));
        }
        i := i + 1;
      }
      r := if bytes == [] then Returns(InHeap(addr)) else Wild;
    }

    /** Finishes message `i`, which the caller names by the marker it was given first. */
    method Finish(place: Place, ghost i: nat)
      requires Valid() && i < |Messages()| && place == Messages()[i].initial
      modifies this, underlying
      ensures Valid() && MarkedFinished(old(Messages()), Messages(), old(Marked(underlying.slots, pending, i)))
      ensures |underlying.slots| == |old(underlying.slots)|
    {
      hide Entries, Allocated, MarkedFinished, FindStart, Bounded;
      ghost var slots := underlying.slots;
      Whereabouts(slots, pending, i);
      match place {
        case InRing(marker) =>
          RingFinished(slots, pending, i);
          underlying.Finish(marker.slot);
        case InHeap(addr) =>
          StartFound(pending, i - |slots|);
          var k := FindStart(pending, addr);
          QueueFinished(slots, pending, k);
          pending := pending[k := pending[k].(finished := true)];
      }
    }

    /**
    Moves queued messages to the ring buffer, oldest first, until one is unfinished or there is no room.
    This changes neither the messages nor their order.  It throws, with no result, when it comes to a message
    that the ring buffer refuses.
    */
    method TryFlushPending() returns (empty: Option<bool>)
      requires Valid()
      modifies this, underlying
      ensures Valid() && SameMessages(old(Messages()), Messages())
      ensures old(underlying.slots) <= underlying.slots
      ensures forall i :: |old(underlying.slots)| <= i < |underlying.slots| ==> underlying.slots[i].finished
      ensures empty.Some? ==> (empty.value <==> pending == [])
      ensures empty == Some(false) ==> !pending[0].finished || underlying.refusals > old(underlying.refusals)
      ensures empty.None? ==>
        pending != [] && pending[0].finished && !Acceptable(pending[0].m, |pending[0].buffer|, underlying.capacity)
    {
      hide Allocated, Entries, Bounded;
      while |pending| != 0
        invariant Valid() && SameMessages(old(Messages()), Messages())
        invariant old(underlying.slots) <= underlying.slots && underlying.refusals == old(underlying.refusals)
        invariant forall i :: |old(underlying.slots)| <= i < |underlying.slots| ==> underlying.slots[i].finished
        decreases |pending|
      {
        var next := pending[0];
        if !next.finished {
          break;
        }
        ghost var slots := underlying.slots;
        var reservation, id := underlying.Prepare(next.m, |next.buffer|, false);
        if reservation.Refused? {
          return None;
        }
        if reservation.Full? {
          break;
        }
        var _ := underlying.WriteBytes(reservation.marker, next.buffer);
        underlying.Finish(reservation.marker.slot);
        Flushed(slots, pending, id);
        assert [] + next.buffer == next.buffer;
        assert underlying.slots == slots + [Slot(id, next.m, |next.buffer|, next.buffer, true)];
        pending := pending[1..];
      }
      empty := Some(|pending| == 0);
    }
  }

  // ----- Finding the right message

  lemma {:induction false} StartFound(pending: seq<Pending>, i: nat)
    requires i < |pending|
    ensures var k := FindStart(pending, pending[i].start);
      k <= i && pending[k].start == pending[i].start && forall j :: 0 <= j < k ==> pending[j].start != pending[i].start
  {
    if pending[0].start != pending[i].start {
      StartFound(pending[1..], i - 1);
      var k := FindStart(pending[1..], pending[i].start);
      assert forall j :: 0 < j < k + 1 ==> pending[j] == pending[1..][j - 1];
    }
  }

  /** The first queued message without bytes. */
  ghost predicate FirstEmpty(pending: seq<Pending>, k: nat) {
    k < |pending| && pending[k].buffer == [] && forall j :: 0 <= j < k ==> pending[j].buffer != []
  }

  /**
  Finishing a queued message marks that message if and only if it has bytes or no message without bytes is
  queued before it.  Otherwise the first of those without bytes is marked in its place.
  */
  lemma FinishMarksIff(slots: seq<Slot>, pending: seq<Pending>, i: nat)
    requires Allocated(pending) && i < |pending|
    ensures Marked(slots, pending, |slots| + i) == |slots| + i <==>
      pending[i].buffer != [] || forall j :: 0 <= j < i ==> pending[j].buffer != []
    ensures forall k :: 0 <= k <= i && pending[i].buffer == [] && FirstEmpty(pending, k) ==>
      Marked(slots, pending, |slots| + i) == |slots| + k
  {
    StartFound(pending, i);
    var k := FindStart(pending, pending[i].start);
    if k < i {
      assert Apart(pending[k], pending[i]);
    }
  }

  /** The same on the list of messages: `k` is the first one queued that has no bytes. */
  lemma EmptyMarks(slots: seq<Slot>, pending: seq<Pending>, i: nat, k: nat)
    requires Bounded(slots) && Allocated(pending) && |slots| <= k <= i < |slots| + |pending|
    requires Entries(slots, pending)[i].msg.bytes == [] == Entries(slots, pending)[k].msg.bytes
    requires forall j :: |slots| <= j < k ==> Entries(slots, pending)[j].msg.bytes != []
    ensures Marked(slots, pending, i) == k
  {
    hide Entries, Marked, Allocated, Bounded;
    AtPending(slots, pending, i - |slots|);
    AtPending(slots, pending, k - |slots|);
    forall j | 0 <= j < k - |slots|
      ensures pending[j].buffer != []
    {
      AtPending(slots, pending, j);
      assert Entries(slots, pending)[|slots| + j].msg.bytes != [];
    }
    assert FirstEmpty(pending, k - |slots|);
    FinishMarksIff(slots, pending, i - |slots|);
  }

  /** Finishing marks another message only if neither has any bytes, and then an earlier one. */
  lemma WrongMark(slots: seq<Slot>, pending: seq<Pending>, i: nat)
    requires Bounded(slots) && Allocated(pending) && i < |slots| + |pending| && Marked(slots, pending, i) != i
    ensures var k, entries := Marked(slots, pending, i), Entries(slots, pending);
      k < i && entries[k].msg.bytes == [] == entries[i].msg.bytes
  {
    var j := i - |slots|;
    StartFound(pending, j);
    FinishMarksIff(slots, pending, j);
    AtPending(slots, pending, j);
    AtPending(slots, pending, FindStart(pending, pending[j].start));
  }

  lemma {:induction false} MarkerFound(pending: seq<Pending>, addr: nat, i: nat)
    requires i <= |pending|
    requires forall j :: 0 <= j < i ==> pending[j].marker != addr || addr == pending[j].End()
    requires i < |pending| ==> pending[i].marker == addr != pending[i].End()
    ensures FindMarker(pending, addr) == i
  {
    if i > 0 {
      MarkerFound(pending[1..], addr, i - 1);
    }
  }

  /** No buffer overlaps another, so a marker inside one is found there, even where two buffers touch. */
  lemma PendingFound(pending: seq<Pending>, i: nat)
    requires Allocated(pending) && i < |pending| && pending[i].marker != pending[i].End()
    ensures FindMarker(pending, pending[i].marker) == i
  {
    forall j | 0 <= j < i
      ensures pending[j].marker != pending[i].marker || pending[j].marker == pending[j].End()
    {
      assert Apart(pending[j], pending[i]);
    }
    MarkerFound(pending, pending[i].marker, i);
  }

  /** A queued message that starts where message `i` ends; it has had nothing written to it yet. */
  ghost predicate Follows(pending: seq<Pending>, i: nat, k: nat)
    requires i < |pending|
  {
    k < |pending| && pending[k].buffer != [] && pending[k].start == pending[k].marker == pending[i].End()
  }

  /** What is found through the marker of a full message is a message that starts there and is still empty. */
  lemma FullFinds(pending: seq<Pending>, i: nat, k: nat)
    requires Allocated(pending) && i < |pending| && pending[i].marker == pending[i].End()
    ensures Follows(pending, i, k) <==> k < |pending| && FindMarker(pending, pending[i].marker) == k
  {
    var addr := pending[i].marker;
    var f := FindMarker(pending, addr);
    if f < |pending| {
      assert f != i && (if f < i then Apart(pending[f], pending[i]) else Apart(pending[i], pending[f]));
    }
    if Follows(pending, i, k) {
      PendingFound(pending, k);
    }
  }

  /**
  Writing past the end of queued message `i` is refused if and only if the message has room left or the
  message that follows it in memory is too small as well.
  */
  lemma PastEndRefusedIff(pending: seq<Pending>, i: nat, bytes: seq<byte>)
    requires Allocated(pending) && i < |pending| && pending[i].marker + |bytes| > pending[i].End()
    ensures WroteAt(pending, pending[i].marker, bytes).0 == Throws <==>
      || pending[i].marker != pending[i].End()
      || exists k: nat :: Follows(pending, i, k) && |bytes| > |pending[k].buffer|
  {
    var f := FindMarker(pending, pending[i].marker);
    if pending[i].marker != pending[i].End() {
      PendingFound(pending, i);
    } else {
      FullFinds(pending, i, f);
      if exists k: nat :: Follows(pending, i, k) && |bytes| > |pending[k].buffer| {
        var k: nat :| Follows(pending, i, k) && |bytes| > |pending[k].buffer|;
        FullFinds(pending, i, k);
      }
    }
  }

  /** A full message beside a fresh one: bytes written past the end of the first are the first bytes of the
      second. */
  lemma SpillsOver(a: Pending, b: Pending, bytes: seq<byte>)
    requires Allocated([a, b]) && a.marker == a.End() == b.start == b.marker
    requires bytes != [] && |bytes| <= |b.buffer|
    ensures WroteAt([a, b], a.marker, bytes) ==
      (Returns(InHeap(b.start + |bytes|)), [a, b.(buffer := bytes + b.buffer[|bytes|..], marker := b.start + |bytes|)])
  {
    var pending := [a, b];
    assert pending[0] == a && pending[1] == b && b.Valid();
    PendingFound(pending, 1);
    assert b.buffer[..0] + bytes == bytes;
    assert Put(b, bytes) == b.(buffer := bytes + b.buffer[|bytes|..], marker := b.start + |bytes|);
    assert pending[1 := Put(b, bytes)] == [a, Put(b, bytes)];
  }

  /** Nothing beside it: the ring buffer writes the bytes at an address that is not in it. */
  lemma NothingFollows(a: Pending, bytes: seq<byte>)
    requires a.Valid() && a.marker == a.End() && bytes != []
    ensures WroteAt([a], a.marker, bytes) == (Wild, [a])
  {
    MarkerFound([a], a.marker, 1);
  }

  // ----- Effects on the list of messages

  lemma SlotAdded(slots: seq<Slot>, id: nat, m: nat, size: nat)
    requires Bounded(slots)
    ensures var next := slots + [Slot(id, m, size, [], false)];
      var place := InRing(Marker(|slots|, 0));
      && Bounded(next)
      && Entries(next, []) == Entries(slots, []) + [Entry(Msg(m, Zeros(size), false), place, place, 0)]
  {
    assert [] + Zeros(size) == Zeros(size);
  }

  lemma PendingAdded(slots: seq<Slot>, pending: seq<Pending>, m: nat, start: nat, size: nat)
    requires Bounded(slots) && Allocated(pending) && (start == 0 <==> size == 0)
    requires forall i :: 0 <= i < |pending| ==> start + size <= pending[i].start || pending[i].End() <= start
    ensures var next := pending + [Pending(m, start, start, false, Zeros(size))];
      && Allocated(next)
      && Entries(slots, next) ==
        Entries(slots, pending) + [Entry(Msg(m, Zeros(size), false), InHeap(start), InHeap(start), 0)]
  {
  }

  lemma SlotReplaced(slots: seq<Slot>, pending: seq<Pending>, i: nat, slot: Slot)
    requires Bounded(slots) && Allocated(pending) && i < |slots| && |slot.data| <= slot.size
    ensures Bounded(slots[i := slot])
    ensures Entries(slots[i := slot], pending) == Entries(slots, pending)[i := SlotEntry(i, slot)]
  {
  }

  lemma PendingReplaced(slots: seq<Slot>, pending: seq<Pending>, k: nat, p: Pending)
    requires Bounded(slots) && Allocated(pending) && k < |pending|
    requires p.Valid() && p.start == pending[k].start && |p.buffer| == |pending[k].buffer|
    ensures Allocated(pending[k := p])
    ensures Entries(slots, pending[k := p]) == Entries(slots, pending)[|slots| + k := PendingEntry(p)]
  {
    var next := pending[k := p];
    forall i, j | 0 <= i < j < |next|
      ensures Apart(next[i], next[j])
    {
      assert Apart(pending[i], pending[j]);
    }
  }

  lemma RingWritten(slots: seq<Slot>, pending: seq<Pending>, i: nat, bytes: seq<byte>)
    requires Bounded(slots) && Allocated(pending) && i < |slots| && |slots[i].data| + |bytes| <= slots[i].size
    ensures var slot := slots[i].(data := slots[i].data + bytes);
      && Bounded(slots[i := slot])
      && Entries(slots, pending)[i] == SlotEntry(i, slots[i])
      && Entries(slots[i := slot], pending) == Entries(slots, pending)[i := Entries(slots, pending)[i].Written(bytes)]
  {
    var s, slot := slots[i], slots[i].(data := slots[i].data + bytes);
    var room := s.size - |s.data|;
    assert (s.data + Zeros(room))[..|s.data|] == s.data;
    assert (s.data + Zeros(room))[|s.data| + |bytes|..] == Zeros(room - |bytes|);
    assert SlotEntry(i, slot) == SlotEntry(i, s).Written(bytes);
    AtSlot(slots, pending, i);
    SlotReplaced(slots, pending, i, slot);
  }

  lemma QueueWritten(slots: seq<Slot>, pending: seq<Pending>, k: nat, bytes: seq<byte>)
    requires Bounded(slots) && Allocated(pending) && k < |pending| && pending[k].marker + |bytes| <= pending[k].End()
    ensures pending[k].Valid() && Allocated(pending[k := Put(pending[k], bytes)])
    ensures Entries(slots, pending[k := Put(pending[k], bytes)]) ==
      Entries(slots, pending)[|slots| + k := PendingEntry(pending[k]).Written(bytes)]
  {
    PendingReplaced(slots, pending, k, Put(pending[k], bytes));
  }

  /** Bytes that fit message `i` reach it; if there are none it does not matter which message they reach. */
  lemma FittingBytesReach(slots: seq<Slot>, pending: seq<Pending>, i: nat, place: Place, bytes: seq<byte>, r: Outcome,
                          after: seq<Entry>)
    requires Bounded(slots) && Allocated(pending) && i < |slots| + |pending|
    requires Entries(slots, pending)[i].Fits(bytes) && !Entries(slots, pending)[i].msg.finished
    requires r.Wild? <==> Lost(slots, pending, i, bytes)
    requires Wrote(Entries(slots, pending), after, Receiver(slots, pending, i), place, bytes, r)
    ensures var before := Entries(slots, pending);
      r == Returns(Advance(place, |bytes|)) && after == before[i := before[i].Written(bytes)]
  {
    hide FindMarker, Entries, Entry.Written, Allocated, Bounded;
    var k := Receiver(slots, pending, i);
    SameReach(slots, pending, i, bytes);
    assert k == i || bytes == [];
    WrittenNothing(Entries(slots, pending)[i]);
    WrittenNothing(Entries(slots, pending)[k]);
  }

  lemma SameReach(slots: seq<Slot>, pending: seq<Pending>, i: nat, bytes: seq<byte>)
    requires Bounded(slots) && Allocated(pending) && i < |slots| + |pending|
    requires Entries(slots, pending)[i].Fits(bytes) && !Entries(slots, pending)[i].msg.finished
    ensures Receiver(slots, pending, i) == i || bytes == []
    ensures !Lost(slots, pending, i, bytes)
    ensures Entries(slots, pending)[i].Fits([]) && Entries(slots, pending)[Receiver(slots, pending, i)].Fits([])
  {
    hide FindMarker, Entries, Allocated, Bounded;
    EntryFits(slots, pending, i);
    EntryFits(slots, pending, Receiver(slots, pending, i));
    if i < |slots| {
      AtSlot(slots, pending, i);
    } else {
      var j := i - |slots|;
      AtPending(slots, pending, j);
      if pending[j].marker != pending[j].End() {
        ReceiverInside(slots, pending, j, bytes);
      }
    }
  }

  lemma EntryFits(slots: seq<Slot>, pending: seq<Pending>, i: nat)
    requires Bounded(slots) && Allocated(pending) && i < |slots| + |pending|
    ensures Entries(slots, pending)[i].Fits([])
  {
    if i < |slots| {
      AtSlot(slots, pending, i);
    } else {
      AtPending(slots, pending, i - |slots|);
    }
  }

  lemma WrittenNothing(e: Entry)
    requires e.Fits([])
    ensures e.Written([]) == e
  {
    assert e.msg.bytes[..e.written] + [] + e.msg.bytes[e.written..] == e.msg.bytes;
    assert Advance(e.next, 0) == e.next;
  }

  lemma PutNothing(p: Pending)
    requires p.Valid()
    ensures Put(p, []) == p && PendingEntry(p).Written([]) == PendingEntry(p)
  {
    var at := p.marker - p.start;
    assert p.buffer[..at] + [] + p.buffer[at..] == p.buffer;
  }

  /** What writing through the marker of queued message `j` does to the messages. */
  lemma QueueReached(slots: seq<Slot>, pending: seq<Pending>, j: nat, bytes: seq<byte>)
    requires Bounded(slots) && Allocated(pending) && j < |pending|
    ensures forall i :: 0 <= i < |pending| ==> pending[i].Valid()
    ensures var (r, next) := WroteAt(pending, pending[j].marker, bytes);
      && Allocated(next) && (r.Wild? <==> Lost(slots, pending, |slots| + j, bytes))
      && Wrote(Entries(slots, pending), Entries(slots, next), Receiver(slots, pending, |slots| + j),
               InHeap(pending[j].marker), bytes, r)
  {
    var addr := pending[j].marker;
    var f := FindMarker(pending, addr);
    hide FindMarker;
    if f == |pending| {
      AtPending(slots, pending, j);
      PutNothing(pending[j]);
    } else {
      AtPending(slots, pending, f);
      if addr + |bytes| <= pending[f].End() {
        QueueWritten(slots, pending, f, bytes);
      }
    }
  }

  /** While a queued message has room, bytes written through its marker reach that message and no other. */
  lemma ReceiverInside(slots: seq<Slot>, pending: seq<Pending>, j: nat, bytes: seq<byte>)
    requires Allocated(pending) && j < |pending| && pending[j].marker != pending[j].End()
    ensures Receiver(slots, pending, |slots| + j) == |slots| + j && !Lost(slots, pending, |slots| + j, bytes)
  {
    PendingFound(pending, j);
  }

  lemma Whereabouts(slots: seq<Slot>, pending: seq<Pending>, i: nat)
    requires Bounded(slots) && Allocated(pending) && i < |slots| + |pending|
    ensures var e := Entries(slots, pending)[i];
      if i < |slots| then e.initial == InRing(Marker(i, 0)) && e.next.InRing?
      else e.initial == InHeap(pending[i - |slots|].start) && e.next == InHeap(pending[i - |slots|].marker)
  {
  }

  lemma AtSlot(slots: seq<Slot>, pending: seq<Pending>, i: nat)
    requires Bounded(slots) && Allocated(pending) && i < |slots|
    ensures Entries(slots, pending)[i] == SlotEntry(i, slots[i])
  {
  }

  lemma AtPending(slots: seq<Slot>, pending: seq<Pending>, j: nat)
    requires Bounded(slots) && Allocated(pending) && j < |pending|
    ensures pending[j].Valid() && Entries(slots, pending)[|slots| + j] == PendingEntry(pending[j])
  {
  }

  lemma RingFinished(slots: seq<Slot>, pending: seq<Pending>, i: nat)
    requires Bounded(slots) && Allocated(pending) && i < |slots|
    ensures var slot := slots[i].(finished := true);
      && Bounded(slots[i := slot])
      && MarkedFinished(Entries(slots, pending), Entries(slots[i := slot], pending), i)
  {
    SlotReplaced(slots, pending, i, slots[i].(finished := true));
  }

  lemma QueueFinished(slots: seq<Slot>, pending: seq<Pending>, k: nat)
    requires Bounded(slots) && Allocated(pending) && k < |pending|
    ensures var p, i := pending[k].(finished := true), |slots| + k;
      && Allocated(pending[k := p])
      && MarkedFinished(Entries(slots, pending), Entries(slots, pending[k := p]), i)
  {
    AtPending(slots, pending, k);
    PendingReplaced(slots, pending, k, pending[k].(finished := true));
  }

  lemma RestAllocated(pending: seq<Pending>)
    requires Allocated(pending) && pending != []
    ensures pending[0].Valid() && Allocated(pending[1..])
    ensures PendingEntries(pending) == [PendingEntry(pending[0])] + PendingEntries(pending[1..])
  {
    hide PendingEntry;
    var rest := pending[1..];
    assert forall i :: 0 <= i < |rest| ==> rest[i] == pending[i + 1];
    assert Allocated(rest) by {
      hide Apart;
      forall i, j | 0 <= i < j < |rest|
        ensures Apart(rest[i], rest[j])
      {
        assert Apart(pending[i + 1], pending[j + 1]);
      }
    }
    hide Allocated;
  }

  lemma SlotAppended(slots: seq<Slot>, slot: Slot)
    requires Bounded(slots) && |slot.data| <= slot.size
    ensures Bounded(slots + [slot])
    ensures SlotEntries(slots + [slot]) == SlotEntries(slots) + [SlotEntry(|slots|, slot)]
  {
  }

  lemma OneMoved(a: seq<Entry>, x: Entry, y: Entry, b: seq<Entry>)
    requires x.msg == y.msg && x.msg.finished
    ensures SameMessages(a + ([x] + b), (a + [y]) + b)
  {
  }

  /** Moving the oldest queued message to the ring buffer changes where it is and nothing else. */
  lemma Flushed(slots: seq<Slot>, pending: seq<Pending>, id: nat)
    requires Bounded(slots) && Allocated(pending) && pending != [] && pending[0].finished
    ensures var p := pending[0];
      var next := slots + [Slot(id, p.m, |p.buffer|, p.buffer, true)];
      && Allocated(pending[1..]) && Bounded(next)
      && SameMessages(Entries(slots, pending), Entries(next, pending[1..]))
  {
    hide SlotEntries, PendingEntries, Bounded, Allocated, SameMessages;
    var p := pending[0];
    var slot := Slot(id, p.m, |p.buffer|, p.buffer, true);
    assert p.buffer + Zeros(0) == p.buffer;
    RestAllocated(pending);
    SlotAppended(slots, slot);
    OneMoved(SlotEntries(slots), PendingEntry(p), SlotEntry(|slots|, slot), PendingEntries(pending[1..]));
  }
}
