/**
The ring buffer as the layers above it see it: messages reserved in order, each written piece by piece and
then finished.  What the methods may do to the messages is stated on lists of them, so that the steps of the
ring buffer can be held against it.
*/
module RingWriters {
  import opened Bytes
  import R = RingBuffer

  datatype Slot = Slot(id: nat, msg: nat, size: nat, data: seq<byte>, finished: bool)

  /** Where the next bytes go. */
  datatype Marker = Marker(slot: nat, at: nat)

  /** What a reservation gives: a marker, nothing for lack of space, or an error in the message. */
  datatype Reservation = Granted(marker: Marker) | Full | Refused

  /** Every message has less data than it asked for, and identifiers increase. */
  ghost predicate WellFormed(slots: seq<Slot>, tail: nat) {
    && (forall i :: 0 <= i < |slots| ==> slots[i].id < tail && |slots[i].data| <= slots[i].size)
    && (forall i, j :: 0 <= i < j < |slots| ==> slots[i].id < slots[j].id)
  }

  /** The bytes `count` long at `marker` are the next unwritten ones of an unfinished message. */
  predicate Fits(slots: seq<Slot>, marker: Marker, count: nat) {
    && marker.slot < |slots|
    && !slots[marker.slot].finished
    && marker.at == |slots[marker.slot].data|
    && marker.at + count <= slots[marker.slot].size
  }

  /** A message was reserved behind all others. */
  predicate Reserved(before: seq<Slot>, after: seq<Slot>, m: nat, size: nat, id: nat) {
    after == before + [Slot(id, m, size, [], false)]
  }

  /** The bytes were added to a message. */
  predicate Extended(before: seq<Slot>, after: seq<Slot>, marker: Marker, bytes: seq<byte>) {
    && Fits(before, marker, |bytes|)
    && after == before[marker.slot := before[marker.slot].(data := before[marker.slot].data + bytes)]
  }

  /** A message was finished. */
  predicate Closed(before: seq<Slot>, after: seq<Slot>, slot: nat) {
    slot < |before| && after == before[slot := before[slot].(finished := true)]
  }

  predicate Acceptable(m: nat, size: nat, capacity: nat) {
    R.Request(m, size, true).Acceptable(capacity)
  }

  lemma SmallerAcceptable(m: nat, size: nat, less: nat, capacity: nat)
    requires Acceptable(m, size, capacity) && less <= size
    ensures Acceptable(m, less, capacity)
  {
  }

  class RingWriter {
    const capacity: nat
    var slots: seq<Slot>
    var tail: nat

    /** History: how often there was no space. */
    ghost var refusals: nat

    ghost predicate Valid()
      reads this
    {
      WellFormed(slots, tail)
    }

    constructor (capacity: nat)
      ensures Valid() && slots == [] && this.capacity == capacity
    {
      this.capacity, slots, tail, refusals := capacity, [], 0, 0;
    }

    /** Without waiting, the reservation may fail for lack of space; identifiers are never reused. */
    method Prepare(m: nat, size: nat, wait: bool) returns (r: Reservation, id: nat)
      requires Valid()
      modifies this
      ensures Valid()
      ensures r.Refused? <==> !Acceptable(m, size, capacity)
      ensures r.Full? ==> !wait
      ensures refusals == old(refusals) + if r.Full? then 1 else 0
      ensures !r.Granted? ==> slots == old(slots)
      ensures r.Granted? ==> r.marker == Marker(|old(slots)|, 0) && Reserved(old(slots), slots, m, size, id)
    {
      id := tail;
      if !Acceptable(m, size, capacity) {
        return Refused, id;
      }
      var space: bool := *;
      if !wait && !space {
        refusals := refusals + 1;
        return Full, id;
      }
      r := Granted(Marker(|slots|, 0));
      slots := slots + [Slot(id, m, size, [], false)];
      tail := tail + R.HEADER_SIZE + size;
    }

    method WriteBytes(marker: Marker, bytes: seq<byte>) returns (next: Marker)
      requires Valid() && Fits(slots, marker, |bytes|)
      modifies this`slots
      ensures Valid() && next == Marker(marker.slot, marker.at + |bytes|) && Fits(slots, next, 0)
      ensures Extended(old(slots), slots, marker, bytes)
    {
      var slot := slots[marker.slot];
      slots := slots[marker.slot := slot.(data := slot.data + bytes)];
      next := Marker(marker.slot, marker.at + |bytes|);
    }

    method Finish(slot: nat)
      requires Valid() && slot < |slots|
      modifies this`slots
      ensures Valid() && Closed(old(slots), slots, slot)
    {
      slots := slots[slot := slots[slot].(finished := true)];
    }
  }
}
