/** Whole runs of the non-blocking writer, against a plain list of messages. */
module NonBlockingRuns {
  import opened Bytes
  import opened Options
  import opened RingWriters
  import opened NonBlocking

  datatype Op =
    | Open(m: nat, size: nat)
    | Write(i: nat, bytes: seq<byte>)
    | Close(i: nat)
    | Flush

  /** A message of the plain list, and how much of it is written. */
  datatype Plain = Plain(msg: Msg, written: nat)

  /** What the protocol asks of the callers: messages that the ring buffer would not refuse, nothing written after
      the end or after finishing. */
  ghost predicate Legal(capacity: nat, list: seq<Plain>, op: Op) {
    match op
    case Open(m, size) => Acceptable(m, size, capacity)
    case Write(i, bytes) =>
      i < |list| && !list[i].msg.finished && list[i].written + |bytes| <= |list[i].msg.bytes|
    case Close(i) => i < |list| && !list[i].msg.finished
    case Flush => true
  }

  /** The operation on the plain list; flushing is invisible there. */
  ghost function Done(capacity: nat, list: seq<Plain>, op: Op): seq<Plain>
    requires Legal(capacity, list, op)
  {
    match op
    case Open(m, size) => list + [Plain(Msg(m, Zeros(size), false), 0)]
    case Write(i, bytes) =>
      var p := list[i];
      var text := p.msg.bytes[..p.written] + bytes + p.msg.bytes[p.written + |bytes|..];
      list[i := Plain(p.msg.(bytes := text), p.written + |bytes|)]
    case Close(i) => list[i := list[i].(msg := list[i].msg.(finished := true))]
    case Flush => list
  }

  /** The plain list after the operations, if the protocol allows them all. */
  ghost function RunPlain(capacity: nat, ops: seq<Op>): Option<seq<Plain>> {
    if ops == [] then Some([])
    else
      var before, op := RunPlain(capacity, ops[..|ops| - 1]), ops[|ops| - 1];
      if before.Some? && Legal(capacity, before.value, op) then Some(Done(capacity, before.value, op)) else None
  }

  lemma {:induction false} PrefixAllowed(capacity: nat, ops: seq<Op>, n: nat)
    requires RunPlain(capacity, ops).Some? && n <= |ops|
    ensures RunPlain(capacity, ops[..n]).Some?
  {
    if n == |ops| {
      assert ops[..n] == ops;
    } else {
      PrefixAllowed(capacity, ops[..|ops| - 1], n);
      assert ops[..|ops| - 1][..n] == ops[..n];
    }
  }

  lemma NextAllowed(capacity: nat, ops: seq<Op>, n: nat)
    requires RunPlain(capacity, ops).Some? && n < |ops|
    ensures RunPlain(capacity, ops[..n]).Some? && Legal(capacity, RunPlain(capacity, ops[..n]).value, ops[n])
    ensures RunPlain(capacity, ops[..n + 1]) == Some(Done(capacity, RunPlain(capacity, ops[..n]).value, ops[n]))
  {
    PrefixAllowed(capacity, ops, n);
    PrefixAllowed(capacity, ops, n + 1);
    assert ops[..n + 1][..n] == ops[..n];
  }

  /** The messages are those of the plain list, and their writers hold the right markers while they write. */
  ghost predicate Agree(entries: seq<Entry>, list: seq<Plain>, handles: seq<(Place, Place)>) {
    && |entries| == |list| == |handles|
    && forall i :: 0 <= i < |list| ==>
      && entries[i].msg == list[i].msg
      && (!list[i].msg.finished ==>
        entries[i].written == list[i].written && handles[i] == (entries[i].initial, entries[i].next))
  }

  lemma AgreeOpen(capacity: nat, entries: seq<Entry>, list: seq<Plain>, handles: seq<(Place, Place)>, op: Op,
                  place: Place)
    requires Agree(entries, list, handles) && op.Open? && Legal(capacity, list, op)
    ensures Agree(entries + [Entry(Msg(op.m, Zeros(op.size), false), place, place, 0)], Done(capacity, list, op),
      handles + [(place, place)])
  {
  }

  lemma AgreeWrite(capacity: nat, entries: seq<Entry>, list: seq<Plain>, handles: seq<(Place, Place)>, op: Op)
    requires Agree(entries, list, handles) && op.Write? && Legal(capacity, list, op)
    ensures entries[op.i].Fits(op.bytes)
    ensures var e := entries[op.i].Written(op.bytes);
      Agree(entries[op.i := e], Done(capacity, list, op), handles[op.i := (handles[op.i].0, e.next)])
  {
  }

  lemma AgreeClose(capacity: nat, entries: seq<Entry>, after: seq<Entry>, list: seq<Plain>,
                   handles: seq<(Place, Place)>, op: Op)
    requires Agree(entries, list, handles) && op.Close? && Legal(capacity, list, op)
    requires MarkedFinished(entries, after, op.i)
    ensures Agree(after, Done(capacity, list, op), handles)
  {
  }

  lemma AgreeFlush(entries: seq<Entry>, after: seq<Entry>, list: seq<Plain>, handles: seq<(Place, Place)>)
    requires Agree(entries, list, handles) && SameMessages(entries, after)
    ensures Agree(after, list, handles)
  {
  }

  /** The plain list finishes message `i`, and the writer has finished an earlier one in its place; neither has any
      bytes. */
  ghost predicate Misses(entries: seq<Entry>, list: seq<Plain>, i: nat) {
    && i < |entries| == |list|
    && !entries[i].msg.finished && list[i].msg == entries[i].msg.(finished := true) && list[i].msg.bytes == []
    && exists k :: 0 <= k < i && entries[k].msg.finished && list[k].msg.bytes == []
  }

  lemma MissClose(capacity: nat, entries: seq<Entry>, after: seq<Entry>, list: seq<Plain>,
                  handles: seq<(Place, Place)>, op: Op, k: nat)
    requires Agree(entries, list, handles) && op.Close? && Legal(capacity, list, op) && MarkedFinished(entries, after, k)
    requires k < op.i && entries[k].msg.bytes == [] == entries[op.i].msg.bytes
    ensures Misses(after, Done(capacity, list, op), op.i)
  {
    assert after[k].msg.finished && Done(capacity, list, op)[k].msg.bytes == [];
  }

  ghost predicate SameList(entries: seq<Entry>, list: seq<Plain>) {
    |entries| == |list| && forall i :: 0 <= i < |list| ==> entries[i].msg == list[i].msg
  }

  /**
  Any run of writes, finishes and flushes, with the ring buffer refusing whenever it likes: the ring buffer and the
  queue together hold exactly the messages of the plain list, in the order they were prepared, unless two messages
  without bytes are prepared.  In that case the run goes on until a finish marks an earlier message without bytes
  than the one it is meant for, at which they no longer do.
  */
  method Execute(writer: NonBlockingWriter, ops: seq<Op>) returns (n: nat)
    requires writer.Valid() && writer.Messages() == [] && RunPlain(writer.underlying.capacity, ops).Some?
    modifies writer, writer.underlying
    ensures writer.Valid() && n <= |ops|
    ensures n == |ops| ==> SameList(writer.Messages(), RunPlain(writer.underlying.capacity, ops).value)
    ensures AtMostOneEmpty(ops) ==> n == |ops|
    ensures n < |ops| ==>
      && ops[n].Close? && RunPlain(writer.underlying.capacity, ops[..n + 1]).Some?
      && Misses(writer.Messages(), RunPlain(writer.underlying.capacity, ops[..n + 1]).value, ops[n].i)
  {
    hide Agree, Legal, Done, Entries, RunPlain, Misses, SameList;
    var handles: seq<(Place, Place)> := [];
    n := 0;
    NothingDone(writer.underlying.capacity, ops);
    while n < |ops|
      invariant 0 <= n <= |ops| && writer.Valid() && RunPlain(writer.underlying.capacity, ops[..n]).Some?
      invariant Agree(writer.Messages(), RunPlain(writer.underlying.capacity, ops[..n]).value, handles)
    {
      NextAllowed(writer.underlying.capacity, ops, n);
      var ok;
      handles, ok := Perform(writer, ops[n], handles, RunPlain(writer.underlying.capacity, ops[..n]).value);
      if !ok {
        TwoEmpty(writer.underlying.capacity, ops, n, writer.Messages());
        return;
      }
      n := n + 1;
    }
    assert ops[..n] == ops;
    AgreeMessages(writer.Messages(), RunPlain(writer.underlying.capacity, ops).value, handles);
  }

  // ----- Which runs prepare two messages without bytes

  predicate OpensEmpty(op: Op) {
    op.Open? && op.size == 0
  }

  ghost predicate AtMostOneEmpty(ops: seq<Op>) {
    forall a, b :: 0 <= a < b < |ops| ==> !(OpensEmpty(ops[a]) && OpensEmpty(ops[b]))
  }

  /** A message without bytes was prepared so. */
  lemma {:induction false} EmptyOpened(capacity: nat, ops: seq<Op>, i: nat) returns (a: nat)
    requires RunPlain(capacity, ops).Some? && i < |RunPlain(capacity, ops).value|
    requires RunPlain(capacity, ops).value[i].msg.bytes == []
    ensures a < |ops| && OpensEmpty(ops[a])
    decreases |ops|
  {
    var n := |ops| - 1;
    var before := RunPlain(capacity, ops[..n]).value;
    if ops[n].Open? && i == |before| {
      a := n;
    } else {
      a := EmptyOpened(capacity, ops[..n], i);
    }
  }

  lemma {:induction false} EmptyOpenedTwice(capacity: nat, ops: seq<Op>, i: nat, j: nat) returns (a: nat, b: nat)
    requires RunPlain(capacity, ops).Some? && i < j < |RunPlain(capacity, ops).value|
    requires RunPlain(capacity, ops).value[i].msg.bytes == [] == RunPlain(capacity, ops).value[j].msg.bytes
    ensures a < b < |ops| && OpensEmpty(ops[a]) && OpensEmpty(ops[b])
    decreases |ops|
  {
    var n := |ops| - 1;
    var before := RunPlain(capacity, ops[..n]).value;
    if ops[n].Open? && j == |before| {
      a := EmptyOpened(capacity, ops[..n], i);
      b := n;
    } else {
      a, b := EmptyOpenedTwice(capacity, ops[..n], i, j);
    }
  }

  lemma TwoEmpty(capacity: nat, ops: seq<Op>, n: nat, entries: seq<Entry>)
    requires n < |ops| && ops[n].Close? && RunPlain(capacity, ops[..n + 1]).Some?
    requires Misses(entries, RunPlain(capacity, ops[..n + 1]).value, ops[n].i)
    ensures !AtMostOneEmpty(ops)
  {
    hide RunPlain;
    var i, list := ops[n].i, RunPlain(capacity, ops[..n + 1]).value;
    var k :| 0 <= k < i && entries[k].msg.finished && list[k].msg.bytes == [];
    var a, b := EmptyOpenedTwice(capacity, ops[..n + 1], k, i);
    assert OpensEmpty(ops[a]) && OpensEmpty(ops[b]);
  }

  lemma NothingDone(capacity: nat, ops: seq<Op>)
    ensures RunPlain(capacity, ops[..0]) == Some([]) && Agree([], [], [])
  {
  }

  lemma AgreeMessages(entries: seq<Entry>, list: seq<Plain>, handles: seq<(Place, Place)>)
    requires Agree(entries, list, handles)
    ensures SameList(entries, list)
  {
  }

  /** One operation; it fails only by a finish that marks the wrong message. */
  method Perform(writer: NonBlockingWriter, op: Op, handles: seq<(Place, Place)>, ghost list: seq<Plain>)
    returns (next: seq<(Place, Place)>, ok: bool)
    requires writer.Valid() && Legal(writer.underlying.capacity, list, op) && Agree(writer.Messages(), list, handles)
    modifies writer, writer.underlying
    ensures writer.Valid()
    ensures ok ==> Agree(writer.Messages(), Done(writer.underlying.capacity, list, op), next)
    ensures !ok ==> op.Close? && Misses(writer.Messages(), Done(writer.underlying.capacity, list, op), op.i)
  {
    hide Done, Entries, Misses, SameMessages, MarkedFinished, Wrote;
    ghost var slots, pending, entries := writer.underlying.slots, writer.pending, writer.Messages();
    next, ok := handles, true;
    match op {
      case Open(m, size) =>
        var r := writer.Prepare(m, size);
        AgreeOpen(writer.underlying.capacity, entries, list, handles, op, r.place);
        next := handles + [(r.place, r.place)];
      case Write(i, bytes) =>
        AgreeWrite(writer.underlying.capacity, entries, list, handles, op);
        next := PerformWrite(writer, op, handles, list);
      case Close(i) =>
        var k := Marked(writer.underlying.slots, writer.pending, i);
        writer.Finish(handles[i].0, i);
        ok := k == i;
        if ok {
          AgreeClose(writer.underlying.capacity, entries, writer.Messages(), list, handles, op);
        } else {
          WrongMark(slots, pending, i);
          MissClose(writer.underlying.capacity, entries, writer.Messages(), list, handles, op, k);
        }
      case Flush =>
        var _ := writer.TryFlushPending();
        AgreeFlush(entries, writer.Messages(), list, handles);
        FlushUnseen(writer.underlying.capacity, list, op);
    }
  }

  method PerformWrite(writer: NonBlockingWriter, op: Op, handles: seq<(Place, Place)>, ghost list: seq<Plain>)
    returns (next: seq<(Place, Place)>)
    requires writer.Valid() && op.Write? && Legal(writer.underlying.capacity, list, op)
    requires Agree(writer.Messages(), list, handles)
    modifies writer, writer.underlying
    ensures writer.Valid() && Agree(writer.Messages(), Done(writer.underlying.capacity, list, op), next)
  {
    hide Done, Entries, Wrote, Lost, Receiver, Allocated, Bounded, Entry.Written;
    ghost var slots, pending, entries := writer.underlying.slots, writer.pending, writer.Messages();
    AgreeWrite(writer.underlying.capacity, entries, list, handles, op);
    var i, place := op.i, handles[op.i].1;
    var r := writer.WriteBytes(place, op.bytes, i);
    FittingBytesReach(slots, pending, i, place, op.bytes, r, writer.Messages());
    NextPlace(entries[i], op.bytes);
    next := handles[i := (handles[i].0, r.place)];
  }

  lemma NextPlace(e: Entry, bytes: seq<byte>)
    requires e.Fits(bytes)
    ensures e.Written(bytes).next == Advance(e.next, |bytes|)
  {
  }

  lemma FlushUnseen(capacity: nat, list: seq<Plain>, op: Op)
    requires op.Flush?
    ensures Legal(capacity, list, op) && Done(capacity, list, op) == list
  {
  }

  // ----- Messages without bytes

  /** Message `i` is queued and unfinished, so that it and everything behind it stays in the queue. */
  ghost predicate Stuck(writer: NonBlockingWriter, i: nat)
    reads writer, writer.underlying
  {
    writer.Valid() && |writer.underlying.slots| <= i < |writer.Messages()| && !writer.Messages()[i].msg.finished
  }

  /** What is flushed has been finished, so flushing stops at an unfinished message. */
  method FlushStops(writer: NonBlockingWriter, ghost i: nat)
    requires Stuck(writer, i)
    modifies writer, writer.underlying
    ensures Stuck(writer, i) && |writer.Messages()| == |old(writer.Messages())|
  {
    ghost var slots := writer.underlying.slots;
    var _ := writer.TryFlushPending();
    if |writer.underlying.slots| > i {
      AtSlot(writer.underlying.slots, writer.pending, i);
      assert false;
    }
  }

  /**
  Two messages without bytes, queued one after the other and then both finished: the second finish marks the
  first message again.  However many messages are prepared after that, and however often the queue is flushed,
  the second message stays in it unfinished, and with it every message behind it.
  */
  method SecondNeverFlushed(writer: NonBlockingWriter, m1: nat, m2: nat, later: seq<Op>)
    requires writer.Valid() && writer.pending != [] && forall p <- writer.pending :: p.buffer != []
    requires forall op <- later :: op.Open? || op.Flush?
    modifies writer, writer.underlying
    ensures Stuck(writer, |old(writer.Messages())| + 1)
  {
    ghost var count := |writer.Messages()|;
    FinishBoth(writer, m1, m2);
    var n := 0;
    while n < |later|
      invariant 0 <= n <= |later| && Stuck(writer, count + 1)
    {
      if later[n].Open? {
        OpenBehind(writer, later[n].m, later[n].size, count + 1);
      } else {
        FlushStops(writer, count + 1);
      }
      n := n + 1;
    }
  }

  method OpenBehind(writer: NonBlockingWriter, m: nat, size: nat, ghost i: nat)
    requires Stuck(writer, i)
    modifies writer, writer.underlying
    ensures Stuck(writer, i)
  {
    hide Entries, Allocated, Bounded;
    var _ := writer.Prepare(m, size);
  }

  method FinishBoth(writer: NonBlockingWriter, m1: nat, m2: nat)
    requires writer.Valid() && writer.pending != [] && forall p <- writer.pending :: p.buffer != []
    modifies writer, writer.underlying
    ensures Stuck(writer, |old(writer.Messages())| + 1)
  {
    ghost var n, k := |writer.Messages()|, |writer.underlying.slots|;
    AllHaveBytes(writer.underlying.slots, writer.pending);
    hide Entries, Allocated, Bounded, Marked;
    var a := writer.Prepare(m1, 0);
    SomeQueued(writer.underlying.slots, writer.pending, n);
    var b := writer.Prepare(m2, 0);
    EmptyMarks(writer.underlying.slots, writer.pending, n, n);
    writer.Finish(a.place, n);
    EmptyMarks(writer.underlying.slots, writer.pending, n + 1, n);
    writer.Finish(b.place, n + 1);
  }

  lemma AllHaveBytes(slots: seq<Slot>, pending: seq<Pending>)
    requires Bounded(slots) && Allocated(pending) && forall p <- pending :: p.buffer != []
    ensures forall j :: |slots| <= j < |slots| + |pending| ==> Entries(slots, pending)[j].msg.bytes != []
  {
    forall j | |slots| <= j < |slots| + |pending|
      ensures Entries(slots, pending)[j].msg.bytes != []
    {
      AtPending(slots, pending, j - |slots|);
    }
  }

  lemma SomeQueued(slots: seq<Slot>, pending: seq<Pending>, n: nat)
    requires Bounded(slots) && Allocated(pending) && |slots| <= n < |Entries(slots, pending)|
    ensures pending != []
  {
  }
}
