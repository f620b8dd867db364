/**
What the ring buffer promises, over every run: any number of writers, any interleaving.
*/
module RingBufferTheorems {
  import opened Bytes
  import opened Sequences
  import opened RingBuffer
  import opened RingBufferTape
  import opened RingBufferInvariant
  import opened RingBufferSafety
  import opened RingBufferDelivery
  import W = RingBufferWindow

  /** The handler receives a prefix of the reservations in the order in which `tail` advanced; each
      is finished, is delivered once, and carries the type and the bytes its writer wrote. */
  lemma MessagesDelivered(s: State, actions: seq<Action>)
    requires Init(s) && IsRun(s, actions)
    ensures var t := Run(s, actions);
      && |t.delivered| <= |t.log|
      && forall i :: 0 <= i < |t.delivered| ==>
           && t.log[i].stage.Finished?
           && |t.log[i].data| <= t.log[i].req.size
           && t.delivered[i] == Delivery(t.log[i].req.msg, Payload(t.log[i]))
  {
    hide Init, Images, W.WindowOk, WritersOk, ReaderOk, LogOk;
    InitSafe(s);
    RunSafe(s, actions);
  }

  /** A stale or backward-moving head cache never lets the tail run over the head. */
  lemma OffsetsOrdered(s: State, actions: seq<Action>)
    requires Init(s) && IsRun(s, actions)
    ensures var sh := Run(s, actions).sh;
      sh.headCache <= sh.head <= sh.tail <= sh.head + |sh.mem|
  {
    hide Inv, Init;
    InitSafe(s);
    RunSafe(s, actions);
    InvOffsets(Run(s, actions));
  }

  /** No thread ever comes to a step that would leave the buffer or wrap a subtraction. */
  lemma NeverOutOfBounds(s: State, actions: seq<Action>, a: Action)
    requires Init(s) && IsRun(s, actions) && AtPoint(Run(s, actions), a)
    ensures InBounds(Run(s, actions), a)
  {
    hide Inv, Init, InBounds, AtPoint;
    InitSafe(s);
    RunSafe(s, actions);
    StepSafe(Run(s, actions), a);
  }

  // ----- Live reservations

  /** The bytes of the buffer that hold the message of an entry. */
  predicate Holds(size: nat, e: Entry, i: nat)
    requires size > 0
  {
    Index(e.Body(), size) <= i < Index(e.Body(), size) + e.len
  }

  lemma HeldOffset(size: nat, head: nat, e: Entry, i: nat)
    requires size > 0 && head <= e.Body() && e.End() <= head + size
    requires Index(e.Body(), size) + e.len <= size && Holds(size, e, i)
    ensures e.Body() <= W.Offset(head, size, i) < e.End()
  {
    hide Index;
    var j := i - Index(e.Body(), size);
    W.IndexAdd(e.Body(), j, size);
    W.OffsetOf(head, size, e.Body() + j);
  }

  lemma LiveEntry(s: State, i: nat)
    requires Inv(s) && i < |s.log| && s.sh.head <= s.log[i].Body()
    ensures s.log[i].End() <= s.sh.head + |s.sh.mem|
    ensures Index(s.log[i].Body(), |s.sh.mem|) + s.log[i].len <= |s.sh.mem|
  {
    hide Index, Aligned, Images, W.WindowOk, WritersOk, ReaderOk, DeliveredOk, EntrySize;
    assert EntryOk(s.log[i], |s.sh.mem|);
    BodyContiguous(s.log[i], |s.sh.mem|);
    StartsIncrease(s.log, s.sh.tail, i, |s.log|);
  }

  /** The bytes of the buffer that pad the end of the buffer before an entry's message. */
  predicate Pads(size: nat, e: Entry, i: nat)
    requires size > 0
  {
    Index(e.start, size) <= i < Index(e.start, size) + e.pad
  }

  /** The bytes of an entry, padding or message, that the reader has not released. */
  predicate Lives(size: nat, head: nat, e: Entry, i: nat)
    requires size > 0
  {
    (head <= e.start && Pads(size, e, i)) || (head <= e.Body() && Holds(size, e, i))
  }

  lemma PadOffset(size: nat, head: nat, e: Entry, i: nat)
    requires size > 0 && head <= e.start && e.End() <= head + size
    requires Index(e.start, size) + e.pad <= size && Pads(size, e, i)
    ensures e.start <= W.Offset(head, size, i) < e.Body()
  {
    hide Index;
    var j := i - Index(e.start, size);
    W.IndexAdd(e.start, j, size);
    W.OffsetOf(head, size, e.start + j);
  }

  lemma LivePad(s: State, i: nat)
    requires Inv(s) && i < |s.log|
    ensures Index(s.log[i].start, |s.sh.mem|) + s.log[i].pad <= |s.sh.mem|
  {
    hide Index, Aligned, Images, W.WindowOk, WritersOk, ReaderOk, DeliveredOk, EntrySize;
    assert EntryOk(s.log[i], |s.sh.mem|);
    BodyContiguous(s.log[i], |s.sh.mem|);
  }

  lemma LiveOffset(size: nat, head: nat, e: Entry, k: nat)
    requires size > 0 && Lives(size, head, e, k) && (head <= e.Body() ==> e.End() <= head + size)
    requires Index(e.start, size) + e.pad <= size && Index(e.Body(), size) + e.len <= size
    ensures var o := W.Offset(head, size, k);
      && e.start <= o < e.End()
      && (Pads(size, e, k) && head <= e.start ==> o < e.Body())
      && (Holds(size, e, k) ==> e.Body() <= o)
  {
    hide Index, Pads, Holds;
    if head <= e.start && Pads(size, e, k) {
      PadOffset(size, head, e, k);
    }
    if Holds(size, e, k) {
      HeldOffset(size, head, e, k);
    }
  }

  /**
  What the reader has not released lies in contiguous ranges of the buffer, one for the message and one for the
  padding before it, and no byte belongs to two of them.
  */
  lemma LiveMessagesDisjoint(s: State, actions: seq<Action>, i: nat, j: nat, k: nat)
    requires Init(s) && IsRun(s, actions)
    requires var t := Run(s, actions); |t.sh.mem| > 0 && i < j < |t.log| && t.sh.head <= t.log[i].Body()
    ensures var t := Run(s, actions);
      var size, head, e, f := |t.sh.mem|, t.sh.head, t.log[i], t.log[j];
      && Index(e.Body(), size) + e.len <= size && Index(e.start, size) + e.pad <= size
      && !(Lives(size, head, e, k) && Lives(size, head, f, k))
      && !(head <= e.start && Pads(size, e, k) && Holds(size, e, k))
  {
    hide Init, Index, Pads, Holds, Inv;
    InitSafe(s);
    RunSafe(s, actions);
    var t := Run(s, actions);
    IdentifiersApart(t, i, j);
    LivePad(t, i);
    LiveEntry(t, i);
    LivePad(t, j);
    LiveEntry(t, j);
    NotTwice(|t.sh.mem|, t.sh.head, t.log[i], t.log[j], k);
  }

  lemma NotTwice(size: nat, head: nat, e: Entry, f: Entry, k: nat)
    requires size > 0 && head <= e.Body() && e.End() <= f.start && f.End() <= head + size
    requires Index(e.start, size) + e.pad <= size && Index(e.Body(), size) + e.len <= size
    requires Index(f.start, size) + f.pad <= size && Index(f.Body(), size) + f.len <= size
    ensures !(Lives(size, head, e, k) && Lives(size, head, f, k))
    ensures !(head <= e.start && Pads(size, e, k) && Holds(size, e, k))
  {
    hide Index, Pads, Holds;
    if Lives(size, head, e, k) {
      LiveOffset(size, head, e, k);
    }
    if Lives(size, head, f, k) {
      LiveOffset(size, head, f, k);
    }
  }

  lemma IdentifiersApart(t: State, i: nat, j: nat)
    requires Inv(t) && i < j < |t.log|
    ensures t.log[i].start < t.log[i].End() <= t.log[j].start
  {
    hide Index, Aligned, Images, W.WindowOk, WritersOk, ReaderOk, DeliveredOk, EntryOk;
    StartsIncrease(t.log, t.sh.tail, i, j);
    StartsIncrease(t.log, t.sh.tail, i, i + 1);
  }

  /** Every byte that belongs to no reservation is zero. */
  lemma FreeBytesZero(s: State, actions: seq<Action>, i: nat)
    requires Init(s) && IsRun(s, actions)
    requires i < |Run(s, actions).sh.mem|
    requires var t := Run(s, actions);
      W.Offset(t.sh.head, |t.sh.mem|, i) >= t.sh.tail
    ensures Run(s, actions).sh.mem[i] == 0
  {
    hide Init, Index, Aligned, Images, WritersOk, ReaderOk, DeliveredOk, EntryOk;
    InitSafe(s);
    RunSafe(s, actions);
    TapeEnds(Run(s, actions));
  }

  lemma ZeroBody(e: Entry)
    requires Imageable(e) && (e.stage.Claimed? || e.stage.Ready?)
    ensures Image(e)[e.pad..e.pad + e.len] == Zeros(e.len)
  {
    hide EncodeLE, MakeHeader, PadImage;
    assert Image(e)[e.pad..e.pad + e.len] == BodyImage(e);
  }

  lemma UnwrittenZero(t: State, i: nat, k: nat)
    requires Inv(t) && k < |t.log| && (t.log[k].stage.Claimed? || t.log[k].stage.Ready?)
    requires Holds(|t.sh.mem|, t.log[k], i)
    ensures i < |t.sh.mem| && t.sh.mem[i] == 0
  {
    hide Index, Aligned, Images, Image, W.WindowOk, WritersOk, EntryOk;
    var e := t.log[k];
    NotDelivered(t, k);
    ReaderBehind(t.log, t.sh.tail, |t.delivered|, t.sh.head + Advance(t.reader), k);
    LiveEntry(t, k);
    ReadEntry(t.sh, t.log, Cleared(t.reader), k, e.pad, e.len);
    ZeroBody(e);
    var o := Index(e.Body(), |t.sh.mem|);
    var held := t.sh.mem[o..o + e.len];
    assert held == Zeros(e.len);
    assert t.sh.mem[i] == held[i - o];
  }

  lemma ZeroPad(e: Entry)
    requires Imageable(e) && e.stage.Claimed?
    ensures Image(e)[0..e.pad] == Zeros(e.pad)
  {
    hide EncodeLE, MakeHeader, BodyImage;
    assert Image(e)[0..e.pad] == PadImage(e);
  }

  lemma UnwrittenPadZero(t: State, i: nat, k: nat)
    requires Inv(t) && k < |t.log| && t.log[k].stage.Claimed? && Pads(|t.sh.mem|, t.log[k], i)
    ensures i < |t.sh.mem| && t.sh.mem[i] == 0
  {
    hide Index, Aligned, Images, Image, W.WindowOk, WritersOk, EntryOk;
    var e := t.log[k];
    NotDelivered(t, k);
    ReaderBehind(t.log, t.sh.tail, |t.delivered|, t.sh.head + Advance(t.reader), k);
    LivePad(t, k);
    ReadEntry(t.sh, t.log, Cleared(t.reader), k, 0, e.pad);
    ZeroPad(e);
    var o := Index(e.start, |t.sh.mem|);
    var held := t.sh.mem[o..o + e.pad];
    assert t.sh.mem[i] == held[i - o];
  }

  /** So is every byte of a message whose header has not been written yet, and of padding whose header has not: a
      reader that gets there sees no message. */
  lemma UnwrittenBytesZero(s: State, actions: seq<Action>, i: nat, k: nat)
    requires Init(s) && IsRun(s, actions)
    requires var t := Run(s, actions);
      && |t.sh.mem| > 0 && k < |t.log| && (t.log[k].stage.Claimed? || t.log[k].stage.Ready?)
      && (Holds(|t.sh.mem|, t.log[k], i) || (t.log[k].stage.Claimed? && Pads(|t.sh.mem|, t.log[k], i)))
    ensures i < |Run(s, actions).sh.mem| && Run(s, actions).sh.mem[i] == 0
  {
    hide Inv, Init, Holds, Pads;
    InitSafe(s);
    RunSafe(s, actions);
    var t := Run(s, actions);
    if Holds(|t.sh.mem|, t.log[k], i) {
      UnwrittenZero(t, i, k);
    } else {
      UnwrittenPadZero(t, i, k);
    }
  }

  // ----- How the history grows

  /** `t`'s history is a later one than `s`'s: reservations keep their place, type and the bytes
      already written, and finished ones do not change at all. */
  ghost predicate Later(s: State, t: State) {
    && |s.log| <= |t.log|
    && (forall i :: 0 <= i < |s.log| ==> LaterEntry(s.log[i], t.log[i]))
    && s.delivered <= t.delivered
  }

  predicate LaterEntry(e: Entry, f: Entry) {
    && SamePlace(f, e)
    && e.data <= f.data
    && (e.stage.Finished? ==> f == e)
  }

  lemma LaterTransitive(s: State, t: State, u: State)
    requires Later(s, t) && Later(t, u)
    ensures Later(s, u)
  {
    forall i | 0 <= i < |s.log|
      ensures LaterEntry(s.log[i], u.log[i])
    {
      assert LaterEntry(s.log[i], t.log[i]) && LaterEntry(t.log[i], u.log[i]);
    }
  }

  lemma StepLater(s: State, a: Action)
    requires Inv(s) && Enabled(s, a)
    ensures Later(s, Apply(s, a))
  {
    hide Inv, StepWriter, ScanHeader, Index, Splice, Read64;
    if (a.Step? || a.WriteBytes?) && s.writers[a.w].Owns() {
      OwnedEntry(s, a.w);
    }
  }

  lemma {:induction false} RunLater(s: State, actions: seq<Action>)
    requires Inv(s) && IsRun(s, actions)
    ensures Later(s, Run(s, actions))
    decreases |actions|
  {
    hide Inv, Apply, AtPoint, InBounds;
    if actions != [] {
      var s1 := Apply(s, actions[0]);
      StepLater(s, actions[0]);
      StepSafe(s, actions[0]);
      RunLater(s1, actions[1..]);
      LaterTransitive(s, s1, Run(s1, actions[1..]));
    }
  }

  /** Nothing delivered is ever taken back, and no finished message ever changes. */
  lemma HistoryGrows(s: State, past: seq<Action>, future: seq<Action>)
    requires Init(s) && IsRun(s, past) && IsRun(Run(s, past), future)
    ensures Later(Run(s, past), Run(Run(s, past), future))
  {
    hide Inv, Init, Later;
    InitSafe(s);
    RunSafe(s, past);
    RunLater(Run(s, past), future);
  }

  /** The identifier of a reservation, its place on the tape, is never given out twice. */
  lemma IdentifiersUnique(s: State, actions: seq<Action>, i: nat, j: nat)
    requires Init(s) && IsRun(s, actions)
    requires i < j < |Run(s, actions).log|
    ensures Run(s, actions).log[i].start < Run(s, actions).log[j].start
  {
    hide Init, Images, W.WindowOk, WritersOk, ReaderOk, DeliveredOk, EntryOk;
    InitSafe(s);
    RunSafe(s, actions);
    StartsIncrease(Run(s, actions).log, Run(s, actions).sh.tail, i, j);
  }
}
