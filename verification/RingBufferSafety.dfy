/**
Every step keeps the invariant, and no step ever leaves the buffer.
*/
module RingBufferSafety {
  import opened Bytes
  import opened Sequences
  import opened RingBuffer
  import opened RingBufferTape
  import opened RingBufferInvariant
  import W = RingBufferWindow

  // ----- Reserving

  lemma {:induction false} ReserveStep(sh: Shared, pc: WriterPc)
    requires OffsetsOk(sh) && Internal(pc) && !pc.Owns()
    requires ReservingOk(|sh.mem|, sh.head, sh.tail, pc)
    ensures pc.LoopTop? || pc.StoreCacheForSpace? || pc.Fit? ==> pc.hd <= pc.tl
    ensures var (sh', pc') := StepWriter(sh, pc);
      && (exists hd: nat :: hd <= sh.head && sh' == sh.(headCache := hd))
      && !pc'.Owns()
      && (!pc'.Idle? ==> ReservingOk(|sh.mem|, sh.head, sh.tail, pc'))
  {
    hide EntrySize, Write64, Index, Aligned;
    var size := |sh.mem|;
    var (sh', pc') := StepWriter(sh, pc);
    assert sh' == sh.(headCache := sh'.headCache);
    match pc
    case Fit(req, hd, tl) =>
      FitStep(size, hd, tl, req);
    case LoadHeadForFront(req, hd, tl) =>
      if req.Reserved() <= Index(sh.head, size) {
        FrontStep(size, hd, sh.head, tl, req);
      }
    case _ =>
  }

  lemma FrontStep(size: nat, hd: nat, hd2: nat, tl: nat, req: Request)
    requires size > 0 && Aligned(size) && req.Acceptable(size) && Aligned(tl)
    requires Room(size, hd, tl, req.Reserved()) && hd <= hd2
    requires req.Reserved() > size - Index(tl, size) && req.Reserved() <= Index(hd2, size)
    ensures hd2 <= tl ==> ClaimOk(size, hd2, tl, size - Index(tl, size), req.Reserved())
  {
    hide Index, Aligned, EntrySize;
    if hd2 <= tl {
      FrontFits(size, hd, hd2, tl, req.Reserved());
      W.AlignedIndex(tl, size);
      PaddingFits(req, size, size - Index(tl, size));
    }
  }

  lemma FitStep(size: nat, hd: nat, tl: nat, req: Request)
    requires size > 0 && Aligned(size) && req.Acceptable(size) && Aligned(tl)
    requires Room(size, hd, tl, req.Reserved())
    ensures req.Reserved() <= size - Index(tl, size) ==> ClaimOk(size, hd, tl, 0, req.Reserved())
    ensures size - Index(tl, size) < req.Reserved() <= Index(hd, size) ==>
      ClaimOk(size, hd, tl, size - Index(tl, size), req.Reserved())
  {
    hide Index, EntrySize;
    if size - Index(tl, size) < req.Reserved() <= Index(hd, size) {
      FrontStep(size, hd, hd, tl, req);
    }
  }

  // ----- What other threads see of a step

  lemma WriterStable(size: nat, head: nat, tail: nat, log: seq<Entry>, pc: WriterPc,
                     head': nat, tail': nat, log': seq<Entry>)
    requires size > 0 && WriterOk(size, head, tail, log, pc)
    requires head <= head' && tail <= tail' && |log| <= |log'|
    requires pc.Owns() ==> log'[pc.slot] == log[pc.slot]
    ensures WriterOk(size, head', tail', log', pc)
  {
  }

  lemma WritersKept(s: State, s': State, w: nat)
    requires |s.sh.mem| == |s'.sh.mem| > 0 && WritersOk(s) && w < |s.writers|
    requires s.sh.head <= s'.sh.head && s.sh.tail <= s'.sh.tail
    requires |s'.writers| == |s.writers| && s'.writers == s.writers[w := s'.writers[w]]
    requires |s.log| <= |s'.log|
    requires forall i :: 0 <= i < |s.log| ==>
      s'.log[i] == s.log[i] || (s.writers[w].Owns() && s.writers[w].slot == i)
    requires WriterOk(|s.sh.mem|, s'.sh.head, s'.sh.tail, s'.log, s'.writers[w])
    requires s'.writers[w].Owns() ==>
      s'.writers[w].slot == |s.log| || (s.writers[w].Owns() && s.writers[w].slot == s'.writers[w].slot)
    ensures WritersOk(s')
  {
    hide OwnerOk, ReservingOk;
    forall v | 0 <= v < |s.writers| && v != w
      ensures WriterOk(|s.sh.mem|, s'.sh.head, s'.sh.tail, s'.log, s'.writers[v])
    {
      WriterStable(|s.sh.mem|, s.sh.head, s.sh.tail, s.log, s.writers[v],
                   s'.sh.head, s'.sh.tail, s'.log);
    }
    forall u, v | 0 <= u < v < |s.writers| && s'.writers[u].Owns() && s'.writers[v].Owns()
      ensures s'.writers[u].slot != s'.writers[v].slot
    {
      assert WriterOk(|s.sh.mem|, s.sh.head, s.sh.tail, s.log, s.writers[u]);
      assert WriterOk(|s.sh.mem|, s.sh.head, s.sh.tail, s.log, s.writers[v]);
    }
  }

  lemma WritersKeptByReader(s: State, s': State)
    requires |s.sh.mem| == |s'.sh.mem| > 0 && WritersOk(s)
    requires s.sh.head <= s'.sh.head && s.sh.tail == s'.sh.tail
    requires s'.writers == s.writers && s'.log == s.log
    ensures WritersOk(s')
  {
    hide OwnerOk, ReservingOk;
    forall v | 0 <= v < |s.writers|
      ensures WriterOk(|s.sh.mem|, s'.sh.head, s'.sh.tail, s'.log, s'.writers[v])
    {
      WriterStable(|s.sh.mem|, s.sh.head, s.sh.tail, s.log, s.writers[v],
                   s'.sh.head, s'.sh.tail, s'.log);
    }
  }

  lemma DeliveredSame(s: State, s': State)
    requires DeliveredOk(s) && s'.log == s.log && s'.delivered == s.delivered
    ensures DeliveredOk(s')
  {
    hide Payload;
  }

  lemma ReaderSame(s: State, s': State)
    requires |s.sh.mem| == |s'.sh.mem| > 0 && ReaderOk(s)
    requires s'.log == s.log && s'.delivered == s.delivered && s'.reader == s.reader
    requires s'.sh.head == s.sh.head && s'.sh.tail == s.sh.tail
    ensures ReaderOk(s')
  {
    hide Index, AtEntry;
  }

  // ----- Writing inside a reservation

  lemma NotDelivered(s: State, slot: nat)
    requires DeliveredOk(s) && slot < |s.log| && !s.log[slot].stage.Finished?
    ensures |s.delivered| <= slot
  {
  }

  /** The reader, before entry `c`, has not got to the part of a later or unfinished entry that its
      writer still writes. */
  lemma ReaderBehind(log: seq<Entry>, tail: nat, c: nat, p: nat, slot: nat)
    requires Chained(log, tail) && AtEntry(log, tail, c, p) && c <= slot < |log|
    ensures p <= log[slot].Body()
    ensures log[slot].stage.Claimed? ==> p <= log[slot].start
    ensures log[slot].End() <= tail
  {
    StartsIncrease(log, tail, slot, |log|);
    if c < slot {
      StartsIncrease(log, tail, c, slot);
      assert p <= log[c].Body() <= log[c].End() <= log[slot].start;
    }
  }

  lemma LogUpdate(log: seq<Entry>, tail: nat, size: nat, slot: nat, e: Entry)
    requires size > 0 && LogOk(log, tail, size) && slot < |log|
    requires EntryOk(e, size) && Imageable(e) && SamePlace(e, log[slot])
    ensures LogOk(log[slot := e], tail, size)
  {
    hide EntryOk;
    ChainUpdate(log, tail, slot, e);
  }

  /** A write inside one entry's image is a write on the tape. */
  lemma TapeWrite(log: seq<Entry>, tail: nat, slot: nat, e: Entry, at: nat, bytes: seq<byte>)
    requires Chained(log, tail) && slot < |log| && Imageable(e) && SamePlace(e, log[slot])
    requires at + |bytes| <= e.pad + e.len && Image(e) == Splice(Image(log[slot]), at, bytes)
    ensures e.End() <= tail == |Tape(log)|
    ensures Tape(log[slot := e]) == Splice(Tape(log), e.start + at, bytes)
  {
    hide PadImage, BodyImage;
    var parts := Images(log);
    assert Images(log[slot := e]) == parts[slot := Splice(parts[slot], at, bytes)];
    FlattenSplice(parts, slot, at, bytes);
    TapePosition(log, tail, slot);
    TapeLength(log, tail);
  }

  /** A write inside an unfinished entry changes the memory as it changes the entry's image. */
  lemma EntryWrite(sh: Shared, log: seq<Entry>, c: nat, p: nat, cleared: nat,
                   slot: nat, e: Entry, at: nat, bytes: seq<byte>)
    requires |sh.mem| > 0 && sh.tail <= sh.head + |sh.mem|
    requires Chained(log, sh.tail) && W.WindowOk(sh.mem, sh.head, cleared, Tape(log))
    requires AtEntry(log, sh.tail, c, p) && c <= slot < |log| && sh.head + cleared <= p
    requires Imageable(e) && SamePlace(e, log[slot])
    requires at + |bytes| <= e.pad + e.len && (!log[slot].stage.Claimed? ==> at >= e.pad)
    requires Image(e) == Splice(Image(log[slot]), at, bytes)
    requires Index(e.start + at, |sh.mem|) + |bytes| <= |sh.mem|
    ensures Chained(log[slot := e], sh.tail)
    ensures W.WindowOk(Splice(sh.mem, Index(e.start + at, |sh.mem|), bytes),
                       sh.head, cleared, Tape(log[slot := e]))
  {
    hide PadImage, BodyImage, Images, W.WindowOk, Index, Aligned;
    ChainUpdate(log, sh.tail, slot, e);
    assert sh.head + cleared <= e.start + at by {
      ReaderBehind(log, sh.tail, c, p, slot);
    }
    TapeWrite(log, sh.tail, slot, e, at, bytes);
    W.WriteWindow(sh.mem, sh.head, cleared, Tape(log), e.start + at, bytes);
  }

  /** Changing an unfinished entry does not change what the reader has seen. */
  lemma ReaderKept(s: State, s': State, slot: nat, e: Entry)
    requires |s.sh.mem| > 0 && ReaderOk(s) && DeliveredOk(s)
    requires slot < |s.log| && !s.log[slot].stage.Finished?
    requires SamePlace(e, s.log[slot]) && (e.stage.Claimed? ==> s.log[slot].stage.Claimed?)
    requires |s'.sh.mem| == |s.sh.mem| && s'.sh.head == s.sh.head && s'.sh.tail == s.sh.tail
    requires s'.reader == s.reader && s'.delivered == s.delivered && s'.log == s.log[slot := e]
    ensures ReaderOk(s') && DeliveredOk(s')
  {
    NotDelivered(s, slot);
  }

  // ----- Steps of a writer that holds a reservation

  /** The shared shape of these steps: some bytes of the reservation are written, and the history
      records it. */
  ghost predicate OwnerMove(s: State, s': State, w: nat, e: Entry, at: nat, bytes: seq<byte>, pc: WriterPc)
    requires Inv(s) && w < |s.writers| && s.writers[w].Owns()
  {
    var slot := s.writers[w].slot;
    && (pc.Idle? || (pc.Owns() && pc.slot == slot && OwnerOk(|s.sh.mem|, pc, e)))
    && EntryOk(e, |s.sh.mem|) && Imageable(e) && SamePlace(e, s.log[slot]) && !e.stage.Claimed?
    && at + |bytes| <= e.pad + e.len && (!s.log[slot].stage.Claimed? ==> at >= e.pad)
    && Image(e) == Splice(Image(s.log[slot]), at, bytes)
    && Index(e.start + at, |s.sh.mem|) + |bytes| <= |s.sh.mem|
    && s' == s.(sh := s.sh.(mem := Splice(s.sh.mem, Index(e.start + at, |s.sh.mem|), bytes)),
                writers := s.writers[w := pc],
                log := s.log[slot := e])
  }

  lemma OwnerMoveSafe(s: State, s': State, w: nat, e: Entry, at: nat, bytes: seq<byte>, pc: WriterPc)
    requires Inv(s) && w < |s.writers| && s.writers[w].Owns()
    requires OwnerMove(s, s', w, e, at, bytes, pc)
    ensures Inv(s')
  {
    hide Image, OwnerOk, ReservingOk, EntryOk, W.WindowOk, Images, Index, Aligned;
    var slot := s.writers[w].slot;
    assert WriterOk(|s.sh.mem|, s.sh.head, s.sh.tail, s.log, s.writers[w]);
    OwnerUnfinished(|s.sh.mem|, s.writers[w], s.log[slot]);
    NotDelivered(s, slot);
    EntryWrite(s.sh, s.log, |s.delivered|, s.sh.head + Advance(s.reader), Cleared(s.reader),
               slot, e, at, bytes);
    LogUpdate(s.log, s.sh.tail, |s.sh.mem|, slot, e);
    WritersKept(s, s', w);
    ReaderKept(s, s', slot, e);
  }

  lemma OwnerUnfinished(size: nat, pc: WriterPc, e: Entry)
    requires size > 0 && pc.Owns() && OwnerOk(size, pc, e)
    ensures !e.stage.Finished?
  {
  }

  lemma InvOffsets(s: State)
    requires Inv(s)
    ensures OffsetsOk(s.sh)
  {
    hide W.WindowOk, LogOk, WritersOk, ReaderOk, DeliveredOk, Images;
  }

  /** Everything an owner's step needs to know about its entry. */
  lemma OwnedEntry(s: State, w: nat)
    requires Inv(s) && w < |s.writers| && s.writers[w].Owns()
    ensures s.writers[w].slot < |s.log|
    ensures var e := s.log[s.writers[w].slot];
      OwnerOk(|s.sh.mem|, s.writers[w], e) && EntryOk(e, |s.sh.mem|) && Imageable(e)
  {
    hide OwnerOk, ReservingOk, EntryOk, W.WindowOk, Images, ReaderOk, DeliveredOk;
    assert WriterOk(|s.sh.mem|, s.sh.head, s.sh.tail, s.log, s.writers[w]);
  }

  lemma PadStep(s: State, w: nat)
    requires Inv(s) && w < |s.writers| && s.writers[w].WritePad?
    ensures Enabled(s, Step(w)) && Inv(Apply(s, Step(w)))
  {
    hide Inv, W.WindowOk, Images, Image, EncodeLE, MakeHeader, Index, Aligned, EntrySize;
    OwnedEntry(s, w);
    var pc := s.writers[w];
    var e := s.log[pc.slot];
    var size := |s.sh.mem|;
    BodyContiguous(e, size);
    ImagePad(e);
    var bytes := EncodeLE(MakeHeader(MSG_PAD, e.pad, false), 8);
    OwnerMoveSafe(s, Apply(s, Step(w)), w, e.(stage := Ready), 0, bytes, WriteHeader(pc.req, 0, pc.slot));
  }

  lemma HeaderStep(s: State, w: nat)
    requires Inv(s) && w < |s.writers| && s.writers[w].WriteHeader?
    ensures Enabled(s, Step(w)) && Inv(Apply(s, Step(w)))
  {
    hide Inv, W.WindowOk, Images, Image, EncodeLE, MakeHeader, Index, Aligned, EntrySize;
    OwnedEntry(s, w);
    var pc := s.writers[w];
    var e := s.log[pc.slot];
    BodyContiguous(e, |s.sh.mem|);
    ImageHeader(e);
    var bytes := EncodeLE(MakeHeader(e.req.msg, e.req.size, true), 8);
    var marker := pc.index + HEADER_SIZE;
    OwnerMoveSafe(s, Apply(s, Step(w)), w, e.(stage := Pending), e.pad, bytes,
                  Writing(pc.req, marker, marker, pc.slot));
  }

  lemma FinishStep(s: State, w: nat)
    requires Inv(s) && w < |s.writers| && s.writers[w].Finishing?
    ensures Enabled(s, Step(w)) && Inv(Apply(s, Step(w)))
  {
    hide Inv, W.WindowOk, Images, Image, EncodeLE, MakeHeader, Index, Aligned, EntrySize;
    OwnedEntry(s, w);
    var pc := s.writers[w];
    var e := s.log[pc.slot];
    BodyContiguous(e, |s.sh.mem|);
    ImageFinish(e);
    FinishedHeader(e.req.msg, e.req.size);
    var bytes := EncodeLE(MakeHeader(e.req.msg, e.req.size, false), 8);
    OwnerMoveSafe(s, Apply(s, Step(w)), w, e.(stage := Finished), e.pad, bytes, Idle);
  }

  lemma BytesInBounds(s: State, w: nat, bytes: seq<byte>)
    requires Inv(s) && AtPoint(s, WriteBytes(w, bytes))
    ensures Enabled(s, WriteBytes(w, bytes))
    ensures s.writers[w].slot < |s.log|
    ensures var e := s.log[s.writers[w].slot];
      && s.writers[w].next == Index(e.Body(), |s.sh.mem|) + 8 + |e.data|
      && 8 + |e.data| + |bytes| <= e.len && |e.data| + |bytes| <= e.req.size
      && Index(e.Body(), |s.sh.mem|) + e.len <= |s.sh.mem|
  {
    hide Inv, Images, Image, Index, Aligned, EntrySize;
    OwnedEntry(s, w);
    var e := s.log[s.writers[w].slot];
    BodyContiguous(e, |s.sh.mem|);
    EntrySizeBounds(e.req.size);
  }

  lemma BytesStep(s: State, w: nat, bytes: seq<byte>)
    requires Inv(s) && AtPoint(s, WriteBytes(w, bytes))
    ensures Enabled(s, WriteBytes(w, bytes)) && Inv(Apply(s, WriteBytes(w, bytes)))
  {
    hide Inv, Image, Index, Aligned, EntrySize;
    BytesInBounds(s, w, bytes);
    if bytes == [] {
      NoBytes(s, w);
    } else {
      OwnedEntry(s, w);
      var pc := s.writers[w];
      var e := s.log[pc.slot];
      var at := e.pad + 8 + |e.data|;
      W.IndexAdd(e.Body(), 8 + |e.data|, |s.sh.mem|);
      assert e.Body() + (8 + |e.data|) == e.start + at;
      ImageData(e, bytes);
      OwnerMoveSafe(s, Apply(s, WriteBytes(w, bytes)), w, e.(data := e.data + bytes), at, bytes,
                    pc.(next := pc.next + |bytes|));
    }
  }

  lemma NoBytes(s: State, w: nat)
    requires Enabled(s, WriteBytes(w, []))
    ensures Apply(s, WriteBytes(w, [])) == s
  {
    var pc := s.writers[w];
    assert Splice(s.sh.mem, pc.next, []) == s.sh.mem;
    assert s.log[pc.slot].data + [] == s.log[pc.slot].data;
  }

  // ----- Reading

  /** The eight bytes at the start of an entry's body. */
  lemma BodyHeader(e: Entry)
    requires Imageable(e)
    ensures Image(e)[e.pad..e.pad + 8] ==
      if e.stage.Claimed? || e.stage.Ready? then Zeros(8)
      else EncodeLE(MakeHeader(e.req.msg, e.req.size, e.stage.Pending?), 8)
  {
    hide EncodeLE, MakeHeader;
  }

  lemma PadHeader(e: Entry)
    requires Imageable(e) && e.pad > 0
    ensures Image(e)[..8] ==
      if e.stage.Claimed? then Zeros(8) else EncodeLE(MakeHeader(MSG_PAD, e.pad, false), 8)
  {
    hide EncodeLE, MakeHeader;
  }

  lemma BodyPayload(e: Entry)
    requires Imageable(e) && e.stage.Finished? && |e.data| <= e.req.size && 8 + e.req.size <= e.len
    ensures Image(e)[e.pad + 8..e.pad + 8 + e.req.size] == Payload(e)
  {
    hide EncodeLE, MakeHeader;
  }

  lemma TapeAt(log: seq<Entry>, tail: nat, i: nat)
    requires Chained(log, tail) && i < |log|
    ensures log[i].End() <= tail == |Tape(log)|
    ensures Tape(log)[log[i].start..log[i].End()] == Image(log[i])
  {
    hide PadImage, BodyImage;
    TapeLength(log, tail);
    TapePosition(log, tail, i);
    FlattenAt(Images(log), i);
  }

  /** Bytes of an entry that the reader has not cleared are in memory as its image has them. */
  lemma ReadEntry(sh: Shared, log: seq<Entry>, cleared: nat, i: nat, at: nat, n: nat)
    requires |sh.mem| > 0 && sh.tail <= sh.head + |sh.mem|
    requires Chained(log, sh.tail) && W.WindowOk(sh.mem, sh.head, cleared, Tape(log))
    requires i < |log| && at + n <= log[i].pad + log[i].len && sh.head + cleared <= log[i].start + at
    requires Index(log[i].start + at, |sh.mem|) + n <= |sh.mem|
    ensures var o := Index(log[i].start + at, |sh.mem|);
      sh.mem[o..o + n] == Image(log[i])[at..at + n]
  {
    hide Image, Images, W.WindowOk, Index, Aligned;
    TapeAt(log, sh.tail, i);
    var tape, start := Tape(log), log[i].start;
    W.ReadTape(sh.mem, sh.head, cleared, tape, start + at, n);
    SubSlice(tape, start, log[i].pad + log[i].len, at, n);
  }

  lemma HeaderWritten(sh: Shared, log: seq<Entry>, cleared: nat, slot: nat)
    requires |sh.mem| > 0 && sh.tail <= sh.head + |sh.mem|
    requires LogOk(log, sh.tail, |sh.mem|) && W.WindowOk(sh.mem, sh.head, cleared, Tape(log))
    requires slot < |log| && log[slot].stage.Pending? && sh.head + cleared <= log[slot].Body()
    ensures Index(log[slot].Body(), |sh.mem|) + 8 <= |sh.mem|
    ensures Read64(sh.mem, Index(log[slot].Body(), |sh.mem|)) ==
            MakeHeader(log[slot].req.msg, log[slot].req.size, true)
  {
    hide W.WindowOk, Images, Image, EncodeLE, MakeHeader, Index, Aligned, EntrySize;
    var e := log[slot];
    assert EntryOk(e, |sh.mem|) && Imageable(e);
    BodyContiguous(e, |sh.mem|);
    ReadEntry(sh, log, cleared, slot, e.pad, 8);
    BodyHeader(e);
    HeaderFields(e.req.msg, e.req.size, true);
  }

  lemma PendingHeader(s: State, slot: nat)
    requires Inv(s) && slot < |s.log| && s.log[slot].stage.Pending?
    ensures Index(s.log[slot].Body(), |s.sh.mem|) + 8 <= |s.sh.mem|
    ensures Read64(s.sh.mem, Index(s.log[slot].Body(), |s.sh.mem|)) ==
            MakeHeader(s.log[slot].req.msg, s.log[slot].req.size, true)
  {
    hide W.WindowOk, Images, MakeHeader, Index, Aligned, Read64, EntryOk, WritersOk;
    NotDelivered(s, slot);
    ReaderBehind(s.log, s.sh.tail, |s.delivered|, s.sh.head + Advance(s.reader), slot);
    HeaderWritten(s.sh, s.log, Cleared(s.reader), slot);
  }

  /** `finish` reads back the header that `prepare` wrote. */
  lemma FinishRead(s: State, w: nat)
    requires Inv(s) && w < |s.writers| && s.writers[w].Writing?
    ensures 8 <= s.writers[w].initial <= |s.sh.mem|
    ensures Read64(s.sh.mem, s.writers[w].initial - 8) ==
            MakeHeader(s.writers[w].req.msg, s.writers[w].req.size, true)
  {
    hide Inv, MakeHeader, Index, Read64, EntryOk, Imageable;
    OwnedEntry(s, w);
    PendingHeader(s, s.writers[w].slot);
  }

  /** Steps that change one writer's program point and nothing that others look at. */
  lemma LocalStep(s: State, w: nat, pc: WriterPc, hd: nat)
    requires Inv(s) && w < |s.writers| && hd <= s.sh.head
    requires WriterOk(|s.sh.mem|, s.sh.head, s.sh.tail, s.log, pc)
    requires pc.Owns() ==> s.writers[w].Owns() && s.writers[w].slot == pc.slot
    ensures Inv(s.(sh := s.sh.(headCache := hd), writers := s.writers[w := pc]))
  {
    hide W.WindowOk, Images, EntryOk, WriterOk, ReaderOk, DeliveredOk, StartOf, Index, Aligned;
    var s' := s.(sh := s.sh.(headCache := hd), writers := s.writers[w := pc]);
    WritersKept(s, s', w);
    ReaderSame(s, s');
    DeliveredSame(s, s');
  }

  lemma FinishStart(s: State, w: nat)
    requires Inv(s) && w < |s.writers| && s.writers[w].Writing?
    ensures Enabled(s, Finish(w)) && Inv(Apply(s, Finish(w)))
  {
    hide Inv, Read64, MakeHeader, EntryOk, Imageable;
    FinishRead(s, w);
    OwnedEntry(s, w);
    var pc := s.writers[w];
    var pc' := Finishing(pc.req, pc.initial - 8, Read64(s.sh.mem, pc.initial - 8), pc.slot);
    InvOffsets(s);
    LocalStep(s, w, pc', s.sh.headCache);
  }
}
