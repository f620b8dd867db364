/**
The reader's steps, the compare-exchange, and the theorems about whole runs.
*/
module RingBufferDelivery {
  import opened Bytes
  import opened Sequences
  import opened RingBuffer
  import opened RingBufferTape
  import opened RingBufferInvariant
  import opened RingBufferSafety
  import W = RingBufferWindow

  // ----- Reserving, as steps of the system

  lemma PrepareSafe(s: State, w: nat, req: Request)
    requires Inv(s) && AtPoint(s, Prepare(w, req))
    ensures Enabled(s, Prepare(w, req)) && Inv(Apply(s, Prepare(w, req)))
  {
    hide Inv, EntrySize;
    InvOffsets(s);
    if req.Acceptable(|s.sh.mem|) {
      LocalStep(s, w, LoadCache(req), s.sh.headCache);
    }
  }

  lemma Reserving(s: State, w: nat)
    requires Inv(s) && w < |s.writers| && !s.writers[w].Idle? && !s.writers[w].Owns()
    ensures OffsetsOk(s.sh) && ReservingOk(|s.sh.mem|, s.sh.head, s.sh.tail, s.writers[w])
  {
    hide ReservingOk, W.WindowOk, Images, LogOk, ReaderOk, DeliveredOk;
    assert WriterOk(|s.sh.mem|, s.sh.head, s.sh.tail, s.log, s.writers[w]);
  }

  lemma ReserveSafe(s: State, w: nat)
    requires Inv(s) && AtPoint(s, Step(w)) && !s.writers[w].Owns()
    ensures Enabled(s, Step(w)) && Inv(Apply(s, Step(w)))
  {
    hide Inv, ReservingOk, StepWriter;
    Reserving(s, w);
    ReserveStep(s.sh, s.writers[w]);
    var (sh', pc') := StepWriter(s.sh, s.writers[w]);
    var hd: nat :| hd <= s.sh.head && sh' == s.sh.(headCache := hd);
    LocalStep(s, w, pc', hd);
  }

  lemma ExchangeFails(s: State, w: nat)
    requires Inv(s) && w < |s.writers| && s.writers[w].CompareExchange?
    ensures var pc := s.writers[w];
      Inv(s.(writers := s.writers[w := LoopTop(pc.req, pc.hd, s.sh.tail, pc.padding)]))
  {
    hide Inv, EntrySize, Index, Aligned;
    Reserving(s, w);
    var pc := s.writers[w];
    var pc' := LoopTop(pc.req, pc.hd, s.sh.tail, pc.padding);
    LocalStep(s, w, pc', s.sh.headCache);
    assert s.sh.(headCache := s.sh.headCache) == s.sh;
  }

  /** What a successful compare-exchange appends to the log. */
  function Claim(pc: WriterPc): Entry
    requires pc.CompareExchange?
  {
    Entry(pc.tl, pc.padding, pc.req.Reserved(), pc.req, [], if pc.padding != 0 then Claimed else Ready)
  }

  /** The tail has not moved since the writer looked, so its view of the head was not ahead of the
      tail and the claim it worked out is good. */
  lemma ClaimGood(s: State, w: nat)
    requires Inv(s) && w < |s.writers| && s.writers[w].CompareExchange?
    requires s.sh.tail == s.writers[w].tl
    ensures var e := Claim(s.writers[w]);
      && e.start == s.sh.tail
      && Imageable(e) && EntryOk(e, |s.sh.mem|)
      && e.End() <= s.sh.head + |s.sh.mem|
      && Aligned(e.End())
  {
    hide Inv, Index, Aligned, EntrySize;
    Reserving(s, w);
    EntrySizeBounds(s.writers[w].req.size);
    var pc := s.writers[w];
    assert ClaimOk(|s.sh.mem|, pc.hd, pc.tl, pc.padding, pc.req.Reserved());
    W.AlignedAdd(pc.padding, pc.tl);
    W.AlignedAdd(pc.padding + pc.tl, pc.req.Reserved());
  }

  lemma ClaimLog(s: State, e: Entry)
    requires Inv(s) && Imageable(e) && EntryOk(e, |s.sh.mem|) && e.start == s.sh.tail && e.data == []
    requires e.stage.Claimed? || (e.stage.Ready? && e.pad == 0)
    ensures LogOk(s.log + [e], e.End(), |s.sh.mem|)
    ensures W.WindowOk(s.sh.mem, s.sh.head, Cleared(s.reader), Tape(s.log + [e]))
  {
    hide EntryOk, W.WindowOk, WritersOk, ReaderOk, DeliveredOk, Images;
    ChainAppend(s.log, s.sh.tail, e);
    TapeAppend(s.log, s.sh.tail, e);
    W.GrowWindow(s.sh.mem, s.sh.head, Cleared(s.reader), Tape(s.log), e.pad + e.len);
  }

  lemma ClaimReader(s: State, s': State, e: Entry)
    requires |s.sh.mem| > 0 && ReaderOk(s) && DeliveredOk(s) && e.start == s.sh.tail
    requires |s'.sh.mem| == |s.sh.mem| && s'.sh.head == s.sh.head && s'.log == s.log + [e]
    requires s'.reader == s.reader && s'.delivered == s.delivered
    ensures ReaderOk(s') && DeliveredOk(s')
  {
    hide Index, Aligned;
  }

  /** The program point after a successful compare-exchange. */
  function Claimer(pc: WriterPc, size: nat, slot: nat): WriterPc
    requires pc.CompareExchange? && size > 0
  {
    if pc.padding != 0 then WritePad(pc.req, pc.tl, pc.padding, slot)
    else WriteHeader(pc.req, Index(pc.tl, size), slot)
  }

  lemma ExchangeSucceeds(s: State, w: nat)
    requires Inv(s) && w < |s.writers| && s.writers[w].CompareExchange?
    requires s.sh.tail == s.writers[w].tl
    ensures var pc, e := s.writers[w], Claim(s.writers[w]);
      Inv(s.(sh := s.sh.(tail := e.End()),
             writers := s.writers[w := Claimer(pc, |s.sh.mem|, |s.log|)],
             log := s.log + [e]))
  {
    hide Index, Aligned, W.WindowOk, Images, LogOk, ReaderOk, DeliveredOk, EntrySize, WriterOk, EntryOk;
    var pc, e := s.writers[w], Claim(s.writers[w]);
    var s' := s.(sh := s.sh.(tail := e.End()),
                 writers := s.writers[w := Claimer(pc, |s.sh.mem|, |s.log|)],
                 log := s.log + [e]);
    ClaimGood(s, w);
    ClaimLog(s, e);
    ClaimReader(s, s', e);
    ClaimerOk(|s.sh.mem|, s'.sh, s'.log, pc);
    WritersKept(s, s', w);
  }

  lemma ClaimerOk(size: nat, sh: Shared, log: seq<Entry>, pc: WriterPc)
    requires size > 0 && pc.CompareExchange? && |log| > 0 && log[|log| - 1] == Claim(pc)
    ensures WriterOk(size, sh.head, sh.tail, log, Claimer(pc, size, |log| - 1))
  {
    hide Index, EntrySize;
  }

  lemma ExchangeSafe(s: State, w: nat, spurious: bool)
    requires Inv(s) && AtPoint(s, TryExchange(w, spurious))
    ensures Enabled(s, TryExchange(w, spurious)) && Inv(Apply(s, TryExchange(w, spurious)))
  {
    hide Inv, EntrySize, Index, Aligned;
    InvOffsets(s);
    if s.sh.tail == s.writers[w].tl && !spurious {
      ExchangeSucceeds(s, w);
    } else {
      ExchangeFails(s, w);
    }
  }

  // ----- Reading

  lemma PositionAligned(log: seq<Entry>, tail: nat, size: nat, c: nat, p: nat)
    requires size > 0 && LogOk(log, tail, size) && Aligned(tail) && AtEntry(log, tail, c, p)
    ensures Aligned(p) && p <= tail
  {
    hide Index, Aligned, EntrySize, Images;
    if c < |log| {
      assert EntryOk(log[c], size) && Imageable(log[c]);
      W.AlignedAdd(log[c].start, log[c].pad);
      StartsIncrease(log, tail, c, |log|);
    }
  }

  /** The header that the reader must find at position `p`, in front of entry `c`. */
  function HeaderAt(log: seq<Entry>, c: nat, p: nat): nat {
    if c >= |log| then 0
    else
      var e := log[c];
      if p == e.start && e.pad > 0 then
        if e.stage.Claimed? then 0 else MakeHeader(MSG_PAD, e.pad, false)
      else if e.stage.Claimed? || e.stage.Ready? then 0
      else MakeHeader(e.req.msg, e.req.size, e.stage.Pending?)
  }

  lemma ReaderPosition(s: State)
    requires Inv(s)
    ensures OffsetsOk(s.sh) && ReaderOk(s)
    ensures Aligned(s.sh.head + Advance(s.reader)) && s.sh.head + Advance(s.reader) <= s.sh.tail
  {
    hide Index, Aligned, Images, W.WindowOk, WritersOk, DeliveredOk, EntryOk;
    PositionAligned(s.log, s.sh.tail, |s.sh.mem|, |s.delivered|, s.sh.head + Advance(s.reader));
  }

  /** Where the reader looks: a whole header, inside the buffer and inside the window. */
  lemma ScanPlace(size: nat, head: nat, advance: nat)
    requires size > 0 && Aligned(size) && Aligned(head) && Aligned(head + advance)
    requires advance < size - Index(head, size)
    ensures Index(head + advance, size) == Index(head, size) + advance
    ensures Index(head, size) + advance + 8 <= size
    ensures head + advance + 8 <= head + size
  {
    hide Index, Aligned;
    W.IndexAdd(head, advance, size);
    W.AlignedIndex(head + advance, size);
  }

  lemma EntryHeader(e: Entry, at: nat)
    requires Imageable(e) && ((at == 0 && e.pad > 0) || at == e.pad)
    requires e.req.msg < 0x1_0000_0000 && e.req.size < PENDING_WRITE_FLAG && e.pad < PENDING_WRITE_FLAG
    ensures at + 8 <= e.pad + e.len
    ensures DecodeLE(Image(e)[at..at + 8]) == HeaderAt([e], 0, e.start + at)
  {
    hide Image, EncodeLE, MakeHeader, DecodeLE;
    EmptyHeader();
    if at == 0 && e.pad > 0 {
      PadHeader(e);
      assert Image(e)[0..8] == Image(e)[..8];
      HeaderFields(MSG_PAD, e.pad, false);
    } else {
      BodyHeader(e);
      HeaderFields(e.req.msg, e.req.size, e.stage.Pending?);
    }
  }

  /** The scan never sees anything but the header that the log says. */
  lemma ScanSees(s: State)
    requires Inv(s) && s.reader.Scan?
    requires s.reader.advance < |s.sh.mem| - Index(s.sh.head, |s.sh.mem|)
    ensures Index(s.sh.head, |s.sh.mem|) + s.reader.advance + 8 <= |s.sh.mem|
    ensures Read64(s.sh.mem, Index(s.sh.head, |s.sh.mem|) + s.reader.advance) ==
            HeaderAt(s.log, |s.delivered|, s.sh.head + s.reader.advance)
  {
    hide Index, Aligned, Images, Image, W.WindowOk, WritersOk, DeliveredOk, MakeHeader, EntrySize, EntryOk;
    ReaderPosition(s);
    ScanPlace(|s.sh.mem|, s.sh.head, s.reader.advance);
    HeaderInMemory(s.sh, s.log, |s.delivered|, s.sh.head + s.reader.advance);
  }

  lemma HeaderInMemory(sh: Shared, log: seq<Entry>, c: nat, p: nat)
    requires |sh.mem| > 0 && sh.tail <= sh.head + |sh.mem|
    requires LogOk(log, sh.tail, |sh.mem|) && W.WindowOk(sh.mem, sh.head, 0, Tape(log))
    requires AtEntry(log, sh.tail, c, p) && sh.head <= p && p + 8 <= sh.head + |sh.mem|
    requires Index(p, |sh.mem|) + 8 <= |sh.mem|
    ensures Read64(sh.mem, Index(p, |sh.mem|)) == HeaderAt(log, c, p)
  {
    hide Index, Aligned, Images, Image, W.WindowOk, MakeHeader, EntrySize;
    if c == |log| {
      TapeLength(log, sh.tail);
      W.ReadFree(sh.mem, sh.head, 0, Tape(log), p, 8);
      EmptyHeader();
    } else {
      var e := log[c];
      assert EntryOk(e, |sh.mem|) && Imageable(e);
      EntryHeader(e, p - e.start);
      ReadEntry(sh, log, 0, c, p - e.start, 8);
    }
  }

  // ----- What the reader's steps do to its part of the invariant

  lemma ReaderChanges(s: State, r: ReaderPc)
    requires Inv(s) && Cleared(r) == Cleared(s.reader) && ReaderOk(s.(reader := r))
    ensures Inv(s.(reader := r))
  {
    hide Index, Aligned, Images, W.WindowOk, ReaderOk, LogOk;
    WritersKeptByReader(s, s.(reader := r));
  }

  lemma StartReadSafe(s: State, limit: nat)
    requires Inv(s) && AtPoint(s, StartRead(limit))
    ensures Enabled(s, StartRead(limit)) && Inv(Apply(s, StartRead(limit)))
  {
    hide Index, Aligned, Images, W.WindowOk, DeliveredOk, WritersOk, LogOk;
    ReaderChanges(s, Scan(s.sh.head, 0, 0, limit));
  }

  lemma StopScanOk(s: State)
    requires |s.sh.mem| > 0 && ReaderOk(s) && s.reader.Scan?
    ensures ReaderOk(s.(reader := StopScan(s.reader)))
  {
    hide Index, Aligned;
  }

  /** The decision the scan takes, in terms of the log instead of the bytes. */
  function ScanOutcome(r: ReaderPc, log: seq<Entry>, c: nat): ReaderPc
    requires r.Scan?
  {
    if c >= |log| then StopScan(r)
    else
      var e := log[c];
      if r.hd + r.advance == e.start && e.pad > 0 then
        if e.stage.Claimed? then StopScan(r)
        else Scan(r.hd, r.advance + e.pad, r.count, r.limit)
      else if e.stage.Finished? then
        CallHandler(r.hd, r.advance, r.count, r.limit, e.req.msg, e.req.size)
      else StopScan(r)
  }

  /** The same decision, of a header that is the one the log says. */
  lemma HeaderDecides(sh: Shared, r: ReaderPc, log: seq<Entry>, c: nat)
    requires |sh.mem| > 0 && r.Scan? && Index(r.hd, |sh.mem|) + r.advance + 8 <= |sh.mem|
    requires Read64(sh.mem, Index(r.hd, |sh.mem|) + r.advance) == HeaderAt(log, c, r.hd + r.advance)
    requires c < |log| ==> Headed(log[c])
    ensures ScanHeader(sh, r) == ScanOutcome(r, log, c)
  {
    hide Index, MakeHeader, Read64, Message, Length, IsPending;
    EmptyHeader();
    if c < |log| {
      var e := log[c];
      HeaderFields(MSG_PAD, e.pad, false);
      HeaderFields(e.req.msg, e.req.size, e.stage.Pending?);
    }
  }

  /** What of an entry goes into headers fits them. */
  predicate Headed(e: Entry) {
    MSG_MIN <= e.req.msg <= MSG_MAX && e.req.size < PENDING_WRITE_FLAG && e.pad < PENDING_WRITE_FLAG
  }

  lemma NextHeaded(s: State)
    requires Inv(s) && s.reader.Scan? && |s.delivered| < |s.log|
    ensures Headed(s.log[|s.delivered|]) && s.reader.hd == s.sh.head
  {
    hide Index, Aligned, Images, Image, W.WindowOk, WritersOk, DeliveredOk, EntrySize;
    assert EntryOk(s.log[|s.delivered|], |s.sh.mem|);
  }

  lemma ScanDecides(s: State)
    requires Inv(s) && s.reader.Scan?
    requires s.reader.advance < |s.sh.mem| - Index(s.sh.head, |s.sh.mem|)
    ensures s.reader.hd == s.sh.head
    ensures Index(s.sh.head, |s.sh.mem|) + s.reader.advance + 8 <= |s.sh.mem|
    ensures ScanHeader(s.sh, s.reader) == ScanOutcome(s.reader, s.log, |s.delivered|)
  {
    hide Inv, Index, Read64, HeaderAt, Headed, ReaderOk, OffsetsOk;
    ScanSees(s);
    ReaderAtHead(s);
    if |s.delivered| < |s.log| {
      NextHeaded(s);
    }
    HeaderDecides(s.sh, s.reader, s.log, |s.delivered|);
  }

  lemma ReaderAtHead(s: State)
    requires Inv(s)
    ensures |s.sh.mem| > 0 && (!s.reader.ReaderIdle? ==> s.reader.hd == s.sh.head)
  {
    hide Index, Aligned, Images, W.WindowOk, WritersOk, DeliveredOk, LogOk, AtEntry;
  }

  lemma ScanOutcomeOk(s: State)
    requires Inv(s) && s.reader.Scan?
    requires s.reader.advance < |s.sh.mem| - Index(s.sh.head, |s.sh.mem|)
    ensures ReaderOk(s.(reader := ScanOutcome(s.reader, s.log, |s.delivered|)))
  {
    hide Index, Aligned, Images, Image, W.WindowOk, WritersOk, DeliveredOk, EntrySize;
    StopScanOk(s);
    ReaderPosition(s);
    ScanPlace(|s.sh.mem|, s.sh.head, s.reader.advance);
    if |s.delivered| < |s.log| {
      assert EntryOk(s.log[|s.delivered|], |s.sh.mem|);
      BodyContiguous(s.log[|s.delivered|], |s.sh.mem|);
    }
  }

  lemma ReadHeaderSafe(s: State)
    requires Inv(s) && AtPoint(s, ReadHeader)
    ensures Enabled(s, ReadHeader) && Inv(Apply(s, ReadHeader))
  {
    hide Index, Aligned, Images, W.WindowOk, WritersOk, DeliveredOk, LogOk, ScanHeader;
    var r := s.reader;
    if r.advance < |s.sh.mem| - Index(r.hd, |s.sh.mem|) && r.count < r.limit {
      ScanDecides(s);
      ScanOutcomeOk(s);
      ReaderChanges(s, ScanOutcome(r, s.log, |s.delivered|));
    } else {
      StopScanOk(s);
      ReaderChanges(s, StopScan(r));
    }
  }

  // ----- Delivering, clearing, moving the head

  lemma HandlerPlace(s: State)
    requires Inv(s) && s.reader.CallHandler?
    ensures Index(s.reader.hd, |s.sh.mem|) + s.reader.advance ==
            Index(s.log[|s.delivered|].Body(), |s.sh.mem|)
  {
    hide Images, W.WindowOk, WritersOk, DeliveredOk, EntrySize, Index, Aligned, LogOk;
    W.IndexAdd(s.sh.head, s.reader.advance, |s.sh.mem|);
    assert s.sh.head + s.reader.advance == s.log[|s.delivered|].Body();
  }

  lemma EntryPayload(e: Entry, size: nat)
    requires size > 0 && EntryOk(e, size) && Imageable(e) && e.stage.Finished?
    ensures |e.data| <= e.req.size && 8 + e.req.size <= e.len
    ensures Image(e)[e.pad..e.pad + e.len][8..8 + e.req.size] == Payload(e)
  {
    hide Image, EntrySize, Index, Aligned, Payload;
    EntrySizeBounds(e.req.size);
    BodyPayload(e);
    SubSlice(Image(e), e.pad, e.len, 8, e.req.size);
  }

  lemma PayloadInMemory(sh: Shared, log: seq<Entry>, c: nat)
    requires |sh.mem| > 0 && sh.tail <= sh.head + |sh.mem|
    requires LogOk(log, sh.tail, |sh.mem|) && W.WindowOk(sh.mem, sh.head, 0, Tape(log))
    requires c < |log| && log[c].stage.Finished? && sh.head <= log[c].Body()
    ensures var e, o := log[c], Index(log[c].Body(), |sh.mem|);
      && |e.data| <= e.req.size && o + e.len <= |sh.mem| && 8 + e.req.size <= e.len
      && sh.mem[o + 8..o + 8 + e.req.size] == Payload(e)
  {
    hide Index, Aligned, Images, Image, W.WindowOk, EntryOk, Payload;
    var e, o := log[c], Index(log[c].Body(), |sh.mem|);
    assert EntryOk(e, |sh.mem|) && Imageable(e);
    BodyContiguous(e, |sh.mem|);
    ReadEntry(sh, log, 0, c, e.pad, e.len);
    EntryPayload(e, |sh.mem|);
    SubSlice(sh.mem, o, e.len, 8, e.req.size);
  }

  /** The handler is given exactly what the entry's writer wrote. */
  lemma HandlerSees(s: State)
    requires Inv(s) && s.reader.CallHandler?
    ensures |s.sh.mem| > 0 && |s.delivered| < |s.log|
    ensures s.reader.hd == s.sh.head && s.reader.msg == s.log[|s.delivered|].req.msg
    ensures var size, r, e := |s.sh.mem|, s.reader, s.log[|s.delivered|];
      var at := Index(r.hd, size) + r.advance + HEADER_SIZE;
      && |e.data| <= e.req.size
      && e.len == EntrySize(r.size)
      && Index(r.hd, size) + r.advance + e.len <= size
      && at + r.size <= size
      && s.sh.mem[at..at + r.size] == Payload(e)
  {
    hide Index, Aligned, Images, Image, W.WindowOk, WritersOk, DeliveredOk, EntrySize;
    HandlerPlace(s);
    PayloadInMemory(s.sh, s.log, |s.delivered|);
    assert EntryOk(s.log[|s.delivered|], |s.sh.mem|);
  }

  lemma DeliverNext(s: State, s': State)
    requires DeliveredOk(s) && |s.delivered| < |s.log| && s'.log == s.log
    requires s.log[|s.delivered|].stage.Finished?
    requires |s.log[|s.delivered|].data| <= s.log[|s.delivered|].req.size
    requires var e := s.log[|s.delivered|];
      s'.delivered == s.delivered + [Delivery(e.req.msg, Payload(e))]
    ensures DeliveredOk(s')
  {
    hide Payload;
  }

  lemma HandleReader(s: State, s': State)
    requires |s.sh.mem| > 0 && ReaderOk(s) && Chained(s.log, s.sh.tail) && s.reader.CallHandler?
    requires s'.sh == s.sh && s'.log == s.log && |s'.delivered| == |s.delivered| + 1
    requires var e := s.log[|s.delivered|];
      && Index(s.sh.head, |s.sh.mem|) + s.reader.advance + e.len <= |s.sh.mem|
      && s'.reader == Scan(s.reader.hd, s.reader.advance + e.len, s.reader.count + 1, s.reader.limit)
    ensures ReaderOk(s')
  {
    hide Index;
    assert StartOf(s.log, s.sh.tail, |s.delivered| + 1) == s.log[|s.delivered|].End();
  }

  /** The state after the handler has been called, in terms of the log. */
  function Handled(s: State, e: Entry): State
    requires s.reader.CallHandler? && |e.data| <= e.req.size
  {
    s.(reader := Scan(s.reader.hd, s.reader.advance + e.len, s.reader.count + 1, s.reader.limit),
       delivered := s.delivered + [Delivery(e.req.msg, Payload(e))])
  }

  lemma HandledOk(s: State)
    requires Inv(s) && s.reader.CallHandler?
    requires var e := s.log[|s.delivered|];
      && |e.data| <= e.req.size
      && Index(s.sh.head, |s.sh.mem|) + s.reader.advance + e.len <= |s.sh.mem|
    ensures Inv(Handled(s, s.log[|s.delivered|]))
  {
    hide Index, Aligned, Images, W.WindowOk, WritersOk, DeliveredOk, EntryOk, Payload;
    var s' := Handled(s, s.log[|s.delivered|]);
    DeliverNext(s, s');
    HandleReader(s, s');
    WritersKeptByReader(s, s');
  }

  lemma HandleSafe(s: State)
    requires Inv(s) && AtPoint(s, Handle)
    ensures Enabled(s, Handle) && Inv(Apply(s, Handle))
  {
    hide Index, Inv, EntrySize, Payload;
    HandlerSees(s);
    HandledOk(s);
    assert Apply(s, Handle) == Handled(s, s.log[|s.delivered|]);
  }

  lemma ClearReader(s: State, s': State)
    requires |s.sh.mem| > 0 && ReaderOk(s) && s.reader.Clearing? && s'.reader.Clearing?
    requires s' == s.(sh := s.sh.(mem := s'.sh.mem), reader := s'.reader) && |s'.sh.mem| == |s.sh.mem|
    requires s'.reader == s.reader.(cleared := s'.reader.cleared)
    requires s'.reader.cleared <= s'.reader.advance
    ensures ReaderOk(s')
  {
    hide Index;
  }

  lemma ClearSafe(s: State, n: nat)
    requires Inv(s) && AtPoint(s, Clear(n))
    ensures Enabled(s, Clear(n)) && Inv(Apply(s, Clear(n)))
  {
    hide Index, Aligned, Images, W.WindowOk, WritersOk, EntryOk, Zeros, AtEntry, StartOf, DeliveredOk;
    W.ClearWindow(s.sh.mem, s.sh.head, s.reader.cleared, Tape(s.log), n);
    var s' := Apply(s, Clear(n));
    ClearReader(s, s');
    WritersKeptByReader(s, s');
    DeliveredSame(s, s');
  }

  /** The reader at the end of a call: where the head will be. */
  lemma StoreHeadReader(s: State)
    requires |s.sh.mem| > 0 && ReaderOk(s) && AtPoint(s, StoreHead)
    ensures s.reader.hd == s.sh.head && Cleared(s.reader) == s.reader.advance
    ensures Index(s.sh.head, |s.sh.mem|) + s.reader.advance <= |s.sh.mem|
    ensures AtEntry(s.log, s.sh.tail, |s.delivered|, s.sh.head + s.reader.advance)
    ensures ReaderOk(s.(sh := s.sh.(head := s.sh.head + s.reader.advance), reader := ReaderIdle))
  {
    hide Index, AtEntry;
  }

  lemma StoreHeadSafe(s: State)
    requires Inv(s) && AtPoint(s, StoreHead)
    ensures Enabled(s, StoreHead) && Inv(Apply(s, StoreHead))
  {
    hide Index, Aligned, Images, W.WindowOk, WritersOk, EntryOk, ReaderOk, DeliveredOk, AtEntry, StartOf;
    StoreHeadReader(s);
    var s' := s.(sh := s.sh.(head := s.sh.head + s.reader.advance), reader := ReaderIdle);
    assert Apply(s, StoreHead) == s';
    PositionAligned(s.log, s.sh.tail, |s.sh.mem|, |s.delivered|, s'.sh.head);
    TapeEnds(s);
    W.AdvanceWindow(s.sh.mem, s.sh.head, s.reader.advance, Tape(s.log));
    WritersKeptByReader(s, s');
    DeliveredSame(s, s');
  }

  lemma TapeEnds(s: State)
    requires Inv(s)
    ensures |Tape(s.log)| == s.sh.tail
  {
    hide Images, W.WindowOk, WritersOk, ReaderOk, DeliveredOk;
    TapeLength(s.log, s.sh.tail);
  }

  // ----- Theorems

  lemma PowerOfTwoAligned(n: nat)
    requires IsPowerOfTwo(n) && n >= 8
    ensures Aligned(n)
  {
    assert IsPowerOfTwo(n / 2) && IsPowerOfTwo(n / 2 / 2) && IsPowerOfTwo(n / 2 / 2 / 2);
  }

  lemma InitSafe(s: State)
    requires Init(s)
    ensures Inv(s)
  {
    hide IsPowerOfTwo;
    PowerOfTwoAligned(|s.sh.mem|);
  }

  /** Whatever step a thread has come to, it stays inside the buffer, its subtractions do not wrap,
      and it keeps the invariant. */
  lemma StepSafe(s: State, a: Action)
    requires Inv(s) && AtPoint(s, a)
    ensures Enabled(s, a) && Inv(Apply(s, a))
  {
    hide Inv, Enabled, Apply;
    match a
    case Prepare(w, req) => PrepareSafe(s, w, req);
    case Step(w) =>
      match s.writers[w] {
        case WritePad(_, _, _, _) => PadStep(s, w);
        case WriteHeader(_, _, _) => HeaderStep(s, w);
        case Finishing(_, _, _, _) => FinishStep(s, w);
        case _ => ReserveSafe(s, w);
      }
    case TryExchange(w, spurious) => ExchangeSafe(s, w, spurious);
    case WriteBytes(w, bytes) => BytesStep(s, w, bytes);
    case Finish(w) => FinishStart(s, w);
    case StartRead(limit) => StartReadSafe(s, limit);
    case ReadHeader => ReadHeaderSafe(s);
    case Handle => HandleSafe(s);
    case Clear(n) => ClearSafe(s, n);
    case StoreHead => StoreHeadSafe(s);
  }

  lemma {:induction false} RunSafe(s: State, actions: seq<Action>)
    requires Inv(s) && IsRun(s, actions)
    ensures Inv(Run(s, actions))
    decreases |actions|
  {
    hide Inv, Apply;
    if actions != [] {
      StepSafe(s, actions[0]);
      RunSafe(Apply(s, actions[0]), actions[1..]);
    }
  }
}
