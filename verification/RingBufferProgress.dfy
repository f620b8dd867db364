/**
When a writer that nobody disturbs gets its reservation, and how soon a finished message reaches
the handler.
*/
module RingBufferProgress {
  import opened RingBuffer
  import opened RingBufferTape
  import opened RingBufferInvariant
  import opened RingBufferSafety
  import opened RingBufferDelivery
  import W = RingBufferWindow

  // ----- Reserving alone

  /** The steps of one writer inside `reserve`, with no step of anyone else in between. */
  ghost function Alone(sh: Shared, pc: WriterPc, steps: nat): (r: (Shared, WriterPc))
    requires OffsetsOk(sh) && !pc.Owns()
    requires !pc.Idle? ==> ReservingOk(|sh.mem|, sh.head, sh.tail, pc)
    decreases steps
  {
    if steps == 0 || !Internal(pc) then (sh, pc)
    else
      ReserveStep(sh, pc);
      var (sh', pc') := StepWriter(sh, pc);
      Alone(sh', pc', steps - 1)
  }

  /** Room for the message as a whole, and in one piece behind the tail or before the head. */
  predicate HasSpace(size: nat, head: nat, tail: nat, len: nat)
    requires size > 0 && tail <= head + size
  {
    && head <= tail
    && len <= size - (tail - head)
    && (len <= size - Index(tail, size) || len <= Index(head, size))
  }

  /** If an older head already shows a free front, so does the present one. */
  lemma FrontStillFree(size: nat, hd: nat, head: nat, tl: nat, len: nat)
    requires size > 0 && hd <= head <= tl && Room(size, hd, tl, len)
    requires len > size - Index(tl, size) && len <= Index(hd, size)
    ensures len <= Index(head, size)
  {
    var d := tl / size - hd / size;
    var k := head / size - hd / size;
    assert size * d == (tl - Index(tl, size)) - (hd - Index(hd, size));
    assert size * k == (head - Index(head, size)) - (hd - Index(hd, size));
    W.MulBounds(size, d);
    W.MulBounds(size, k);
    W.MulBounds(size, k - d);
    assert size * (k - d) == size * k - size * d;
  }

  lemma FitAlone(sh: Shared, req: Request, hd: nat, steps: nat)
    requires OffsetsOk(sh) && req.Acceptable(|sh.mem|) && !req.wait && hd <= sh.head && steps >= 3
    requires Room(|sh.mem|, hd, sh.tail, req.Reserved())
    ensures var r := Alone(sh, Fit(req, hd, sh.tail), steps);
      if HasSpace(|sh.mem|, sh.head, sh.tail, req.Reserved())
      then r.1.CompareExchange? && r.1.tl == sh.tail
      else r.1.Idle?
  {
    hide EntrySize, Index, Aligned, Write64;
    var size, tl, len := |sh.mem|, sh.tail, req.Reserved();
    var pc0 := Fit(req, hd, tl);
    ReserveStep(sh, pc0);
    var (sh1, pc1) := StepWriter(sh, pc0);
    assert Alone(sh, pc0, steps) == Alone(sh1, pc1, steps - 1);
    if len > size - Index(tl, size) {
      if len <= Index(hd, size) {
        FrontStillFree(size, hd, sh.head, tl, len);
      } else {
        FrontAlone(sh, req, hd, steps - 1);
      }
    }
  }

  lemma FrontAlone(sh: Shared, req: Request, hd: nat, steps: nat)
    requires OffsetsOk(sh) && req.Acceptable(|sh.mem|) && !req.wait && hd <= sh.head && steps >= 2
    requires Room(|sh.mem|, hd, sh.tail, req.Reserved())
    requires req.Reserved() > |sh.mem| - Index(sh.tail, |sh.mem|)
    ensures var r := Alone(sh, LoadHeadForFront(req, hd, sh.tail), steps);
      if req.Reserved() <= Index(sh.head, |sh.mem|)
      then r.1.CompareExchange? && r.1.tl == sh.tail
      else r.1.Idle?
  {
    hide EntrySize, Index, Aligned, Write64;
    var pc0 := LoadHeadForFront(req, hd, sh.tail);
    ReserveStep(sh, pc0);
    var (sh1, pc1) := StepWriter(sh, pc0);
    assert Alone(sh, pc0, steps) == Alone(sh1, pc1, steps - 1);
    if pc1.StoreCacheForFront? {
      ReserveStep(sh1, pc1);
      var (sh2, pc2) := StepWriter(sh1, pc1);
      assert Alone(sh1, pc1, steps - 1) == Alone(sh2, pc2, steps - 2);
    }
  }

  lemma LoopAlone(sh: Shared, req: Request, hd: nat)
    requires OffsetsOk(sh) && req.Acceptable(|sh.mem|) && !req.wait && hd <= sh.head
    ensures var r := Alone(sh, LoopTop(req, hd, sh.tail, 0), 6);
      if HasSpace(|sh.mem|, sh.head, sh.tail, req.Reserved())
      then r.1.CompareExchange? && r.1.tl == sh.tail
      else r.1.Idle?
  {
    hide EntrySize, Index, Aligned, Write64;
    var pc0 := LoopTop(req, hd, sh.tail, 0);
    ReserveStep(sh, pc0);
    var (sh1, pc1) := StepWriter(sh, pc0);
    assert Alone(sh, pc0, 6) == Alone(sh1, pc1, 5);
    if pc1.Fit? {
      FitAlone(sh, req, hd, 5);
    } else {
      ReserveStep(sh1, pc1);
      var (sh2, pc2) := StepWriter(sh1, pc1);
      assert Alone(sh1, pc1, 5) == Alone(sh2, pc2, 4);
      if pc2.StoreCacheForSpace? {
        ReserveStep(sh2, pc2);
        var (sh3, pc3) := StepWriter(sh2, pc2);
        assert Alone(sh2, pc2, 4) == Alone(sh3, pc3, 3);
        FitAlone(sh3, req, sh.head, 3);
      }
    }
  }

  /** An undisturbed writer reaches its compare-exchange on the current tail if there is room in one
      piece, and otherwise gives up; a stale head cache makes no difference. */
  lemma ReserveAlone(sh: Shared, req: Request)
    requires OffsetsOk(sh) && req.Acceptable(|sh.mem|) && !req.wait
    ensures var r := Alone(sh, LoadCache(req), 8);
      if HasSpace(|sh.mem|, sh.head, sh.tail, req.Reserved())
      then r.1.CompareExchange? && r.1.tl == sh.tail
      else r.1.Idle?
  {
    hide EntrySize, Index, Aligned, Write64, HasSpace;
    ReserveStep(sh, LoadCache(req));
    ReserveStep(sh, LoadTail(req, sh.headCache));
    assert Alone(sh, LoadCache(req), 8) == Alone(sh, LoadTail(req, sh.headCache), 7);
    assert Alone(sh, LoadTail(req, sh.headCache), 7) == Alone(sh, LoopTop(req, sh.headCache, sh.tail, 0), 6);
    LoopAlone(sh, req, sh.headCache);
  }

  /** Half the buffer can always be reserved in one piece when the buffer is empty. */
  lemma EmptyBufferHasSpace(sh: Shared, req: Request)
    requires OffsetsOk(sh) && req.Acceptable(|sh.mem|) && sh.head == sh.tail
    ensures HasSpace(|sh.mem|, sh.head, sh.tail, req.Reserved())
  {
    hide EntrySize;
    EmptyFits(|sh.mem|, sh.head, req.Reserved());
  }

  lemma Middle(size: nat)
    requires size > 0 && size % 16 == 0
    ensures Aligned(size / 2) && Index(size / 2, size) == size / 2 && size - size / 2 == size / 2
  {
    hide Index;
    var k := size / 16;
    assert size == 16 * k && size / 2 == 8 * k;
    SmallIndex(size / 2, size);
  }

  lemma SmallIndex(o: nat, size: nat)
    requires o < size
    ensures Index(o, size) == o
  {
  }

  /** And no more than half: what is longer does not fit an empty buffer whose offsets are in the middle.  (A power of
      two that leaves room for any message is a multiple of sixteen.) */
  lemma HalfIsMost(size: nat, len: nat)
    requires size > 0 && size % 16 == 0
    ensures len <= MaxReservationSize(size) <==> forall o: nat :: Aligned(o) ==> HasSpace(size, o, o, len)
  {
    hide Index, Aligned;
    Middle(size);
    if len <= MaxReservationSize(size) {
      forall o: nat | Aligned(o)
        ensures HasSpace(size, o, o, len)
      {
        EmptyFits(size, o, len);
      }
    } else {
      assert !HasSpace(size, size / 2, size / 2, len);
    }
  }

  /** So `prepare` accepts exactly the messages of a type that is not reserved, short enough that their length with the
      header leaves the pending flag clear, and that fit an empty buffer whatever its offsets. */
  lemma AcceptableIff(req: Request, size: nat)
    requires size > 0 && size % 16 == 0
    ensures req.Acceptable(size) <==>
      && req.msg < 0x1_0000_0000 && req.msg != MSG_NONE && req.msg != MSG_PAD
      && req.size + HEADER_SIZE < PENDING_WRITE_FLAG
      && forall o: nat :: Aligned(o) ==> HasSpace(size, o, o, req.Reserved())
  {
    hide EntrySize, HasSpace, Aligned;
    HalfIsMost(size, req.Reserved());
  }

  // ----- Reading alone

  predicate ReaderAction(a: Action) {
    a.StartRead? || a.ReadHeader? || a.Handle? || a.Clear? || a.StoreHead?
  }

  /** A finished message right under the head is delivered by the next call of `read`. */
  lemma ReadOne(s: State)
    requires Inv(s) && s.reader.ReaderIdle? && |s.delivered| < |s.log|
    requires s.log[|s.delivered|].stage.Finished? && s.sh.head == s.log[|s.delivered|].Body()
    ensures var e, run := s.log[|s.delivered|], [StartRead(1), ReadHeader, Handle];
      && |e.data| <= e.req.size
      && IsRun(s, run)
      && Run(s, run).delivered == s.delivered + [Delivery(e.req.msg, Payload(e))]
  {
    hide Inv, Payload, Index, EntrySize, ScanHeader;
    var e := s.log[|s.delivered|];
    StepSafe(s, StartRead(1));
    var s1 := Apply(s, StartRead(1));
    StepSafe(s1, ReadHeader);
    ScanFinished(s1);
    var s2 := Apply(s1, ReadHeader);
    StepSafe(s2, Handle);
    HandlerSees(s2);
    RunThree(s, StartRead(1), ReadHeader, Handle);
  }

  lemma RunOne(s: State, a: Action)
    requires Enabled(s, a)
    ensures IsRun(s, [a]) && Run(s, [a]) == Apply(s, a)
  {
    hide Enabled, Apply;
    assert [a][1..] == [];
  }

  lemma RunTwo(s: State, a: Action, b: Action)
    requires Enabled(s, a) && Enabled(Apply(s, a), b)
    ensures IsRun(s, [a, b]) && Run(s, [a, b]) == Apply(Apply(s, a), b)
  {
    hide Enabled, Apply;
    RunOne(Apply(s, a), b);
    assert [a, b][1..] == [b];
  }

  lemma RunThree(s: State, a: Action, b: Action, c: Action)
    requires Enabled(s, a) && Enabled(Apply(s, a), b) && Enabled(Apply(Apply(s, a), b), c)
    ensures IsRun(s, [a, b, c]) && Run(s, [a, b, c]) == Apply(Apply(Apply(s, a), b), c)
  {
    hide Enabled, Apply;
    RunTwo(Apply(s, a), b, c);
    assert [a, b, c][1..] == [b, c];
  }

  lemma ScanFinished(s: State)
    requires Inv(s) && s.reader == Scan(s.sh.head, 0, 0, 1) && |s.delivered| < |s.log|
    requires s.log[|s.delivered|].stage.Finished? && s.sh.head == s.log[|s.delivered|].Body()
    ensures Enabled(s, ReadHeader)
    ensures var e := s.log[|s.delivered|];
      Apply(s, ReadHeader) == s.(reader := CallHandler(s.sh.head, 0, 0, 1, e.req.msg, e.req.size))
  {
    hide Inv, Index, ScanHeader;
    InvOffsets(s);
    ScanDecides(s);
  }

  lemma {:induction false} RunAppend(s: State, a: seq<Action>, b: seq<Action>)
    requires IsRun(s, a) && IsRun(Run(s, a), b)
    ensures IsRun(s, a + b) && Run(s, a + b) == Run(Run(s, a), b)
    decreases |a|
  {
    hide Enabled, Apply;
    if a == [] {
      assert a + b == b;
    } else {
      RunAppend(Apply(s, a[0]), a[1..], b);
      assert (a + b)[1..] == a[1..] + b;
    }
  }

  /** One call of `read` that finds padding under the head. */
  lemma ScanPad(s: State)
    requires Inv(s) && s.reader == Scan(s.sh.head, 0, 0, 1) && |s.delivered| < |s.log|
    requires var e := s.log[|s.delivered|];
      !e.stage.Claimed? && s.sh.head == e.start && e.pad > 0
    ensures Enabled(s, ReadHeader)
    ensures Apply(s, ReadHeader) == s.(reader := Scan(s.sh.head, s.log[|s.delivered|].pad, 0, 1))
  {
    hide Inv, Index, ScanHeader;
    InvOffsets(s);
    ScanDecides(s);
  }

  lemma PadEndsScan(s: State, e: Entry)
    requires Inv(s) && e in s.log && e.pad > 0 && s.reader == Scan(e.start, e.pad, 0, 1)
    ensures Enabled(s, ReadHeader)
    ensures Apply(s, ReadHeader) == s.(reader := Clearing(e.start, e.pad, 0, 0))
  {
    hide Inv, Index, ScanHeader;
    PadToEnd(s, e);
  }

  lemma PadToEnd(s: State, e: Entry)
    requires Inv(s) && e in s.log && e.pad > 0
    ensures |s.sh.mem| > 0 && Index(e.start, |s.sh.mem|) + e.pad == |s.sh.mem|
  {
    hide W.WindowOk, Images, WritersOk, ReaderOk, DeliveredOk, Index, Aligned, EntrySize, EntryOk;
    var i :| 0 <= i < |s.log| && s.log[i] == e;
    assert EntryOk(s.log[i], |s.sh.mem|);
    BodyContiguous(e, |s.sh.mem|);
  }

  lemma SkipPad(s: State)
    requires Inv(s) && s.reader.ReaderIdle? && |s.delivered| < |s.log|
    requires var e := s.log[|s.delivered|];
      !e.stage.Claimed? && s.sh.head == e.start && e.pad > 0
    ensures var e := s.log[|s.delivered|];
      var run := [StartRead(1), ReadHeader, ReadHeader] + [Clear(e.pad), StoreHead];
      && IsRun(s, run)
      && Inv(Run(s, run))
      && Run(s, run) == s.(sh := Run(s, run).sh)
      && Run(s, run).sh.head == e.Body()
  {
    hide Inv, Index, ScanHeader, InBounds;
    var e := s.log[|s.delivered|];
    StepSafe(s, StartRead(1));
    var s1 := Apply(s, StartRead(1));
    ScanPad(s1);
    StepSafe(s1, ReadHeader);
    var s2 := Apply(s1, ReadHeader);
    PadEndsScan(s2, e);
    StepSafe(s2, ReadHeader);
    var s3 := Apply(s2, ReadHeader);
    RunThree(s, StartRead(1), ReadHeader, ReadHeader);
    StepSafe(s3, Clear(e.pad));
    var s4 := Apply(s3, Clear(e.pad));
    StepSafe(s4, StoreHead);
    RunTwo(s3, Clear(e.pad), StoreHead);
    RunAppend(s, [StartRead(1), ReadHeader, ReadHeader], [Clear(e.pad), StoreHead]);
  }

  ghost predicate DeliveredByReader(s: State, run: seq<Action>, d: Delivery, n: nat) {
    && |run| <= n
    && (forall a :: a in run ==> ReaderAction(a))
    && IsRun(s, run)
    && Run(s, run).delivered == s.delivered + [d]
  }

  /** The next message to be delivered is finished. */
  ghost predicate NextFinished(s: State) {
    |s.delivered| < |s.log| && s.log[|s.delivered|].stage.Finished?
  }

  /** The reader alone delivers the next message, as it was written, in at most `n` steps. */
  ghost predicate DeliversNext(s: State, n: nat) {
    && |s.delivered| < |s.log|
    && var e := s.log[|s.delivered|];
    && |e.data| <= e.req.size
    && exists run :: DeliveredByReader(s, run, Delivery(e.req.msg, Payload(e)), n)
  }

  lemma NextMessage(s: State)
    requires Inv(s) && s.reader.ReaderIdle? && NextFinished(s)
    ensures DeliversNext(s, 8)
  {
    hide Inv, Enabled, Apply, Payload, IsRun, Run;
    var e, read := s.log[|s.delivered|], [StartRead(1), ReadHeader, Handle];
    UnderHead(s);
    if s.sh.head == e.Body() {
      ReadOne(s);
      assert DeliveredByReader(s, read, Delivery(e.req.msg, Payload(e)), 8);
    } else {
      var skip := [StartRead(1), ReadHeader, ReadHeader] + [Clear(e.pad), StoreHead];
      SkipPad(s);
      ReadOne(Run(s, skip));
      RunAppend(s, skip, read);
      assert DeliveredByReader(s, skip + read, Delivery(e.req.msg, Payload(e)), 8);
    }
  }

  lemma OneStepFirst(s: State, a: Action, n: nat)
    requires Enabled(s, a) && ReaderAction(a) && DeliversNext(Apply(s, a), n)
    requires Apply(s, a).log == s.log && Apply(s, a).delivered == s.delivered
    ensures DeliversNext(s, n + 1)
  {
    hide Apply, Enabled, Payload;
    var t := Apply(s, a);
    var e := t.log[|t.delivered|];
    var d := Delivery(e.req.msg, Payload(e));
    var run :| DeliveredByReader(t, run, d, n);
    assert ([a] + run)[1..] == run;
    assert DeliveredByReader(s, [a] + run, d, n + 1);
  }

  lemma Within(s: State, n: nat, m: nat)
    requires DeliversNext(s, n) && n <= m
    ensures DeliversNext(s, m)
  {
    hide Payload, IsRun, Run;
    var e := s.log[|s.delivered|];
    var run :| DeliveredByReader(s, run, Delivery(e.req.msg, Payload(e)), n);
    assert DeliveredByReader(s, run, Delivery(e.req.msg, Payload(e)), m);
  }

  lemma NextFromHandler(s: State)
    requires Inv(s) && s.reader.CallHandler?
    ensures DeliversNext(s, 1)
  {
    hide Inv, Payload, Index, EntrySize, ScanHeader;
    HandlerSees(s);
    StepSafe(s, Handle);
    RunOne(s, Handle);
    var e := s.log[|s.delivered|];
    assert DeliveredByReader(s, [Handle], Delivery(e.req.msg, Payload(e)), 1);
  }

  lemma NextFromClearing(s: State)
    requires Inv(s) && s.reader.Clearing? && NextFinished(s)
    ensures DeliversNext(s, 10)
  {
    hide Inv, Index, ScanHeader, DeliversNext;
    ClearingBounds(s);
    var n := s.reader.advance - s.reader.cleared;
    StepSafe(s, Clear(n));
    var t := Apply(s, Clear(n));
    StepSafe(t, StoreHead);
    NextMessage(Apply(t, StoreHead));
    OneStepFirst(t, StoreHead, 8);
    OneStepFirst(s, Clear(n), 9);
  }

  lemma ClearingBounds(s: State)
    requires Inv(s) && s.reader.Clearing?
    ensures s.reader.cleared <= s.reader.advance
  {
    hide W.WindowOk, Images, WritersOk, DeliveredOk, LogOk, AtEntry, Index;
  }

  /** One look at a header: the scan goes on only past padding. */
  lemma ScanNext(s: State)
    requires Inv(s) && s.reader.Scan? && NextFinished(s)
    ensures Enabled(s, ReadHeader) && Inv(Apply(s, ReadHeader))
    ensures var t, e := Apply(s, ReadHeader), s.log[|s.delivered|];
      && t == s.(reader := t.reader)
      && (t.reader.Scan? ==>
           e.pad > 0 && s.reader.hd + s.reader.advance == e.start && t.reader.hd + t.reader.advance == e.Body())
  {
    hide Inv, Index, ScanHeader;
    StepSafe(s, ReadHeader);
    ScanHead(s);
    var size := |s.sh.mem|;
    if s.reader.advance < size - Index(s.sh.head, size) && s.reader.count < s.reader.limit {
      ScanDecides(s);
    }
  }

  lemma ScanHead(s: State)
    requires Inv(s) && s.reader.Scan?
    ensures |s.sh.mem| > 0 && s.reader.hd == s.sh.head
  {
    hide W.WindowOk, Images, WritersOk, DeliveredOk, LogOk, AtEntry, Index;
  }

  lemma NextFromStopped(s: State)
    requires Inv(s) && !s.reader.Scan? && NextFinished(s)
    ensures DeliversNext(s, 10)
  {
    hide Inv, DeliversNext;
    match s.reader {
      case ReaderIdle =>
        NextMessage(s);
        Within(s, 8, 10);
      case CallHandler(_, _, _, _, _, _) =>
        NextFromHandler(s);
        Within(s, 1, 10);
      case Clearing(_, _, _, _) => NextFromClearing(s);
    }
  }

  lemma NextFromScan(s: State)
    requires Inv(s) && s.reader.Scan? && NextFinished(s)
    ensures DeliversNext(s, 12)
  {
    hide Inv, Apply, InBounds, AtPoint, DeliversNext;
    ScanNext(s);
    var t := Apply(s, ReadHeader);
    if t.reader.Scan? {
      ScanNext(t);
      NextFromStopped(Apply(t, ReadHeader));
      OneStepFirst(t, ReadHeader, 10);
    } else {
      NextFromStopped(t);
      Within(t, 10, 11);
    }
    OneStepFirst(s, ReadHeader, 11);
  }

  /** In every reachable state, wherever the reader is, it alone delivers the next message in at most twelve steps
      if that message is finished, whatever the writers of later messages are doing. */
  lemma FinishedMessageDelivered(s: State, actions: seq<Action>)
    requires Init(s) && IsRun(s, actions) && NextFinished(Run(s, actions))
    ensures DeliversNext(Run(s, actions), 12)
  {
    hide Inv, Init, DeliversNext;
    InitSafe(s);
    RunSafe(s, actions);
    var t := Run(s, actions);
    if t.reader.Scan? {
      NextFromScan(t);
    } else {
      NextFromStopped(t);
      Within(t, 10, 12);
    }
  }

  lemma UnderHead(s: State)
    requires Inv(s) && s.reader.ReaderIdle? && |s.delivered| < |s.log|
    ensures var e := s.log[|s.delivered|];
      s.sh.head == e.Body() || (s.sh.head == e.start && e.pad > 0)
  {
    hide W.WindowOk, Images, WritersOk, DeliveredOk, Index, Aligned, EntryOk;
  }
}
