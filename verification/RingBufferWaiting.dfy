/** A `prepare` that waits gets its reservation. */
module RingBufferWaiting {
  import opened Bytes
  import opened Sequences
  import opened RingBuffer
  import opened RingBufferTape
  import opened RingBufferInvariant
  import opened RingBufferSafety
  import opened RingBufferDelivery
  import opened RingBufferProgress
  import opened RingBufferReads
  import W = RingBufferWindow

  predicate Reserves(pc: WriterPc) {
    !pc.Idle? && !pc.Owns()
  }

  /** How many steps it takes at most to try an exchange or to start again. */
  function Distance(pc: WriterPc): nat {
    match pc
    case LoadTail(_, _) => 7
    case LoopTop(_, _, _, _) => 6
    case LoadHeadForSpace(_, _, _, _) => 5
    case StoreCacheForSpace(_, _, _) => 4
    case Fit(_, _, _) => 3
    case LoadHeadForFront(_, _, _) => 2
    case StoreCacheForFront(_, _, _) => 1
    case _ => 0
  }

  /** The writer goes by the present tail. */
  predicate Current(sh: Shared, pc: WriterPc) {
    Reserves(pc) && !pc.LoadCache? && (pc.LoadTail? || pc.tl == sh.tail)
  }

  ghost predicate RoomFor(sh: Shared, req: Request)
    requires OffsetsOk(sh)
  {
    HasSpace(|sh.mem|, sh.head, sh.tail, req.Reserved())
  }

  // ----- One step of `reserve`

  /** A step gets closer to an exchange, or finds no room and starts again. */
  lemma StepsCloser(sh: Shared, pc: WriterPc)
    requires OffsetsOk(sh) && Reserves(pc) && Internal(pc) && pc.req.wait
    requires ReservingOk(|sh.mem|, sh.head, sh.tail, pc)
    ensures var (sh', pc') := StepWriter(sh, pc);
      && sh' == sh.(headCache := sh'.headCache) && Reserves(pc') && pc'.req == pc.req
      && (pc.LoadCache? || Distance(pc') < Distance(pc))
      && (pc.LoadCache? ==> pc'.LoadTail?)
  {
    hide Index, EntrySize, Aligned;
  }

  /** While there is room, a writer that goes by the present tail does not start again. */
  lemma StaysCurrent(sh: Shared, pc: WriterPc)
    requires OffsetsOk(sh) && Current(sh, pc) && Internal(pc)
    requires ReservingOk(|sh.mem|, sh.head, sh.tail, pc) && RoomFor(sh, pc.req)
    ensures Current(sh, StepWriter(sh, pc).1)
  {
    hide Index, EntrySize, Aligned;
  }

  // ----- The writer alone

  ghost predicate OnlyBy(run: seq<Action>, w: nat) {
    forall a <- run :: (a.Step? || a.TryExchange?) && a.w == w
  }

  /** Steps of a writer inside `reserve`: nothing changes but where it is, and the head cache. */
  ghost predicate Moves(s: State, w: nat, run: seq<Action>, t: State) {
    && OnlyBy(run, w) && IsRun(s, run) && Run(s, run) == t && Inv(t)
    && w < |s.writers| == |t.writers| && Reserves(s.writers[w]) && Reserves(t.writers[w])
    && t.writers[w].req == s.writers[w].req
    && t == s.(sh := s.sh.(headCache := t.sh.headCache), writers := s.writers[w := t.writers[w]])
  }

  lemma MovesOn(s: State, w: nat, a: Action, mid: State, run: seq<Action>, t: State)
    requires Moves(s, w, [a], mid) && Moves(mid, w, run, t)
    ensures Moves(s, w, [a] + run, t)
  {
    hide Inv, Apply, Enabled, Reserves;
    assert IsRun(s, [a]) && Enabled(s, [a][0]);
    var one := [a];
    assert one[1..] == [];
    assert Run(s, one) == Run(Apply(s, a), []);
    assert ([a] + run)[1..] == run;
  }

  lemma MovesTogether(s: State, w: nat, a: seq<Action>, mid: State, b: seq<Action>, t: State)
    requires Moves(s, w, a, mid) && Moves(mid, w, b, t)
    ensures Moves(s, w, a + b, t)
  {
    hide Inv, IsRun, Run, Reserves;
    RunAppend(s, a, b);
  }

  lemma MovesNot(s: State, w: nat)
    requires Inv(s) && w < |s.writers| && Reserves(s.writers[w])
    ensures Moves(s, w, [], s)
  {
    hide Inv, Reserves;
  }

  lemma MovesStep(s: State, w: nat)
    requires Inv(s) && w < |s.writers| && Reserves(s.writers[w]) && Internal(s.writers[w]) && s.writers[w].req.wait
    ensures Enabled(s, Step(w))
    ensures var t := Apply(s, Step(w));
      && Moves(s, w, [Step(w)], t)
      && (s.writers[w].LoadCache? ==> t.writers[w].LoadTail?)
      && (!s.writers[w].LoadCache? ==> Distance(t.writers[w]) < Distance(s.writers[w]))
      && OffsetsOk(s.sh)
      && (Current(s.sh, s.writers[w]) && RoomFor(s.sh, s.writers[w].req) ==> Current(t.sh, t.writers[w]))
  {
    hide Inv, ReservingOk, StepWriter, Distance, Current, RoomFor, OffsetsOk, InBounds;
    var pc := s.writers[w];
    Reserving(s, w);
    StepSafe(s, Step(w));
    RunOne(s, Step(w));
    StepsCloser(s.sh, pc);
    if Current(s.sh, pc) && RoomFor(s.sh, pc.req) {
      StaysCurrent(s.sh, pc);
      CacheApart(s.sh, Apply(s, Step(w)).sh, Apply(s, Step(w)).writers[w]);
    }
    StepShared(s, w);
  }

  lemma StepShared(s: State, w: nat)
    requires w < |s.writers| && Reserves(s.writers[w]) && Enabled(s, Step(w))
    ensures var t, (sh', pc') := Apply(s, Step(w)), StepWriter(s.sh, s.writers[w]);
      t == s.(sh := sh', writers := s.writers[w := pc'])
  {
    hide StepWriter;
  }

  lemma CacheApart(sh: Shared, sh': Shared, pc: WriterPc)
    requires Current(sh, pc) && sh'.tail == sh.tail
    ensures Current(sh', pc)
  {
  }

  /** Left alone, a writer tries an exchange or starts again; while there is room, one that goes by the present tail
      comes to its exchange. */
  lemma {:induction false} Settles(s: State, w: nat) returns (run: seq<Action>, t: State)
    requires Inv(s) && w < |s.writers| && Reserves(s.writers[w]) && s.writers[w].req.wait
    ensures Moves(s, w, run, t) && |run| <= Distance(s.writers[w])
    ensures t.writers[w].CompareExchange? || t.writers[w].LoadCache?
    ensures OffsetsOk(s.sh)
    ensures Current(s.sh, s.writers[w]) && RoomFor(s.sh, s.writers[w].req) ==> Current(t.sh, t.writers[w])
    decreases Distance(s.writers[w])
  {
    hide Inv, Moves, Current, RoomFor, Apply, Enabled, OffsetsOk;
    Reserving(s, w);
    if s.writers[w].CompareExchange? || s.writers[w].LoadCache? {
      run, t := [], s;
      MovesNot(s, w);
    } else {
      MovesStep(s, w);
      var mid := Apply(s, Step(w));
      MovedTo(s, w, [Step(w)], mid);
      SameRoom(s.sh, mid.sh, s.writers[w].req);
      var rest;
      rest, t := Settles(mid, w);
      MovesOn(s, w, Step(w), mid, rest, t);
      run := [Step(w)] + rest;
    }
  }

  lemma MovedTo(s: State, w: nat, run: seq<Action>, t: State)
    requires Moves(s, w, run, t)
    ensures OnlyBy(run, w) && IsRun(s, run) && Run(s, run) == t && Inv(t)
    ensures w < |s.writers| == |t.writers| && Reserves(t.writers[w]) && t.writers[w].req == s.writers[w].req
    ensures t.sh == s.sh.(headCache := t.sh.headCache) && t.log == s.log && OffsetsOk(t.sh)
  {
    hide WritersOk, LogOk, ReaderOk, DeliveredOk, W.WindowOk;
  }

  lemma SameRoom(sh: Shared, sh': Shared, req: Request)
    requires OffsetsOk(sh) && sh' == sh.(headCache := sh'.headCache) && OffsetsOk(sh')
    ensures RoomFor(sh', req) == RoomFor(sh, req)
  {
  }

  /** The writer has a reservation of its own, as it was asked for, the latest there is. */
  ghost predicate Got(s: State, w: nat, t: State) {
    && w < |s.writers| == |t.writers| && !s.writers[w].Idle?
    && |t.log| == |s.log| + 1 && t.log[..|s.log|] == s.log
    && t.writers[w].Owns() && t.writers[w].slot == |s.log|
    && t.writers[w].req == s.writers[w].req == t.log[|s.log|].req
  }

  ghost predicate GetsBy(s: State, w: nat, run: seq<Action>, n: nat) {
    && |run| <= n && OnlyBy(run, w) && IsRun(s, run)
    && Got(s, w, Run(s, run))
  }

  lemma Exchanges(s: State, w: nat)
    requires Inv(s) && w < |s.writers| && s.writers[w].CompareExchange? && s.writers[w].tl == s.sh.tail
    ensures GetsBy(s, w, [TryExchange(w, false)], 1)
  {
    hide Inv, Index, EntrySize;
    var a := TryExchange(w, false);
    StepSafe(s, a);
    RunOne(s, a);
    var t := Apply(s, a);
    assert t.log[..|s.log|] == s.log;
  }

  lemma MovesThenGets(s: State, w: nat, run: seq<Action>, t: State, more: seq<Action>, n: nat)
    requires Moves(s, w, run, t) && GetsBy(t, w, more, n)
    ensures GetsBy(s, w, run + more, |run| + n)
  {
    hide Inv, IsRun, Run, Enabled;
    RunAppend(s, run, more);
  }

  /** From the present tail to the reservation. */
  lemma CurrentGets(s: State, w: nat) returns (run: seq<Action>)
    requires Inv(s) && OffsetsOk(s.sh) && w < |s.writers| && Current(s.sh, s.writers[w]) && s.writers[w].req.wait
    requires RoomFor(s.sh, s.writers[w].req)
    ensures GetsBy(s, w, run, 8)
  {
    hide Inv, Moves, RoomFor, OffsetsOk, GetsBy;
    var most, t := Settles(s, w);
    MovedTo(s, w, most, t);
    Exchanges(t, w);
    MovesThenGets(s, w, most, t, [TryExchange(w, false)], 1);
    run := most + [TryExchange(w, false)];
    GetsWithin(s, w, run, |most| + 1, 8);
  }

  lemma GetsWithin(s: State, w: nat, run: seq<Action>, n: nat, m: nat)
    requires GetsBy(s, w, run, n) && n <= m
    ensures GetsBy(s, w, run, m)
  {
  }

  /** One step leads to the present tail: starting again, or an exchange that fails. */
  lemma Refreshes(s: State, w: nat) returns (a: Action)
    requires Inv(s) && w < |s.writers| && Reserves(s.writers[w]) && s.writers[w].req.wait
    requires s.writers[w].LoadCache? || (s.writers[w].CompareExchange? && s.writers[w].tl != s.sh.tail)
    ensures Enabled(s, a) && Moves(s, w, [a], Apply(s, a)) && Current(Apply(s, a).sh, Apply(s, a).writers[w])
  {
    hide Inv, InBounds, OffsetsOk, RoomFor;
    if s.writers[w].LoadCache? {
      a := Step(w);
      MovesStep(s, w);
    } else {
      a := TryExchange(w, false);
      StepSafe(s, a);
      RunOne(s, a);
    }
  }

  /** From anywhere inside `reserve`. */
  lemma ReservesAlone(s: State, w: nat) returns (run: seq<Action>)
    requires Inv(s) && OffsetsOk(s.sh) && w < |s.writers| && Reserves(s.writers[w]) && s.writers[w].req.wait
    requires RoomFor(s.sh, s.writers[w].req)
    ensures GetsBy(s, w, run, 16)
  {
    hide Inv, Moves, RoomFor, OffsetsOk, GetsBy, Apply, Enabled;
    var first, t := Settles(s, w);
    MovedTo(s, w, first, t);
    SameRoom(s.sh, t.sh, s.writers[w].req);
    if t.writers[w].CompareExchange? && t.writers[w].tl == t.sh.tail {
      run := CurrentGets(t, w);
      MovesThenGets(s, w, first, t, run, 8);
      run := first + run;
      GetsWithin(s, w, run, |first| + 8, 16);
    } else {
      var a := Refreshes(t, w);
      var u := Apply(t, a);
      MovedTo(t, w, [a], u);
      SameRoom(t.sh, u.sh, s.writers[w].req);
      run := CurrentGets(u, w);
      MovesThenGets(t, w, [a], u, run, 8);
      MovesThenGets(s, w, first, t, [a] + run, 9);
      run := first + ([a] + run);
      GetsWithin(s, w, run, |first| + 9, 16);
    }
  }

  /**
  From every reachable state a `prepare` that waits, wherever it is and however stale what it has seen, has its
  reservation after at most sixteen steps of its own, if there is room in one piece.
  */
  lemma WaitingReserves(start: State, past: seq<Action>, w: nat) returns (run: seq<Action>)
    requires Init(start) && IsRun(start, past)
    requires var s := Run(start, past);
      && w < |s.writers| && Reserves(s.writers[w]) && s.writers[w].req.wait
      && |s.sh.mem| > 0 && s.sh.tail <= s.sh.head + |s.sh.mem|
      && HasSpace(|s.sh.mem|, s.sh.head, s.sh.tail, s.writers[w].req.Reserved())
    ensures GetsBy(Run(start, past), w, run, 16)
  {
    hide Inv, Init, IsRun, Run, GetsBy, HasSpace;
    InitSafe(start);
    RunSafe(start, past);
    var s := Run(start, past);
    Reserving(s, w);
    run := ReservesAlone(s, w);
  }

  // ----- The reader makes room

  ghost predicate AllFinished(log: seq<Entry>) {
    forall i :: 0 <= i < |log| ==> log[i].stage.Finished?
  }

  /** Steps of the reader alone. */
  ghost predicate ReadsTo(s: State, run: seq<Action>, t: State) {
    && (forall a <- run :: ReaderAction(a)) && IsRun(s, run) && Run(s, run) == t
    && Inv(t) && t.log == s.log && t.writers == s.writers
  }

  lemma {:induction false} ReaderKeeps(s: State, run: seq<Action>)
    requires Inv(s) && IsRun(s, run) && forall a <- run :: ReaderAction(a)
    ensures ReadsTo(s, run, Run(s, run))
    decreases |run|
  {
    hide Inv, Index, ScanHeader, EntrySize, InBounds;
    if run != [] {
      assert run[0] in run && forall a <- run[1..] :: a in run;
      StepSafe(s, run[0]);
      ReaderKeeps(Apply(s, run[0]), run[1..]);
    }
  }

  lemma ReadsOn(s: State, a: seq<Action>, t: State, b: seq<Action>, u: State)
    requires ReadsTo(s, a, t) && ReadsTo(t, b, u)
    ensures ReadsTo(s, a + b, u)
  {
    hide Inv, IsRun, Run, ReaderAction;
    RunAppend(s, a, b);
  }

  /** Once everything has been delivered the call comes to its end. */
  lemma Idles(s: State) returns (run: seq<Action>, t: State)
    requires Inv(s) && |s.delivered| == |s.log|
    ensures ReadsTo(s, run, t) && t.reader.ReaderIdle? && t.delivered == s.delivered
  {
    hide Inv, Index, ScanHeader, InBounds, Continues, ReadsTo;
    var first: seq<Action>, stopped := [], s;
    if s.reader.Scan? {
      StepSafe(s, ReadHeader);
      RunOne(s, ReadHeader);
      ScanHead(s);
      if s.reader.advance < |s.sh.mem| - Index(s.sh.head, |s.sh.mem|) {
        ScanDecides(s);
      }
      first, stopped := [ReadHeader], Apply(s, ReadHeader);
    } else {
      NoHandler(s);
    }
    ReaderKeeps(s, first);
    var close := Closes(stopped);
    OnlyReads(close);
    ReaderKeeps(stopped, close);
    t := Run(stopped, close);
    ReadsOn(s, first, stopped, close, t);
    run := first + close;
  }

  lemma OnlyReads(run: seq<Action>)
    requires Continues(run)
    ensures forall a <- run :: ReaderAction(a)
  {
    hide ReaderAction;
  }

  lemma NoHandler(s: State)
    requires Inv(s) && |s.delivered| == |s.log|
    ensures !s.reader.CallHandler?
  {
    hide Images, W.WindowOk, WritersOk, DeliveredOk, LogOk, AtEntry, Index;
  }

  lemma Empty(s: State)
    requires Inv(s) && |s.delivered| == |s.log| && s.reader.ReaderIdle?
    ensures s.sh.head == s.sh.tail && OffsetsOk(s.sh)
  {
    hide Images, W.WindowOk, WritersOk, DeliveredOk, Index;
  }

  lemma DeliversOne(s: State) returns (run: seq<Action>, t: State)
    requires Inv(s) && NextFinished(s)
    ensures ReadsTo(s, run, t) && |t.delivered| == |s.delivered| + 1
  {
    hide Inv, ReadsTo, IsRun, Run, Payload, ReaderAction;
    if s.reader.Scan? {
      NextFromScan(s);
    } else {
      NextFromStopped(s);
      Within(s, 10, 12);
    }
    var e := s.log[|s.delivered|];
    run :| DeliveredByReader(s, run, Delivery(e.req.msg, Payload(e)), 12);
    t := Run(s, run);
    ReaderKeeps(s, run);
  }

  lemma {:induction false} Drains(s: State) returns (run: seq<Action>, t: State)
    requires Inv(s) && AllFinished(s.log) && |s.delivered| <= |s.log|
    ensures ReadsTo(s, run, t) && t.reader.ReaderIdle? && |t.delivered| == |s.log|
    decreases |s.log| - |s.delivered|
  {
    hide Inv, ReadsTo;
    if |s.delivered| == |s.log| {
      run, t := Idles(s);
    } else {
      var one, next := DeliversOne(s);
      ReadTo(s, one, next);
      var rest;
      rest, t := Drains(next);
      ReadsOn(s, one, next, rest, t);
      run := one + rest;
    }
  }

  lemma ReadTo(s: State, run: seq<Action>, t: State)
    requires ReadsTo(s, run, t)
    ensures (forall a <- run :: ReaderAction(a)) && IsRun(s, run) && Run(s, run) == t
    ensures Inv(t) && t.log == s.log && t.writers == s.writers && |t.delivered| <= |t.log|
  {
    hide Images, W.WindowOk, WritersOk, LogOk, ReaderOk, Index, ReaderAction;
  }

  /**
  From every reachable state in which every message reserved has been finished, however full the buffer is, the reader
  alone makes room for a `prepare` that waits, which then gets its reservation alone.
  */
  lemma WaitingServed(start: State, past: seq<Action>, w: nat) returns (freeing: seq<Action>, run: seq<Action>)
    requires Init(start) && IsRun(start, past)
    requires var s := Run(start, past);
      w < |s.writers| && Reserves(s.writers[w]) && s.writers[w].req.wait && AllFinished(s.log)
    ensures var s := Run(start, past);
      && (forall a <- freeing :: ReaderAction(a)) && IsRun(s, freeing)
      && Run(s, freeing).log == s.log && GetsBy(Run(s, freeing), w, run, 16)
  {
    hide Inv, Init, IsRun, Run, GetsBy, HasSpace, ReadsTo, OffsetsOk, AllFinished, EntrySize;
    InitSafe(start);
    RunSafe(start, past);
    var s := Run(start, past);
    InvDelivered(s);
    var t;
    freeing, t := Drains(s);
    ReadTo(s, freeing, t);
    Empty(t);
    Reserving(t, w);
    Acceptable(t, w);
    EmptyBufferHasSpace(t.sh, t.writers[w].req);
    run := ReservesAlone(t, w);
  }

  lemma InvDelivered(s: State)
    requires Inv(s)
    ensures |s.delivered| <= |s.log|
  {
    hide Images, W.WindowOk, WritersOk, LogOk, ReaderOk, Index;
  }

  lemma Acceptable(s: State, w: nat)
    requires OffsetsOk(s.sh) && w < |s.writers| && Reserves(s.writers[w])
    requires ReservingOk(|s.sh.mem|, s.sh.head, s.sh.tail, s.writers[w])
    ensures s.writers[w].req.Acceptable(|s.sh.mem|)
  {
  }

  // ----- Writing and finishing

  ghost predicate ByOwner(run: seq<Action>, w: nat) {
    forall a <- run :: (a.Step? || a.WriteBytes? || a.Finish?) && a.w == w
  }

  /** The writer finishes its message with these bytes after those that it has written. */
  ghost predicate FinishesBy(s: State, w: nat, bytes: seq<byte>, run: seq<Action>, n: nat)
    requires w < |s.writers| && s.writers[w].Owns() && s.writers[w].slot < |s.log|
  {
    var slot := s.writers[w].slot;
    var e := s.log[slot];
    && |run| <= n && ByOwner(run, w) && IsRun(s, run)
    && Run(s, run).writers == s.writers[w := Idle]
    && Run(s, run).log == s.log[slot := e.(data := e.data + bytes, stage := Finished)]
  }

  lemma FinishesOn(s: State, w: nat, bytes: seq<byte>, a: Action, more: seq<byte>, run: seq<Action>, n: nat)
    requires w < |s.writers| && s.writers[w].Owns() && s.writers[w].slot < |s.log| && Enabled(s, a)
    requires (a.Step? || a.WriteBytes? || a.Finish?) && a.w == w
    requires var t, slot := Apply(s, a), s.writers[w].slot;
      && |t.writers| == |s.writers| && t.writers == s.writers[w := t.writers[w]] && |t.log| == |s.log|
      && t.writers[w].Owns() && t.writers[w].slot == slot
      && t.log == s.log[slot := s.log[slot].(data := s.log[slot].data + more, stage := t.log[slot].stage)]
      && FinishesBy(t, w, bytes, run, n)
    ensures FinishesBy(s, w, more + bytes, [a] + run, n + 1)
  {
    hide Apply, Enabled, IsRun, Run;
    RunFirst(s, a, run);
    var e := s.log[s.writers[w].slot];
    assert (e.data + more) + bytes == e.data + (more + bytes);
    var t := Apply(s, a);
    assert t.writers[w := Idle] == s.writers[w := Idle];
  }

  lemma FinishesNow(s: State, w: nat)
    requires Inv(s) && w < |s.writers| && s.writers[w].Finishing? && s.writers[w].slot < |s.log|
    ensures FinishesBy(s, w, [], [Step(w)], 1)
  {
    hide Inv, Index, Splice, MakeHeader, InBounds;
    StepSafe(s, Step(w));
    RunOne(s, Step(w));
    var e := s.log[s.writers[w].slot];
    assert e.data + [] == e.data;
  }

  lemma Finishes(s: State, w: nat)
    requires Inv(s) && w < |s.writers| && s.writers[w].Writing? && s.writers[w].slot < |s.log|
    ensures FinishesBy(s, w, [], [Finish(w)] + [Step(w)], 2)
  {
    hide Inv, Index, Read64, InBounds;
    StepSafe(s, Finish(w));
    var t, e := Apply(s, Finish(w)), s.log[s.writers[w].slot];
    FinishesNow(t, w);
    assert e.data + [] == e.data && s.log[s.writers[w].slot := e] == s.log;
    var none: seq<byte> := [];
    FinishesOn(s, w, none, Finish(w), none, [Step(w)], 1);
    assert none + none == none;
  }

  /** From where it writes. */
  lemma WritesAll(s: State, w: nat, bytes: seq<byte>)
    requires Inv(s) && w < |s.writers| && s.writers[w].Writing? && s.writers[w].slot < |s.log|
    requires |s.log[s.writers[w].slot].data| + |bytes| <= s.writers[w].req.size
    ensures FinishesBy(s, w, bytes, [WriteBytes(w, bytes)] + ([Finish(w)] + [Step(w)]), 3)
  {
    hide Inv, Index, Splice, InBounds;
    WritingAt(s, w);
    StepSafe(s, WriteBytes(w, bytes));
    var t := Apply(s, WriteBytes(w, bytes));
    Finishes(t, w);
    FinishesOn(s, w, [], WriteBytes(w, bytes), bytes, [Finish(w)] + [Step(w)], 2);
    assert bytes + [] == bytes;
  }

  lemma WritingAt(s: State, w: nat)
    requires Inv(s) && w < |s.writers| && s.writers[w].Writing? && s.writers[w].slot < |s.log|
    ensures s.writers[w].next == s.writers[w].initial + |s.log[s.writers[w].slot].data|
  {
    hide LogOk, ReaderOk, DeliveredOk, W.WindowOk, Index, EntrySize;
    assert WriterOk(|s.sh.mem|, s.sh.head, s.sh.tail, s.log, s.writers[w]);
  }

  /** A step that writes a header leads on towards writing. */
  lemma HeaderWritten(s: State, w: nat)
    requires Inv(s) && w < |s.writers| && (s.writers[w].WritePad? || s.writers[w].WriteHeader?)
    ensures Enabled(s, Step(w)) && Inv(Apply(s, Step(w))) && s.writers[w].slot < |s.log|
    ensures var t, pc := Apply(s, Step(w)), s.writers[w];
      && |t.writers| == |s.writers| && t.writers == s.writers[w := t.writers[w]] && |t.log| == |s.log|
      && t.log == s.log[pc.slot := s.log[pc.slot].(stage := t.log[pc.slot].stage)]
      && (if pc.WritePad? then t.writers[w].WriteHeader? else t.writers[w].Writing?)
      && t.writers[w].slot == pc.slot && t.writers[w].req == pc.req
  {
    hide Inv, Index, Splice, MakeHeader, InBounds;
    StepSafe(s, Step(w));
    OwnedEntry(s, w);
  }

  lemma HeaderThen(s: State, w: nat, bytes: seq<byte>, run: seq<Action>, n: nat)
    requires Inv(s) && w < |s.writers| && (s.writers[w].WritePad? || s.writers[w].WriteHeader?)
    requires Enabled(s, Step(w)) && w < |Apply(s, Step(w)).writers| && Apply(s, Step(w)).writers[w].Owns()
    requires Apply(s, Step(w)).writers[w].slot < |Apply(s, Step(w)).log|
    requires FinishesBy(Apply(s, Step(w)), w, bytes, run, n)
    ensures s.writers[w].slot < |s.log| && FinishesBy(s, w, bytes, [Step(w)] + run, n + 1)
  {
    hide Inv, Apply, Enabled, FinishesBy;
    HeaderWritten(s, w);
    var e := s.log[s.writers[w].slot];
    assert e.data + [] == e.data;
    FinishesOn(s, w, bytes, Step(w), [], run, n);
    assert [] + bytes == bytes;
  }

  lemma WritesFromHeader(s: State, w: nat, bytes: seq<byte>) returns (run: seq<Action>)
    requires Inv(s) && w < |s.writers| && s.writers[w].WriteHeader? && s.writers[w].slot < |s.log|
    requires |s.log[s.writers[w].slot].data| + |bytes| <= s.writers[w].req.size
    ensures FinishesBy(s, w, bytes, run, 4)
  {
    hide Inv, Apply, Enabled, FinishesBy;
    HeaderWritten(s, w);
    run := [WriteBytes(w, bytes)] + ([Finish(w)] + [Step(w)]);
    WritesAll(Apply(s, Step(w)), w, bytes);
    HeaderThen(s, w, bytes, run, 3);
    run := [Step(w)] + run;
  }

  /** From every reachable state a writer that has its reservation can write any bytes that it has asked room for after
      those it has written, and finish, in at most five steps of its own. */
  lemma OwnerFinishes(start: State, past: seq<Action>, w: nat, bytes: seq<byte>) returns (run: seq<Action>)
    requires Init(start) && IsRun(start, past)
    requires var s := Run(start, past);
      w < |s.writers| && (s.writers[w].WritePad? || s.writers[w].WriteHeader? || s.writers[w].Writing?)
    ensures var s := Run(start, past);
      && s.writers[w].slot < |s.log|
      && (|s.log[s.writers[w].slot].data| + |bytes| <= s.writers[w].req.size ==> FinishesBy(s, w, bytes, run, 5))
  {
    hide Inv, Init, IsRun, Run, FinishesBy, Apply, Enabled;
    InitSafe(start);
    RunSafe(start, past);
    var s := Run(start, past);
    OwnedEntry(s, w);
    run := [];
    if |s.log[s.writers[w].slot].data| + |bytes| <= s.writers[w].req.size {
      match s.writers[w] {
        case WritePad(_, _, _, _) =>
          HeaderWritten(s, w);
          run := WritesFromHeader(Apply(s, Step(w)), w, bytes);
          HeaderThen(s, w, bytes, run, 4);
          run := [Step(w)] + run;
        case WriteHeader(_, _, _) =>
          run := WritesFromHeader(s, w, bytes);
          FinishesWithin(s, w, bytes, run, 4, 5);
        case Writing(_, _, _, _) =>
          run := [WriteBytes(w, bytes)] + ([Finish(w)] + [Step(w)]);
          WritesAll(s, w, bytes);
          FinishesWithin(s, w, bytes, run, 3, 5);
      }
    }
  }

  lemma FinishesWithin(s: State, w: nat, bytes: seq<byte>, run: seq<Action>, n: nat, m: nat)
    requires w < |s.writers| && s.writers[w].Owns() && s.writers[w].slot < |s.log|
    requires FinishesBy(s, w, bytes, run, n) && n <= m
    ensures FinishesBy(s, w, bytes, run, m)
  {
  }
}
