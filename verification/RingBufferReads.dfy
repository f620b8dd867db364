/** One call of `read`: how many messages it hands over, and where it stops. */
module RingBufferReads {
  import opened RingBuffer
  import opened RingBufferTape
  import opened RingBufferInvariant
  import opened RingBufferDelivery
  import opened RingBufferProgress
  import W = RingBufferWindow

  /** No call of `read` begins. */
  ghost predicate NoStart(actions: seq<Action>) {
    forall a <- actions :: !a.StartRead?
  }

  /** Where the call that began with `n` messages delivered may have got to. */
  ghost predicate During(t: State, n: nat, limit: nat) {
    && n <= |t.delivered| <= n + limit
    && match t.reader
       case ReaderIdle => true
       case Scan(_, _, count, lim) => lim == limit && count == |t.delivered| - n
       case CallHandler(_, _, count, lim, _, _) => lim == limit && count == |t.delivered| - n < limit
       case Clearing(_, _, _, count) => count == |t.delivered| - n
  }

  lemma StepDuring(t: State, a: Action, n: nat, limit: nat)
    requires During(t, n, limit) && Enabled(t, a) && !a.StartRead?
    ensures During(Apply(t, a), n, limit) && t.delivered <= Apply(t, a).delivered
    ensures Returned(t, a).Some? ==> Returned(t, a).value == |t.delivered| - n
  {
    hide Index, EntrySize, StepWriter, StageLog, Read64;
  }

  lemma {:induction false} RunDuring(t: State, actions: seq<Action>, n: nat, limit: nat)
    requires During(t, n, limit) && IsRun(t, actions) && NoStart(actions)
    ensures During(Run(t, actions), n, limit) && t.delivered <= Run(t, actions).delivered
    decreases |actions|
  {
    hide During, Apply, Enabled;
    if actions != [] {
      assert actions[0] in actions && forall a <- actions[1..] :: a in actions;
      StepDuring(t, actions[0], n, limit);
      RunDuring(Apply(t, actions[0]), actions[1..], n, limit);
    }
  }

  lemma Begins(s: State, limit: nat, actions: seq<Action>)
    requires IsRun(s, [StartRead(limit)] + actions)
    ensures Enabled(s, StartRead(limit)) && During(Apply(s, StartRead(limit)), |s.delivered|, limit)
    ensures IsRun(Apply(s, StartRead(limit)), actions)
    ensures Run(s, [StartRead(limit)] + actions) == Run(Apply(s, StartRead(limit)), actions)
  {
    hide Index, InBounds;
    assert ([StartRead(limit)] + actions)[1..] == actions;
  }

  /**
  From the beginning of a call of `read` and for as long as no other begins, whatever the writers do: no more messages
  are handed over than the limit; and if the call returns, it returns how many there were.
  */
  lemma ReadKeepsLimit(s: State, limit: nat, actions: seq<Action>, next: Action)
    requires IsRun(s, [StartRead(limit)] + actions) && NoStart(actions)
    ensures var t := Run(s, [StartRead(limit)] + actions);
      && s.delivered <= t.delivered && |t.delivered| <= |s.delivered| + limit
      && (Enabled(t, next) && Returned(t, next).Some? ==> Returned(t, next).value == |t.delivered| - |s.delivered|)
  {
    hide Apply, Enabled, During, IsRun, Run;
    Begins(s, limit, actions);
    var begun := Apply(s, StartRead(limit));
    assert begun.delivered == s.delivered by { SameDelivered(s, limit); }
    RunDuring(begun, actions, |s.delivered|, limit);
    DuringBounds(Run(begun, actions), |s.delivered|, limit);
    var t := Run(begun, actions);
    if Enabled(t, next) && Returned(t, next).Some? {
      Returns(t, next, |s.delivered|, limit);
    }
  }

  lemma SameDelivered(s: State, limit: nat)
    requires Enabled(s, StartRead(limit))
    ensures Apply(s, StartRead(limit)).delivered == s.delivered
  {
  }

  lemma DuringBounds(t: State, n: nat, limit: nat)
    requires During(t, n, limit)
    ensures n <= |t.delivered| <= n + limit
  {
  }

  lemma Returns(t: State, a: Action, n: nat, limit: nat)
    requires During(t, n, limit) && Enabled(t, a) && Returned(t, a).Some?
    ensures |t.delivered| >= n && Returned(t, a).value == |t.delivered| - n
  {
    hide Index, EntrySize, StepWriter, StageLog, Read64;
  }

  // ----- Where a call stops

  /** The next message is at the front of the buffer, further on than the call began. */
  ghost predicate AtFront(t: State, head: nat)
    requires |t.sh.mem| > 0 && |t.delivered| < |t.log|
  {
    var e := t.log[|t.delivered|];
    Index(e.Body(), |t.sh.mem|) == 0 && head < e.Body()
  }

  /** What a call may leave: it has handed over as many as it was asked for, or the next message is not finished, or
      the block that the call began in has come to its end. */
  ghost predicate MayStop(t: State, n: nat, limit: nat, head: nat) {
    && |t.sh.mem| > 0
    && (|t.delivered| == n + limit || !NextFinished(t) || AtFront(t, head))
  }

  predicate Stopped(r: ReaderPc) {
    r.ReaderIdle? || r.Clearing?
  }

  lemma FrontPlace(e: Entry, size: nat, p: nat)
    requires size > 0 && EntryOk(e, size) && (p == e.start || p == e.Body()) && Index(p, size) == 0
    ensures Index(e.Body(), size) == 0 && p <= e.Body()
  {
    hide Index, Aligned, EntrySize;
    BodyContiguous(e, size);
  }

  lemma NextPlace(t: State)
    requires Inv(t) && t.reader.Scan? && |t.delivered| < |t.log|
    ensures var e, p := t.log[|t.delivered|], t.sh.head + t.reader.advance;
      && |t.sh.mem| > 0 && EntryOk(e, |t.sh.mem|) && (p == e.start || p == e.Body())
      && Index(t.sh.head, |t.sh.mem|) + t.reader.advance <= |t.sh.mem|
  {
    hide Images, W.WindowOk, WritersOk, DeliveredOk, EntryOk, Aligned, EntrySize, Index;
  }

  lemma BlockEnds(t: State)
    requires Inv(t) && t.reader.Scan? && |t.sh.mem| > 0
    requires t.reader.advance >= |t.sh.mem| - Index(t.sh.head, |t.sh.mem|)
    requires |t.delivered| < |t.log|
    ensures AtFront(t, t.sh.head)
  {
    hide Inv, EntryOk, Index;
    NextPlace(t);
    W.IndexWrap(t.sh.head, |t.sh.mem|);
    FrontPlace(t.log[|t.delivered|], |t.sh.mem|, t.sh.head + t.reader.advance);
  }

  lemma StopsOnlyAt(t: State, n: nat, limit: nat)
    requires Inv(t) && During(t, n, limit) && t.reader.Scan?
    ensures Enabled(t, ReadHeader)
    ensures Stopped(Apply(t, ReadHeader).reader) ==> MayStop(t, n, limit, t.sh.head)
  {
    hide Inv, Index, ScanHeader;
    StepSafe(t, ReadHeader);
    ScanHead(t);
    if Stopped(Apply(t, ReadHeader).reader) && NextFinished(t) && t.reader.count < limit {
      if t.reader.advance < |t.sh.mem| - Index(t.sh.head, |t.sh.mem|) {
        ScanDecides(t);
      } else {
        BlockEnds(t);
      }
    }
  }

  /**
  In every run, a call of `read` ends its scan only where it has handed over as many messages as it was asked for, or
  at a message that is absent or pending, or at the end of the block.
  */
  lemma ReadStopsOnlyAt(start: State, past: seq<Action>, limit: nat, actions: seq<Action>)
    requires Init(start) && IsRun(start, past) && IsRun(Run(start, past), [StartRead(limit)] + actions)
    requires NoStart(actions)
    ensures var s := Run(start, past);
      var t := Run(s, [StartRead(limit)] + actions);
      && (t.reader.Scan? ==> Enabled(t, ReadHeader))
      && (t.reader.Scan? && Stopped(Apply(t, ReadHeader).reader) ==> MayStop(t, |s.delivered|, limit, t.sh.head))
  {
    hide Inv, Init, Apply, Enabled, During, IsRun, Run, MayStop;
    InitSafe(start);
    RunSafe(start, past);
    var s := Run(start, past);
    RunSafe(s, [StartRead(limit)] + actions);
    Begins(s, limit, actions);
    RunDuring(Apply(s, StartRead(limit)), actions, |s.delivered|, limit);
    var t := Run(s, [StartRead(limit)] + actions);
    if t.reader.Scan? {
      StopsOnlyAt(t, |s.delivered|, limit);
    }
  }

  // ----- A call that nobody disturbs

  /** Steps of the reader that begin no call. */
  ghost predicate Continues(run: seq<Action>) {
    forall a <- run :: ReaderAction(a) && !a.StartRead?
  }

  ghost predicate ScansTo(t: State, run: seq<Action>, u: State) {
    && Continues(run) && IsRun(t, run) && Run(t, run) == u
    && u.log == t.log && u.sh == t.sh && Stopped(u.reader)
  }

  lemma ScansOn(t: State, a: Action, run: seq<Action>, u: State)
    requires Enabled(t, a) && ReaderAction(a) && !a.StartRead?
    requires Apply(t, a).log == t.log && Apply(t, a).sh == t.sh && ScansTo(Apply(t, a), run, u)
    ensures ScansTo(t, [a] + run, u)
  {
    hide Apply, Enabled, ReaderAction;
    assert ([a] + run)[1..] == run;
  }

  /** What has been read is within the block. */
  lemma WithinBlock(t: State)
    requires Inv(t)
    ensures |t.sh.mem| > 0 && Index(t.sh.head, |t.sh.mem|) + Advance(t.reader) <= |t.sh.mem|
  {
    hide Images, W.WindowOk, WritersOk, DeliveredOk, LogOk, AtEntry, Index;
  }

  /** One look at a header stops the scan, finds a message, or gets further. */
  lemma LooksFurther(t: State)
    requires Inv(t) && t.reader.Scan?
    ensures Enabled(t, ReadHeader) && Inv(Apply(t, ReadHeader))
    ensures var u := Apply(t, ReadHeader);
      && u == t.(reader := u.reader)
      && (Stopped(u.reader) || u.reader.CallHandler? || (u.reader.Scan? && Advance(u.reader) > t.reader.advance))
      && Advance(u.reader) >= if u.reader.ReaderIdle? then 0 else t.reader.advance
  {
    hide Inv, Index, ScanHeader;
    StepSafe(t, ReadHeader);
    ScanHead(t);
    var size := |t.sh.mem|;
    if t.reader.advance < size - Index(t.sh.head, size) && t.reader.count < t.reader.limit {
      ScanDecides(t);
    }
  }

  lemma HandsOver(t: State)
    requires Inv(t) && t.reader.CallHandler?
    ensures Enabled(t, Handle) && Inv(Apply(t, Handle))
    ensures var u := Apply(t, Handle);
      u.reader.Scan? && u.reader.advance > t.reader.advance && u.log == t.log && u.sh == t.sh
  {
    hide Inv, Index, EntrySize;
    StepSafe(t, Handle);
    EntrySizeBounds(t.reader.size);
  }

  /** The scan comes to an end, where it may. */
  lemma {:induction false} ScanEnds(t: State, n: nat, limit: nat) returns (run: seq<Action>, u: State)
    requires Inv(t) && During(t, n, limit) && (t.reader.Scan? || t.reader.CallHandler?)
    ensures ScansTo(t, run, u) && Inv(u) && During(u, n, limit) && MayStop(u, n, limit, u.sh.head)
    decreases |t.sh.mem| - Index(t.sh.head, |t.sh.mem|) - Advance(t.reader), t.reader.Scan?
  {
    hide Inv, During, MayStop, ScansTo, Enabled, Apply, Index;
    WithinBlock(t);
    var a := if t.reader.Scan? then ReadHeader else Handle;
    if t.reader.Scan? {
      LooksFurther(t);
      StopsOnlyAt(t, n, limit);
    } else {
      HandsOver(t);
    }
    var next := Apply(t, a);
    StepDuring(t, a, n, limit);
    if Stopped(next.reader) {
      u, run := next, [a] + [];
      StopsHere(next);
      ScansOn(t, a, [], next);
      SameStop(t, next, n, limit, t.sh.head);
    } else {
      WithinBlock(next);
      var more;
      more, u := ScanEnds(next, n, limit);
      ScansOn(t, a, more, u);
      run := [a] + more;
    }
  }

  lemma StopsHere(t: State)
    requires Stopped(t.reader)
    ensures ScansTo(t, [], t)
  {
  }

  lemma SameStop(t: State, u: State, n: nat, limit: nat, head: nat)
    requires MayStop(t, n, limit, head)
    requires u.log == t.log && u.delivered == t.delivered && |u.sh.mem| == |t.sh.mem|
    ensures MayStop(u, n, limit, head)
  {
    hide Index;
  }

  /** What is left to do is to clear what was read and to move the head. */
  lemma Closes(t: State) returns (run: seq<Action>)
    requires Inv(t) && Stopped(t.reader)
    ensures Continues(run) && IsRun(t, run)
    ensures var u := Run(t, run);
      Inv(u) && u.reader.ReaderIdle? && u.log == t.log && u.delivered == t.delivered && |u.sh.mem| == |t.sh.mem|
  {
    hide Inv, Index;
    if t.reader.ReaderIdle? {
      run := [];
    } else {
      ClearingBounds(t);
      var m := t.reader.advance - t.reader.cleared;
      StepSafe(t, Clear(m));
      var cleared := Apply(t, Clear(m));
      StepSafe(cleared, StoreHead);
      RunTwo(t, Clear(m), StoreHead);
      run := [Clear(m), StoreHead];
    }
  }

  /**
  From every reachable state in which the reader is idle, a call of `read` that nobody disturbs returns, having handed
  over messages up to the limit, up to one that is not finished, or up to the end of the block.
  */
  lemma ReadAlone(start: State, past: seq<Action>, limit: nat) returns (run: seq<Action>)
    requires Init(start) && IsRun(start, past) && Run(start, past).reader.ReaderIdle?
    ensures Continues(run) && IsRun(Run(start, past), [StartRead(limit)] + run)
    ensures var s := Run(start, past);
      var t := Run(s, [StartRead(limit)] + run);
      && t.reader.ReaderIdle? && t.log == s.log && MayStop(t, |s.delivered|, limit, s.sh.head)
  {
    hide Inv, Init, During, IsRun, Run, MayStop, Continues, InBounds, Index, ScansTo;
    InitSafe(start);
    RunSafe(start, past);
    var s := Run(start, past);
    StepSafe(s, StartRead(limit));
    var begun := Apply(s, StartRead(limit));
    Begun(s, limit);
    var scan, stopped := ScanEnds(begun, |s.delivered|, limit);
    ScannedTo(begun, scan, stopped);
    var close := Closes(stopped);
    SameStop(stopped, Run(stopped, close), |s.delivered|, limit, s.sh.head);
    run := scan + close;
    RunAppend(begun, scan, close);
    RunFirst(s, StartRead(limit), run);
    ContinuesOn(scan, close);
  }

  lemma Begun(s: State, limit: nat)
    requires Enabled(s, StartRead(limit))
    ensures During(Apply(s, StartRead(limit)), |s.delivered|, limit)
  {
  }

  lemma ScannedTo(t: State, run: seq<Action>, u: State)
    requires ScansTo(t, run, u)
    ensures Continues(run) && IsRun(t, run) && Run(t, run) == u && u.log == t.log && u.sh == t.sh && Stopped(u.reader)
  {
  }

  lemma RunFirst(s: State, a: Action, rest: seq<Action>)
    requires Enabled(s, a) && IsRun(Apply(s, a), rest)
    ensures IsRun(s, [a] + rest) && Run(s, [a] + rest) == Run(Apply(s, a), rest)
  {
    hide Enabled, Apply;
    assert ([a] + rest)[1..] == rest;
  }

  lemma ContinuesOn(a: seq<Action>, b: seq<Action>)
    requires Continues(a) && Continues(b)
    ensures Continues(a + b)
  {
  }
}
