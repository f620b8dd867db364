/** The messages of the ring buffer's step system, as the layers above see them. */
module RingSlots {
  import opened Sequences
  import opened RingBuffer
  import opened RingBufferTape
  import opened RingBufferInvariant
  import opened RingBufferSafety
  import opened RingBufferDelivery
  import opened RingBufferTheorems
  import opened RingWriters

  function SlotOf(e: Entry): Slot {
    Slot(e.start, e.req.msg, e.req.size, e.data, e.stage.Finished?)
  }

  /** One message for every reservation, in order. */
  function Slots(log: seq<Entry>): (slots: seq<Slot>)
    ensures |slots| == |log|
    ensures forall i :: 0 <= i < |log| ==> slots[i] == SlotOf(log[i])
  {
    seq(|log|, i requires 0 <= i < |log| => SlotOf(log[i]))
  }

  /** What one step does to the messages: a successful exchange of the tail reserves, a copy of payload bytes
      extends, the last store of a finish closes, and nothing else changes any message. */
  ghost predicate StepAllowed(s: State, a: Action)
    requires Enabled(s, a)
  {
    var before, after := Slots(s.log), Slots(Apply(s, a).log);
    if a.TryExchange? && s.sh.tail == s.writers[a.w].tl && !a.spurious then
      var req := s.writers[a.w].req;
      Reserved(before, after, req.msg, req.size, s.sh.tail) && Acceptable(req.msg, req.size, |s.sh.mem|)
    else if a.WriteBytes? then
      var pc := s.writers[a.w];
      pc.initial <= pc.next && Extended(before, after, Marker(pc.slot, pc.next - pc.initial), a.bytes)
    else if a.Step? && s.writers[a.w].Finishing? then
      Closed(before, after, s.writers[a.w].slot)
    else after == before
  }

  lemma ExchangeAllowed(s: State, w: nat)
    requires Inv(s) && w < |s.writers| && s.writers[w].CompareExchange? && Enabled(s, TryExchange(w, false))
    requires s.sh.tail == s.writers[w].tl
    ensures StepAllowed(s, TryExchange(w, false))
  {
    hide LogOk, Images, W.WindowOk, ReaderOk, DeliveredOk, Index, Aligned;
    assert WriterOk(|s.sh.mem|, s.sh.head, s.sh.tail, s.log, s.writers[w]);
  }

  lemma StepsAllowed(s: State, a: Action)
    requires Inv(s) && Enabled(s, a)
    ensures StepAllowed(s, a)
  {
    hide Inv, StepWriter, ScanHeader, Index, Splice, Read64, EntryOk, Imageable, Acceptable;
    if a.TryExchange? && s.sh.tail == s.writers[a.w].tl && !a.spurious {
      ExchangeAllowed(s, a.w);
    } else if (a.Step? || a.WriteBytes?) && s.writers[a.w].Owns() {
      OwnedEntry(s, a.w);
    }
  }

  lemma SlotsWellFormed(s: State)
    requires Inv(s)
    ensures WellFormed(Slots(s.log), s.sh.tail)
  {
    hide Images, W.WindowOk, WritersOk, ReaderOk, DeliveredOk, Aligned, Index;
    forall i, j | 0 <= i < j < |s.log|
      ensures s.log[i].start < s.log[j].start
    {
      hide EntryOk;
      StartsIncrease(s.log, s.sh.tail, i, j);
    }
    forall i | 0 <= i < |s.log|
      ensures s.log[i].start < s.sh.tail && |s.log[i].data| <= s.log[i].req.size
    {
      assert EntryOk(s.log[i], |s.sh.mem|);
      StartsIncrease(s.log, s.sh.tail, i, |s.log|);
    }
  }

  /**
  Over every run of the ring buffer, with any number of writers in any interleaving, the messages are well
  formed and every step does to them only what one of the three methods of the layer above may do.
  */
  lemma RunAllowed(s: State, past: seq<Action>, a: Action)
    requires Init(s) && IsRun(s, past) && Enabled(Run(s, past), a)
    ensures var t := Run(s, past); WellFormed(Slots(t.log), t.sh.tail) && StepAllowed(t, a)
  {
    hide Inv, Init, StepAllowed, WellFormed;
    InitSafe(s);
    RunSafe(s, past);
    SlotsWellFormed(Run(s, past));
    StepsAllowed(Run(s, past), a);
  }

  // ----- One call of `prepare`

  /** Where writer `w` may be while or after its call, made when there were `n` reservations: still reserving; back
      without a marker, if it would not wait; or the owner of a new message as it asked for. */
  ghost predicate Preparing(n: nat, req: Request, s: State, w: nat) {
    && w < |s.writers|
    && var pc := s.writers[w];
    if pc.Idle? then !req.wait
    else
      && pc.req == req && !pc.Finishing?
      && (pc.Owns() ==>
           n <= pc.slot < |s.log| && SlotOf(s.log[pc.slot]) == Slot(s.log[pc.slot].start, req.msg, req.size, [], false))
  }

  /** The action is a later call of the same writer. */
  predicate CallsAgain(a: Action, w: nat) {
    (a.Prepare? || a.WriteBytes? || a.Finish?) && a.w == w
  }

  lemma OwnStep(n: nat, req: Request, s: State, a: Action, w: nat)
    requires Inv(s) && Enabled(s, a) && Preparing(n, req, s, w) && n <= |s.log|
    requires (a.Step? || a.TryExchange?) && a.w == w
    ensures Preparing(n, req, Apply(s, a), w)
  {
    hide Inv, Preparing, Apply, InBounds;
    if s.writers[w].Owns() {
      OwnedStep(n, req, s, w);
    } else {
      ReservingStep(n, req, s, a, w);
    }
  }

  lemma ReservingStep(n: nat, req: Request, s: State, a: Action, w: nat)
    requires Inv(s) && Enabled(s, a) && Preparing(n, req, s, w) && n <= |s.log|
    requires (a.Step? || a.TryExchange?) && a.w == w && !s.writers[w].Owns()
    ensures Preparing(n, req, Apply(s, a), w)
  {
    hide Inv, ScanHeader, Index, Splice, Read64, Write64, MakeHeader, EntrySize;
  }

  lemma OwnedStep(n: nat, req: Request, s: State, w: nat)
    requires Inv(s) && w < |s.writers| && s.writers[w].Owns() && Enabled(s, Step(w))
    requires Preparing(n, req, s, w) && n <= |s.log|
    ensures Preparing(n, req, Apply(s, Step(w)), w)
  {
    hide Inv, ScanHeader, Index, Splice, Read64, Write64, MakeHeader, EntryOk, Imageable;
    OwnedEntry(s, w);
  }

  /** A step changes no reservation but its own writer's. */
  lemma Elsewhere(s: State, a: Action, k: nat)
    requires Inv(s) && Enabled(s, a) && k < |s.log|
    requires (a.Step? || a.WriteBytes?) && s.writers[a.w].Owns() ==> s.writers[a.w].slot != k
    ensures k < |Apply(s, a).log| && Apply(s, a).log[k] == s.log[k]
  {
    hide Inv, StepWriter, ScanHeader, Index, Splice, Read64;
  }

  lemma OtherStep(n: nat, req: Request, s: State, a: Action, w: nat)
    requires Inv(s) && Enabled(s, a) && Preparing(n, req, s, w) && n <= |s.log|
    requires (a.Prepare? || a.Step? || a.TryExchange? || a.WriteBytes? || a.Finish?) ==> a.w != w
    ensures Preparing(n, req, Apply(s, a), w)
  {
    hide Inv, StepWriter, ScanHeader, Index, Splice, Read64, StageLog, InBounds;
    assert w < |Apply(s, a).writers| && Apply(s, a).writers[w] == s.writers[w];
    hide Apply;
    if s.writers[w].Owns() {
      if (a.Step? || a.WriteBytes?) && s.writers[a.w].Owns() {
        SlotsApart(s, a.w, w);
      }
      Elsewhere(s, a, s.writers[w].slot);
    }
  }

  lemma SlotsApart(s: State, v: nat, w: nat)
    requires Inv(s) && v < |s.writers| && w < |s.writers| && v != w && s.writers[v].Owns() && s.writers[w].Owns()
    ensures s.writers[v].slot != s.writers[w].slot
  {
    hide Images, W.WindowOk, LogOk, WriterOk, ReaderOk, DeliveredOk, Aligned, Index;
  }

  /**
  What the layer above is told of `prepare` is what the ring buffer does, whatever the other writers and the
  reader do in the meantime: the call comes back without a marker only if it would not wait, and with a marker
  only to a message of its own, reserved during the call, of the type and size asked for and still empty.
  */
  lemma {:induction false} PrepareReturns(n: nat, s: State, actions: seq<Action>, w: nat, req: Request)
    requires Inv(s) && IsRun(s, actions) && Preparing(n, req, s, w) && n <= |s.log|
    requires forall a <- actions :: !CallsAgain(a, w)
    ensures Preparing(n, req, Run(s, actions), w)
    decreases |actions|
  {
    if actions != [] {
      hide Inv, Preparing, Apply, InBounds, AtPoint;
      var a := actions[0];
      assert a in actions;
      if (a.Step? || a.TryExchange?) && a.w == w {
        OwnStep(n, req, s, a, w);
      } else {
        OtherStep(n, req, s, a, w);
      }
      StepSafe(s, a);
      StepLater(s, a);
      PrepareReturns(n, Apply(s, a), actions[1..], w, req);
    }
  }

  /** The same from the start of the call, in every run: unless the message is refused, which changes nothing. */
  lemma PrepareCall(s: State, past: seq<Action>, w: nat, req: Request, during: seq<Action>)
    requires Init(s) && IsRun(s, past) && Enabled(Run(s, past), Prepare(w, req))
    requires IsRun(Apply(Run(s, past), Prepare(w, req)), during) && forall a <- during :: !CallsAgain(a, w)
    ensures var t := Run(s, past);
      if req.Acceptable(|t.sh.mem|) then Preparing(|t.log|, req, Run(Apply(t, Prepare(w, req)), during), w)
      else Apply(t, Prepare(w, req)) == t
  {
    hide Inv, Init;
    InitSafe(s);
    RunSafe(s, past);
    var t := Run(s, past);
    if req.Acceptable(|t.sh.mem|) {
      StepSafe(t, Prepare(w, req));
      PrepareReturns(|t.log|, Apply(t, Prepare(w, req)), during, w, req);
    }
  }
}
