/** Timers over time: when one that was added fires, whatever else happens. */
module TimerRuns {
  import opened Timers
  import opened TimerTheorems

  /** How far the ticks move the clock. */
  function Elapsed(events: seq<Event>): nat {
    if events == [] then 0 else Moves(events[0]) + Elapsed(events[1..])
  }

  function Moves(e: Event): nat {
    if e.Tick? then e.elapsed else 0
  }

  ghost predicate Ticks(events: seq<Event>) {
    exists e <- events :: e.Tick?
  }

  // ----- One event

  /** The clock and the history go on. */
  ghost predicate Continues(w: Wheel, next: Wheel) {
    w.time <= next.time && w.counter <= next.counter && w.issued <= next.issued
  }

  lemma {:induction false} AppliedContinues(w: Wheel, ops: seq<Op>)
    ensures Continues(w, AppliedAll(w, ops))
    decreases |ops|
  {
    hide Insert, Erase, Has;
    if ops != [] {
      AppliedContinues(Applied(w, ops[0]), ops[1..]);
    }
  }

  lemma {:induction false} SettledContinues(w: Wheel)
    ensures Continues(w, Settled(w))
    decreases DueWeight(w.timers, w.time)
  {
    hide Settled, Erase, AppliedAll, DueWeight;
    SettledStep(w);
    if FirstDue(w) {
      FireLess(w);
      FireDefined(w);
      var first := w.timers[0];
      AppliedContinues(w.(timers := w.timers[1..], fired := w.fired + [first.key]), first.cb.ops);
      SettledContinues(Fire(w, first));
    }
  }

  /** No timer fired before its time. */
  ghost predicate NoneEarly(w: Wheel) {
    forall k <- w.fired :: k.deadline <= w.time
  }

  lemma TickContinues(w: Wheel, elapsed: nat)
    requires Inv(w) && NoneEarly(w)
    ensures var next := Ticked(w, elapsed);
      NoneEarly(next) && Continues(w, next) && next.time == w.time + elapsed
  {
    hide Settled, Inv;
    var now := w.(time := w.time + elapsed);
    NowKeeps(w, elapsed);
    var keys := SettledFires(now);
    SettledContinues(now);
  }

  lemma HandledContinues(w: Wheel, e: Event)
    requires Inv(w) && NoneEarly(w)
    ensures var next := Handled(w, e);
      && Inv(next) && NoneEarly(next) && Continues(w, next) && next.time == w.time + Moves(e)
      && (!e.Tick? ==> next.fired == w.fired)
  {
    hide Ticked, Inv, Insert, Erase, Has;
    HandledKeeps(w, e);
    if e.Tick? {
      TickContinues(w, e.elapsed);
    }
  }

  lemma NowKeeps(w: Wheel, elapsed: nat)
    requires Inv(w)
    ensures Inv(w.(time := w.time + elapsed))
  {
  }

  lemma ElapsedFirst(e: Event, rest: seq<Event>)
    ensures Elapsed([e] + rest) == Moves(e) + Elapsed(rest)
  {
    assert ([e] + rest)[1..] == rest;
  }

  lemma {:induction false} RunContinues(w: Wheel, events: seq<Event>)
    requires Inv(w) && NoneEarly(w)
    ensures var next := Run(w, events);
      && Inv(next) && NoneEarly(next) && Continues(w, next) && next.time == w.time + Elapsed(events)
      && (!Ticks(events) ==> next.fired == w.fired)
    decreases |events|
  {
    hide Inv, NoneEarly, Handled, Elapsed;
    if events == [] {
      NothingElapsed();
    } else {
      var e, rest := events[0], events[1..];
      assert events == [e] + rest;
      HandledContinues(w, e);
      ElapsedFirst(e, rest);
      RunContinues(Handled(w, e), rest);
      assert e in events && forall x <- rest :: x in events;
    }
  }

  lemma NothingElapsed()
    ensures Elapsed([]) == 0
  {
  }

  lemma StartKeeps()
    ensures Inv(Start()) && NoneEarly(Start())
  {
  }

  /** After any run the clock shows what the ticks add up to. */
  lemma TicksAddUp(events: seq<Event>)
    ensures Run(Start(), events).time == Elapsed(events)
  {
    hide Run, Elapsed, Inv;
    StartKeeps();
    RunContinues(Start(), events);
  }

  // ----- A timer that waits

  /** If the timer still waits, its time has not come. */
  ghost predicate NotYet(w: Wheel, key: Key) {
    Has(w.timers, key) ==> key.deadline > w.time
  }

  lemma TickNotYet(w: Wheel, elapsed: nat, key: Key)
    requires Inv(w)
    ensures NotYet(Ticked(w, elapsed), key)
  {
    hide Settled, KeyBag;
    var now := w.(time := w.time + elapsed);
    var keys := SettledFires(now);
    LaterNotDue(Settled(now));
    assert forall i :: 0 <= i < |Settled(now).timers| ==> Settled(now).timers[i] in Settled(now).timers;
  }

  lemma InsertHas(timers: seq<Timer>, t: Timer, key: Key)
    requires Has(Insert(timers, t), key) && key != t.key
    ensures Has(timers, key)
  {
    hide Insert;
    var all := Insert(timers, t);
    var i :| 0 <= i < |all| && all[i].key == key;
    InsertMembers(timers, t, all[i]);
    var j :| 0 <= j < |timers| && timers[j] == all[i];
    assert timers[j].key == key;
  }

  lemma EraseHas(timers: seq<Timer>, gone: Key, key: Key)
    requires Has(Erase(timers, gone), key)
    ensures Has(timers, key)
  {
    hide Erase;
    var rest := Erase(timers, gone);
    var i :| 0 <= i < |rest| && rest[i].key == key;
    assert rest[i] in rest;
    var j :| 0 <= j < |timers| && timers[j] == rest[i];
    assert timers[j].key == key;
  }

  lemma HandledNotYet(w: Wheel, e: Event, key: Key)
    requires Inv(w) && key.counter < w.counter && (e.Tick? || NotYet(w, key))
    ensures NotYet(Handled(w, e), key)
  {
    hide Inv, Insert, Erase, Has, Settled;
    var next := Handled(w, e);
    match e {
      case AddTimer(ms, cb) =>
        if Has(next.timers, key) {
          InsertHas(w.timers, Timer(Key(w.time + ms, w.counter), cb), key);
        }
      case Cancel(gone) =>
        if Has(w.timers, gone) && Has(next.timers, key) {
          EraseHas(w.timers, gone, key);
        }
      case Tick(elapsed) => TickNotYet(w, elapsed, key);
    }
  }

  lemma {:induction false} RunNotYet(w: Wheel, events: seq<Event>, key: Key)
    requires Inv(w) && NoneEarly(w) && key.counter < w.counter && (Ticks(events) || NotYet(w, key))
    ensures NotYet(Run(w, events), key)
    decreases |events|
  {
    hide Inv, NoneEarly, NotYet, Handled;
    if events != [] {
      var e, rest := events[0], events[1..];
      assert events == [e] + rest;
      HandledContinues(w, e);
      if e.Tick? || NotYet(w, key) {
        HandledNotYet(w, e, key);
      } else {
        var x :| x in events && x.Tick?;
        assert x in rest;
      }
      RunNotYet(Handled(w, e), rest, key);
    }
  }

  // ----- When it fires

  /** A key that was issued has fired, was cancelled or waits, and only one of these. */
  lemma OnePlace(w: Wheel, key: Key)
    requires Inv(w) && key in w.issued
    ensures key.counter < w.counter
    ensures key in w.fired ==> key !in w.cancelled && !Has(w.timers, key)
    ensures key in w.cancelled ==> !Has(w.timers, key)
    ensures key in w.fired || key in w.cancelled || Has(w.timers, key)
  {
    hide KeyBag, Has, Sorted;
    KeyBagHas(w.timers, key);
    OnlyOnce(w.issued, key);
    assert multiset(w.issued)[key] == 1;
  }

  lemma {:induction false} OnlyOnce(keys: seq<Key>, key: Key)
    requires key in keys && forall i :: 0 <= i < |keys| ==> keys[i].counter == i
    ensures multiset(keys)[key] == 1
  {
    var most, last := keys[..|keys| - 1], keys[|keys| - 1];
    assert keys == most + [last];
    if key == last {
      assert key !in most;
    } else {
      OnlyOnce(most, key);
    }
  }

  lemma WaitingIssued(w: Wheel, key: Key)
    requires Inv(w) && Has(w.timers, key)
    ensures key in w.issued
  {
    hide KeyBag, Has, Sorted;
    KeyBagHas(w.timers, key);
    assert key in multiset(w.issued);
  }

  /** A timer that waits now fires, unless cancelled, exactly when a tick brings the clock to its deadline. */
  lemma WaitingFires(w: Wheel, events: seq<Event>, key: Key)
    requires Inv(w) && NoneEarly(w) && Has(w.timers, key) && key !in Run(w, events).cancelled
    ensures key in Run(w, events).fired <==> Ticks(events) && key.deadline <= w.time + Elapsed(events)
  {
    hide Inv, Run, Elapsed, Has;
    var next := Run(w, events);
    WaitingIssued(w, key);
    OnePlace(w, key);
    RunContinues(w, events);
    OnePlace(next, key);
    if Ticks(events) {
      RunNotYet(w, events, key);
    }
  }

  lemma InsertedHas(timers: seq<Timer>, t: Timer)
    ensures Has(Insert(timers, t), t.key)
  {
    hide Before;
    if timers != [] && !Before(t.key, timers[0].key) && t.key != timers[0].key {
      InsertedHas(timers[1..], t);
      var i :| 0 <= i < |Insert(timers[1..], t)| && Insert(timers[1..], t)[i].key == t.key;
      assert Insert(timers, t)[i + 1].key == t.key;
    } else {
      assert Insert(timers, t)[0].key == t.key;
    }
  }

  lemma {:induction false} RunInTwo(w: Wheel, a: seq<Event>, b: seq<Event>)
    ensures Run(w, a + b) == Run(Run(w, a), b)
    decreases |a|
  {
    hide Handled;
    if a == [] {
      assert a + b == b;
    } else {
      assert (a + b)[1..] == a[1..] + b;
      RunInTwo(Handled(w, a[0]), a[1..], b);
    }
  }

  lemma RunOne(w: Wheel, e: Event)
    ensures Run(w, [e]) == Handled(w, e)
  {
    var one := [e];
    assert one[1..] == [];
  }

  lemma AddedFires(w: Wheel, ms: nat, cb: Callback, future: seq<Event>)
    requires Inv(w) && NoneEarly(w)
    ensures var key, next := Key(w.time + ms, w.counter), Run(Added(w, ms, cb), future);
      key !in next.cancelled ==> (key in next.fired <==> Ticks(future) && Elapsed(future) >= ms)
  {
    hide Run, Elapsed, Inv, Insert, Ticks, NoneEarly, Has;
    var key := Key(w.time + ms, w.counter);
    HandledContinues(w, AddTimer(ms, cb));
    InsertedHas(w.timers, Timer(key, cb));
    if key !in Run(Added(w, ms, cb), future).cancelled {
      WaitingFires(Added(w, ms, cb), future, key);
    }
  }

  lemma RunAround(w: Wheel, past: seq<Event>, e: Event, future: seq<Event>)
    ensures Run(w, past + [e] + future) == Run(Handled(Run(w, past), e), future)
  {
    hide Run, Handled;
    RunInTwo(w, past, [e]);
    RunOne(Run(w, past), e);
    RunInTwo(w, past + [e], future);
  }

  /**
  A timer added with a delay of `ms` at any time, under the entry that is handed out for it, and not cancelled: after
  any further events it has fired if and only if there has been a tick and the ticks add up to at least `ms`.
  */
  lemma TimerFiresIff(past: seq<Event>, ms: nat, cb: Callback, future: seq<Event>)
    ensures var w, next := Run(Start(), past), Run(Start(), past + [AddTimer(ms, cb)] + future);
      var key := Key(Elapsed(past) + ms, w.counter);
      key !in next.cancelled ==> (key in next.fired <==> Ticks(future) && Elapsed(future) >= ms)
  {
    hide Run, Elapsed, Inv, Ticks, NoneEarly, Added;
    StartKeeps();
    RunContinues(Start(), past);
    RunAround(Start(), past, AddTimer(ms, cb), future);
    AddedFires(Run(Start(), past), ms, cb, future);
  }
}
