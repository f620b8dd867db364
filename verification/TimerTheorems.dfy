/** What a tick fires, and what becomes of every timer over a whole run. */
module TimerTheorems {
  import opened Timers

  // ----- Which of the due timers fire

  predicate Cancels(t: Timer, key: Key) {
    CancelTimer(key) in t.cb.ops
  }

  lemma {:induction false} EraseMembers(timers: seq<Timer>, key: Key, x: Timer)
    requires Sorted(timers)
    ensures x in Erase(timers, key) <==> x in timers && x.key != key
  {
    if timers != [] {
      assert timers == [timers[0]] + timers[1..];
      if timers[0].key == key {
        assert x in timers[1..] ==> x.key != key;
      } else {
        EraseMembers(timers[1..], key, x);
      }
    }
  }

  lemma {:induction false} SparedMembers(timers: seq<Timer>, ops: seq<Op>, x: Timer)
    requires Sorted(timers)
    ensures Sorted(Spared(timers, ops))
    ensures x in Spared(timers, ops) <==> x in timers && CancelTimer(x.key) !in ops
    decreases |ops|
  {
    hide Erase, Sorted;
    if ops != [] {
      assert ops == [ops[0]] + ops[1..];
      match ops[0] {
        case CancelTimer(key) =>
          EraseSorted(timers, key);
          EraseMembers(timers, key, x);
          SparedMembers(Erase(timers, key), ops[1..], x);
        case AddAfter(_, _) =>
          SparedMembers(timers, ops[1..], x);
      }
    }
  }

  lemma {:induction false} SurvivorsDue(due: seq<Timer>, x: Timer)
    ensures x in Survivors(due) ==> x in due
    decreases |due|
  {
    if due != [] {
      SurvivorsDue(Spared(due[1..], due[0].cb.ops), x);
    }
  }

  lemma FirstBefore(due: seq<Timer>, x: Timer)
    requires Sorted(due) && due != [] && x in due[1..]
    ensures Before(due[0].key, x.key)
  {
  }

  /** Timers fire in order of deadline and then of creation. */
  lemma {:induction false} SurvivorsSorted(due: seq<Timer>)
    requires Sorted(due)
    ensures Sorted(Survivors(due))
    decreases |due|
  {
    if due != [] {
      var rest := Spared(due[1..], due[0].cb.ops);
      SparedMembers(due[1..], due[0].cb.ops, due[0]);
      SurvivorsSorted(rest);
      var fired := Survivors(rest);
      forall j | 0 <= j < |fired|
        ensures Before(due[0].key, fired[j].key)
      {
        SurvivorsDue(rest, fired[j]);
        FirstBefore(due, fired[j]);
      }
    }
  }

  /** A due timer fires unless, and only unless, one that fires before it cancels it. */
  lemma {:induction false} SurvivorsExactly(due: seq<Timer>, x: Timer)
    requires Sorted(due) && x in due
    ensures x in Survivors(due) <==> forall y <- Survivors(due) :: Before(y.key, x.key) ==> !Cancels(y, x.key)
    decreases |due|
  {
    var first, rest := due[0], Spared(due[1..], due[0].cb.ops);
    var fired := Survivors(rest);
    assert due == [first] + due[1..];
    assert Survivors(due) == [first] + fired;
    SparedMembers(due[1..], first.cb.ops, x);
    if x == first {
      forall y | y in fired
        ensures !Before(y.key, x.key)
      {
        SurvivorsDue(rest, y);
        FirstBefore(due, y);
      }
    } else {
      FirstBefore(due, x);
      SurvivorsDue(rest, x);
      if x in rest {
        SurvivorsExactly(rest, x);
      } else {
        assert Cancels(first, x.key);
      }
    }
  }

  // ----- Every timer is accounted for

  function KeyBag(timers: seq<Timer>): multiset<Key> {
    if timers == [] then multiset{} else multiset{timers[0].key} + KeyBag(timers[1..])
  }

  function KeysOf(timers: seq<Timer>): seq<Key> {
    if timers == [] then [] else [timers[0].key] + KeysOf(timers[1..])
  }

  lemma {:induction false} KeyBagHas(timers: seq<Timer>, key: Key)
    ensures key in KeyBag(timers) <==> Has(timers, key)
  {
    if timers != [] {
      KeyBagHas(timers[1..], key);
      if key in KeyBag(timers) && key != timers[0].key {
        var i :| 0 <= i < |timers[1..]| && timers[1..][i].key == key;
        assert timers[i + 1].key == key;
      }
      if Has(timers, key) && key != timers[0].key {
        var i :| 0 <= i < |timers| && timers[i].key == key;
        assert timers[1..][i - 1].key == key;
      }
    }
  }

  lemma KeyBagFirst(t: Timer, rest: seq<Timer>)
    ensures KeyBag([t] + rest) == multiset{t.key} + KeyBag(rest)
  {
    assert ([t] + rest)[1..] == rest;
  }

  lemma {:induction false} KeyBagInsert(timers: seq<Timer>, t: Timer)
    requires t.key !in KeyBag(timers)
    ensures KeyBag(Insert(timers, t)) == KeyBag(timers) + multiset{t.key}
  {
    hide KeyBag, Before;
    if timers == [] {
      KeyBagFirst(t, []);
      assert [t] + [] == [t];
    } else {
      var first, rest := timers[0], timers[1..];
      assert timers == [first] + rest;
      KeyBagFirst(first, rest);
      if Before(t.key, first.key) {
        KeyBagFirst(t, timers);
      } else {
        KeyBagInsert(rest, t);
        KeyBagFirst(first, Insert(rest, t));
      }
    }
    KeyBagNone();
  }

  lemma KeyBagNone()
    ensures KeyBag([]) == multiset{}
  {
  }

  lemma {:induction false} KeyBagErase(timers: seq<Timer>, key: Key)
    requires key in KeyBag(timers)
    ensures KeyBag(timers) == KeyBag(Erase(timers, key)) + multiset{key}
  {
    if timers[0].key != key {
      KeyBagErase(timers[1..], key);
      assert ([timers[0]] + Erase(timers[1..], key))[1..] == Erase(timers[1..], key);
    }
  }

  /** Keys are issued in order of their counter, so no two are equal. */
  ghost predicate InOrder(w: Wheel) {
    |w.issued| == w.counter && forall i :: 0 <= i < |w.issued| ==> w.issued[i].counter == i
  }

  /** Every timer ever added has fired, was cancelled or is still waiting, and only one of these. */
  ghost predicate Balanced(w: Wheel) {
    multiset(w.issued) == multiset(w.fired) + multiset(w.cancelled) + KeyBag(w.timers)
  }

  ghost predicate Inv(w: Wheel) {
    InOrder(w) && Balanced(w) && Sorted(w.timers)
  }

  lemma Fresh(w: Wheel, key: Key)
    requires InOrder(w) && Balanced(w) && key.counter >= w.counter
    ensures key !in KeyBag(w.timers)
  {
    hide KeyBag;
    assert forall k <- w.issued :: k.counter < w.counter;
    assert multiset(w.issued)[key] >= KeyBag(w.timers)[key];
  }

  lemma AddedKeeps(w: Wheel, ms: nat, cb: Callback)
    requires Inv(w)
    ensures Inv(Added(w, ms, cb))
  {
    hide KeyBag, Insert, Sorted;
    var key := Key(w.time + ms, w.counter);
    Fresh(w, key);
    KeyBagInsert(w.timers, Timer(key, cb));
    InsertSorted(w.timers, Timer(key, cb));
  }

  lemma CancelledKeeps(w: Wheel, key: Key)
    requires Inv(w)
    ensures Inv(Cancelled(w, key))
  {
    hide KeyBag, Erase, Sorted, Has;
    KeyBagHas(w.timers, key);
    EraseSorted(w.timers, key);
    if Has(w.timers, key) {
      KeyBagErase(w.timers, key);
    }
  }

  /** Every timer is later than `key`. */
  ghost predicate AllAfter(timers: seq<Timer>, key: Key) {
    forall t <- timers :: Before(key, t.key)
  }

  /** What a callback adds while the timer with `key` fires comes after that timer. */
  lemma {:induction false} AppliedAllKeeps(w: Wheel, ops: seq<Op>, key: Key)
    requires Inv(w) && AllAfter(w.timers, key) && key.deadline <= w.time && key.counter < w.counter
    ensures var next := AppliedAll(w, ops);
      Inv(next) && next.fired == w.fired && next.time == w.time && AllAfter(next.timers, key)
    decreases |ops|
  {
    if ops != [] {
      hide Inv, Insert, Erase, Has;
      match ops[0] {
        case AddAfter(ms, cb) =>
          AddedKeeps(w, ms, cb);
          var t := Timer(Key(w.time + ms, w.counter), cb);
          forall x | x in Insert(w.timers, t)
            ensures Before(key, x.key)
          {
            InsertMembers(w.timers, t, x);
          }
        case CancelTimer(k) => CancelledKeeps(w, k);
      }
      AppliedAllKeeps(Applied(w, ops[0]), ops[1..], key);
    }
  }

  lemma PoppedKeeps(w: Wheel)
    requires Inv(w) && w.timers != []
    ensures Inv(w.(timers := w.timers[1..], fired := w.fired + [w.timers[0].key]))
    ensures AllAfter(w.timers[1..], w.timers[0].key) && w.timers[0].key.counter < w.counter
  {
    assert forall x <- w.timers[1..] :: x in w.timers;
    assert w.timers[0].key in KeyBag(w.timers);
    assert w.timers[0].key in multiset(w.issued);
  }

  lemma FireKeeps(w: Wheel)
    requires Inv(w) && FirstDue(w)
    ensures var first, next := w.timers[0].key, Fire(w, w.timers[0]);
      Inv(next) && next.fired == w.fired + [first] && next.time == w.time && AllAfter(next.timers, first)
  {
    hide Inv, AppliedAll, Fire, AllAfter;
    PoppedKeeps(w);
    FireDefined(w);
    var first := w.timers[0];
    AppliedAllKeeps(w.(timers := w.timers[1..], fired := w.fired + [first.key]), first.cb.ops, first.key);
  }

  // ----- A tick, whatever the callbacks do

  ghost predicate KeysSorted(keys: seq<Key>) {
    forall i, j :: 0 <= i < j < |keys| ==> Before(keys[i], keys[j])
  }

  /** What settling has done: `keys` fired, in order, and nothing is due any more. */
  ghost predicate Fires(w: Wheel, next: Wheel, keys: seq<Key>) {
    && next.time == w.time && next.fired == w.fired + keys
    && KeysSorted(keys) && (forall k <- keys :: k.deadline <= w.time)
    && !FirstDue(next)
  }

  lemma BeforeTransitive(a: Key, b: Key, c: Key)
    requires Before(a, b) && Before(b, c)
    ensures Before(a, c)
  {
  }

  /** A tick comes to an end with nothing due, having fired in order of deadline and then of creation, even timers
      that its own callbacks added. */
  lemma {:induction false} SettledFires(w: Wheel) returns (keys: seq<Key>)
    requires Inv(w)
    ensures Inv(Settled(w)) && Fires(w, Settled(w), keys)
    ensures forall last :: AllAfter(w.timers, last) ==> forall k <- keys :: Before(last, k)
    decreases DueWeight(w.timers, w.time)
  {
    SettledStep(w);
    hide Settled, Inv, Fire, DueWeight;
    if !FirstDue(w) {
      keys := [];
      assert w.fired + [] == w.fired;
    } else {
      var first, next := w.timers[0].key, Fire(w, w.timers[0]);
      FireLess(w);
      FireKeeps(w);
      var rest := SettledFires(next);
      keys := [first] + rest;
      assert (w.fired + [first]) + rest == w.fired + keys;
      assert forall k <- rest :: Before(first, k);
      forall last | AllAfter(w.timers, last)
        ensures forall k <- keys :: Before(last, k)
      {
        assert Before(last, first) by { assert w.timers[0] in w.timers; }
        forall k | k in rest
          ensures Before(last, k)
        {
          BeforeTransitive(last, first, k);
        }
      }
    }
  }

  // ----- A tick when nothing is added without delay

  /** The timers once everything due has been run. */
  function Survived(w: Wheel): Wheel {
    FireAll(w, Survivors(Due(w.timers, w.time)))
  }

  function Firing(w: Wheel): seq<Key> {
    KeysOf(Survivors(Due(w.timers, w.time)))
  }

  lemma SettledNow(w: Wheel)
    requires Sorted(w.timers) && !FirstDue(w)
    ensures Survived(w) == w && Firing(w) == [] && Due(w.timers, w.time) == []
  {
    NothingDueYet(w.timers, w.time);
  }

  lemma SurvivedFirst(w: Wheel)
    requires FirstDue(w) && AllPositive(w.timers)
    ensures var next := Fire(w, w.timers[0]);
      && AllPositive(next.timers) && Survived(next) == Survived(w) && next.time == w.time
      && |Due(next.timers, w.time)| < |Due(w.timers, w.time)|
  {
    hide Due, Survivors, FireAll, Fire, AllPositive;
    FireFirst(w);
  }

  /** If nothing is added without delay, a tick fires exactly the survivors among the due timers. */
  lemma {:induction false} TickFires(w: Wheel)
    requires Inv(w) && AllPositive(w.timers)
    ensures Settled(w) == Survived(w) && AllPositive(Settled(w).timers)
    ensures Settled(w).fired == w.fired + Firing(w)
    decreases DueWeight(w.timers, w.time)
  {
    SettledStep(w);
    hide Due, Settled, Survived, Firing, Fire, AllPositive, DueWeight, Balanced, InOrder;
    if !FirstDue(w) {
      SettledNow(w);
    } else {
      FireLess(w);
      FireKeeps(w);
      SurvivedFirst(w);
      FiringFirst(w);
      TickFires(Fire(w, w.timers[0]));
    }
  }

  lemma FiringFirst(w: Wheel)
    requires FirstDue(w) && AllPositive(w.timers)
    ensures var first, next := w.timers[0], Fire(w, w.timers[0]);
      next.time == w.time && Firing(w) == [first.key] + Firing(next)
  {
    var first, rest := w.timers[0], w.timers[1..];
    PositiveAt(first.cb);
    assert Positive(first.cb) by { assert first in w.timers; }
    FireDefined(w);
    AppliedAllDue(w.(timers := rest, fired := w.fired + [first.key]), first.cb.ops);
    hide AppliedAll, Fire, Positive;
    var due := Due(rest, w.time);
    assert ([first] + due)[1..] == due;
    var left := Survivors(Spared(due, first.cb.ops));
    assert ([first] + left)[1..] == left;
  }

  // ----- A tick in rounds: first what is due already, then what that has added without delay

  /** Every timer is due, and was issued before now. */
  ghost predicate DueBefore(timers: seq<Timer>, w: Wheel) {
    forall t <- timers :: t.key.deadline <= w.time && t.key.counter < w.counter
  }

  lemma {:induction false} InsertBehind(d: seq<Timer>, e: seq<Timer>, t: Timer)
    requires forall x <- d :: Before(x.key, t.key)
    ensures Insert(d + e, t) == d + Insert(e, t)
    decreases |d|
  {
    if d == [] {
      assert d + e == e && d + Insert(e, t) == Insert(e, t);
    } else {
      assert d[0] in d && (d + e)[1..] == d[1..] + e;
      InsertBehind(d[1..], e, t);
      assert [d[0]] + (d[1..] + Insert(e, t)) == d + Insert(e, t);
    }
  }

  lemma {:induction false} EraseInTwo(d: seq<Timer>, e: seq<Timer>, key: Key) returns (e': seq<Timer>)
    ensures Erase(d + e, key) == Erase(d, key) + e'
    decreases |d|
  {
    if d == [] {
      assert d + e == e;
      e' := Erase(e, key);
      assert [] + e' == e';
    } else {
      assert (d + e)[1..] == d[1..] + e;
      if d[0].key == key {
        e' := e;
      } else {
        e' := EraseInTwo(d[1..], e, key);
        assert [d[0]] + (Erase(d[1..], key) + e') == ([d[0]] + Erase(d[1..], key)) + e';
      }
    }
  }

  lemma EraseKeepsDue(timers: seq<Timer>, w: Wheel, key: Key)
    requires DueBefore(timers, w)
    ensures DueBefore(Erase(timers, key), w)
  {
  }

  /** A callback takes from the timers due before it only what it cancels; what it adds comes after them. */
  lemma {:induction false} AppliedInTwo(w: Wheel, d: seq<Timer>, e: seq<Timer>, ops: seq<Op>) returns (e': seq<Timer>)
    requires w.timers == d + e && DueBefore(d, w)
    ensures var next := AppliedAll(w, ops);
      next.timers == Spared(d, ops) + e' && next.time == w.time && DueBefore(Spared(d, ops), next)
    decreases |ops|
  {
    if ops == [] {
      e' := e;
    } else {
      hide Insert, Erase, Has;
      match ops[0] {
        case AddAfter(ms, cb) =>
          var t := Timer(Key(w.time + ms, w.counter), cb);
          InsertBehind(d, e, t);
          e' := AppliedInTwo(Added(w, ms, cb), d, Insert(e, t), ops[1..]);
        case CancelTimer(key) =>
          if !Has(w.timers, key) {
            EraseAbsent(w.timers, key);
          }
          EraseKeepsDue(d, w, key);
          var rest := EraseInTwo(d, e, key);
          e' := AppliedInTwo(Cancelled(w, key), Erase(d, key), rest, ops[1..]);
      }
    }
  }

  /** Settling fires the survivors among timers that are due, and goes on from there. */
  lemma {:induction false} SettledInTwo(w: Wheel, d: seq<Timer>, e: seq<Timer>)
    requires Inv(w) && w.timers == d + e && DueBefore(d, w)
    ensures var next := FireAll(w, Survivors(d));
      && Settled(w) == Settled(next) && Inv(next) && next.time == w.time
      && next.fired == w.fired + KeysOf(Survivors(d))
    decreases |d|
  {
    hide Settled, Inv, Fire, AppliedAll, Spared;
    if d == [] {
      assert w.fired + [] == w.fired;
    } else {
      var first, rest := d[0], d[1..];
      assert first in d && w.timers[0] == first && w.timers[1..] == rest + e;
      var popped := w.(timers := rest + e, fired := w.fired + [first.key]);
      FireDefined(w);
      FireKeeps(w);
      SettledStep(w);
      assert DueBefore(rest, popped);
      var e' := AppliedInTwo(popped, rest, e, first.cb.ops);
      var left := Spared(rest, first.cb.ops);
      SettledInTwo(Fire(w, first), left, e');
      FiredFirst(w, d);
    }
  }

  lemma FiredFirst(w: Wheel, d: seq<Timer>)
    requires d != []
    ensures var left := Spared(d[1..], d[0].cb.ops);
      && FireAll(w, Survivors(d)) == FireAll(Fire(w, d[0]), Survivors(left))
      && w.fired + KeysOf(Survivors(d)) == (w.fired + [d[0].key]) + KeysOf(Survivors(left))
  {
    var rest := Survivors(Spared(d[1..], d[0].cb.ops));
    assert Survivors(d) == [d[0]] + rest;
    hide Fire, Spared, Survivors, FireAll, KeysOf;
    FireOneMore(w, d[0], rest);
    KeysOneMore(d[0], rest);
    Regrouped(w.fired, d[0].key, KeysOf(rest));
  }

  lemma FireOneMore(w: Wheel, t: Timer, rest: seq<Timer>)
    ensures FireAll(w, [t] + rest) == FireAll(Fire(w, t), rest)
  {
    hide Fire;
    assert ([t] + rest)[1..] == rest;
  }

  lemma KeysOneMore(t: Timer, rest: seq<Timer>)
    ensures KeysOf([t] + rest) == [t.key] + KeysOf(rest)
  {
    assert ([t] + rest)[1..] == rest;
  }

  lemma Regrouped(a: seq<Key>, k: Key, b: seq<Key>)
    ensures a + ([k] + b) == (a + [k]) + b
  {
  }

  /** The timers due are the first ones. */
  lemma {:induction false} DueFirst(timers: seq<Timer>, time: int) returns (rest: seq<Timer>)
    requires Sorted(timers)
    ensures timers == Due(timers, time) + rest
  {
    if timers == [] {
      rest := [];
    } else if timers[0].key.deadline <= time {
      rest := DueFirst(timers[1..], time);
      assert timers == [timers[0]] + (Due(timers[1..], time) + rest);
    } else {
      NothingDueYet(timers, time);
      rest := timers;
    }
  }

  lemma IssuedBefore(w: Wheel)
    requires Inv(w)
    ensures DueBefore(Due(w.timers, w.time), w)
  {
    forall t | t in Due(w.timers, w.time)
      ensures t.key.deadline <= w.time && t.key.counter < w.counter
    {
      DueMembers(w.timers, w.time, t);
      KeyBagOf(w.timers, t);
      assert t.key in multiset(w.issued);
    }
  }

  lemma KeyBagOf(timers: seq<Timer>, t: Timer)
    requires t in timers
    ensures t.key in KeyBag(timers)
  {
    var i :| 0 <= i < |timers| && timers[i] == t;
    assert timers[i].key == t.key;
    KeyBagHas(timers, t.key);
  }

  /** A tick fires the survivors among the due timers in order, and then whatever is due once they have fired. */
  lemma TickInRounds(w: Wheel)
    requires Inv(w)
    ensures Settled(w) == Settled(Survived(w)) && Inv(Survived(w)) && Survived(w).time == w.time
    ensures Survived(w).fired == w.fired + Firing(w)
  {
    var rest := DueFirst(w.timers, w.time);
    IssuedBefore(w);
    hide Settled, Due, Survivors, FireAll, Inv;
    SettledInTwo(w, Due(w.timers, w.time), rest);
  }

  /**
  A tick fires no more than the survivors among the timers due when it begins if and only if, once these have fired,
  they have left nothing due: every timer that they add without delay is cancelled again by one of them.
  */
  lemma TickFiresOnlyDueIff(w: Wheel)
    requires Inv(w)
    ensures Settled(w).fired == w.fired + Firing(w) <==> Due(Survived(w).timers, w.time) == []
  {
    hide Settled, Due, Survived, Firing;
    TickInRounds(w);
    var mid := Survived(w);
    SettledStep(mid);
    if FirstDue(mid) {
      FirstIsDue(mid);
      FireLess(mid);
      FireKeeps(mid);
      var keys := SettledFires(Fire(mid, mid.timers[0]));
    } else {
      NothingDueYet(mid.timers, mid.time);
    }
  }

  lemma FirstIsDue(w: Wheel)
    requires FirstDue(w)
    ensures Due(w.timers, w.time) != []
  {
  }

  // ----- Runs

  datatype Event = AddTimer(ms: nat, cb: Callback) | Cancel(key: Key) | Tick(elapsed: nat)

  function Handled(w: Wheel, e: Event): Wheel {
    match e
    case AddTimer(ms, cb) => Added(w, ms, cb)
    case Cancel(key) => Cancelled(w, key)
    case Tick(elapsed) => Ticked(w, elapsed)
  }

  function Run(w: Wheel, events: seq<Event>): Wheel
    decreases |events|
  {
    if events == [] then w else Run(Handled(w, events[0]), events[1..])
  }

  lemma HandledKeeps(w: Wheel, e: Event)
    requires Inv(w)
    ensures Inv(Handled(w, e))
  {
    hide Settled;
    match e {
      case AddTimer(ms, cb) => AddedKeeps(w, ms, cb);
      case Cancel(key) => CancelledKeeps(w, key);
      case Tick(elapsed) => var _ := SettledFires(w.(time := w.time + elapsed));
    }
  }

  lemma {:induction false} RunKeeps(w: Wheel, events: seq<Event>)
    requires Inv(w)
    ensures Inv(Run(w, events))
    decreases |events|
  {
    if events != [] {
      hide Handled, Inv;
      HandledKeeps(w, events[0]);
      RunKeeps(Handled(w, events[0]), events[1..]);
    }
  }

  lemma Reached(events: seq<Event>)
    ensures Inv(Run(Start(), events))
  {
    hide Run;
    RunKeeps(Start(), events);
  }

  /**
  Over any run, the timers ever added are, each counted once, those that fired, those that were cancelled
  and those still waiting; and their keys are all different.  So none is lost, fires twice, or fires after
  having been cancelled.
  */
  lemma TimersAccounted(events: seq<Event>)
    ensures var w := Run(Start(), events);
      && multiset(w.issued) == multiset(w.fired) + multiset(w.cancelled) + KeyBag(w.timers)
      && forall i, j :: 0 <= i < j < |w.issued| ==> w.issued[i] != w.issued[j]
  {
    hide Run, KeyBag, Sorted;
    Reached(events);
  }

  /** The tick that ends any run comes to an end, fires in order of deadline and then of creation what is due by the
      new time, and leaves nothing due waiting. */
  lemma TickEnds(events: seq<Event>, elapsed: nat) returns (keys: seq<Key>)
    ensures var w, time := Run(Start(), events), Run(Start(), events).time + elapsed;
      var next := Ticked(w, elapsed);
      && next.fired == w.fired + keys && KeysSorted(keys) && (forall k <- keys :: k.deadline <= time)
      && forall y <- next.timers :: y.key.deadline > time
  {
    hide Run, KeyBag, Settled;
    Reached(events);
    var w := Run(Start(), events);
    keys := SettledFires(w.(time := w.time + elapsed));
    LaterNotDue(Ticked(w, elapsed));
  }

  lemma LaterNotDue(w: Wheel)
    requires Sorted(w.timers) && !FirstDue(w)
    ensures forall y <- w.timers :: y.key.deadline > w.time
  {
  }

  /**
  Of the timers due by the new time the tick first fires those not cancelled by one firing before them.  It fires
  nothing else if and only if once they have fired nothing is due: whatever they add without delay they cancel again.
  */
  lemma TickFiresMoreIff(events: seq<Event>, elapsed: nat)
    ensures var w := Run(Start(), events);
      var due := w.(time := w.time + elapsed);
      && (Ticked(w, elapsed).fired == w.fired + Firing(due) <==> Due(Survived(due).timers, due.time) == [])
      && w.fired + Firing(due) <= Ticked(w, elapsed).fired
  {
    hide Run, Settled, Due, Survived, Firing, KeyBag;
    Reached(events);
    var w := Run(Start(), events);
    var due := w.(time := w.time + elapsed);
    TickFiresOnlyDueIff(due);
    TickInRounds(due);
    var keys := SettledFires(Survived(due));
  }

  ghost predicate PositiveRun(events: seq<Event>) {
    forall e <- events :: e.AddTimer? ==> Positive(e.cb)
  }

  lemma HandledPositive(w: Wheel, e: Event)
    requires Inv(w) && AllPositive(w.timers) && (e.AddTimer? ==> Positive(e.cb))
    ensures AllPositive(Handled(w, e).timers)
  {
    hide Positive, Survivors, FireAll, Due, Settled, Insert, Erase, Has;
    match e {
      case AddTimer(ms, cb) =>
        forall x | x in Added(w, ms, cb).timers
          ensures Positive(x.cb)
        {
          InsertMembers(w.timers, Timer(Key(w.time + ms, w.counter), cb), x);
        }
      case Cancel(key) =>
      case Tick(elapsed) => TickFires(w.(time := w.time + elapsed));
    }
  }

  lemma {:induction false} RunPositive(w: Wheel, events: seq<Event>)
    requires Inv(w) && AllPositive(w.timers) && PositiveRun(events)
    ensures AllPositive(Run(w, events).timers)
    decreases |events|
  {
    if events != [] {
      hide Positive, Handled, Inv, AllPositive;
      HandledKeeps(w, events[0]);
      HandledPositive(w, events[0]);
      assert forall e <- events[1..] :: e in events;
      RunPositive(Handled(w, events[0]), events[1..]);
    }
  }

  lemma PositiveReached(events: seq<Event>)
    requires PositiveRun(events)
    ensures AllPositive(Run(Start(), events).timers)
  {
    hide Run, Positive;
    RunPositive(Start(), events);
  }

  /**
  If no callback adds a timer without delay, the tick that ends a run fires exactly the timers due by the new
  time that are not cancelled by one firing before them.
  */
  lemma TickFiresDue(events: seq<Event>, elapsed: nat, x: Timer)
    requires PositiveRun(events)
    ensures var w, time := Run(Start(), events), Run(Start(), events).time + elapsed;
      var next, fired := Ticked(w, elapsed), Survivors(Due(w.timers, time));
      && next.fired == w.fired + KeysOf(fired)
      && Sorted(fired)
      && (x in fired <==>
          && x in w.timers
          && x.key.deadline <= time
          && forall y <- fired :: Before(y.key, x.key) ==> !Cancels(y, x.key))
  {
    hide Run, Positive, KeyBag, KeysOf, Due, Survivors, Sorted, FireAll, Settled;
    Reached(events);
    PositiveReached(events);
    var w := Run(Start(), events);
    var time := w.time + elapsed;
    var due := Due(w.timers, time);
    TickFires(w.(time := time));
    DueSorted(w.timers, time);
    SurvivorsSorted(due);
    DueMembers(w.timers, time, x);
    SurvivorsDue(due, x);
    if x in due {
      SurvivorsExactly(due, x);
    }
  }

  lemma {:induction false} DueSorted(timers: seq<Timer>, time: int)
    requires Sorted(timers)
    ensures Sorted(Due(timers, time))
  {
    if timers != [] {
      var due := Due(timers[1..], time);
      DueSorted(timers[1..], time);
      forall j | 0 <= j < |due|
        ensures Before(timers[0].key, due[j].key)
      {
        DueMembers(timers[1..], time, due[j]);
        FirstBefore(timers, due[j]);
      }
      assert [] + due == due;
    }
  }

  // ----- Timers added without delay

  /** A callback that adds another without delay, and that one another, `n` deep. */
  function Chain(n: nat): Callback {
    if n == 0 then Callback([]) else Callback([AddAfter(0, Chain(n - 1))])
  }

  lemma ChainFires(w: Wheel, n: nat)
    requires FirstDue(w) && |w.timers| == 1 && w.timers[0].cb == Chain(n)
    ensures var next := Fire(w, w.timers[0]);
      && next.time == w.time && |next.fired| == |w.fired| + 1
      && (n == 0 ==> next.timers == [])
      && (n > 0 ==> FirstDue(next) && |next.timers| == 1 && next.timers[0].cb == Chain(n - 1))
  {
    FireDefined(w);
    var popped := w.(timers := [], fired := w.fired + [w.timers[0].key]);
    assert w.timers[1..] == [];
    if n > 0 {
      var op := AddAfter(0, Chain(n - 1));
      assert [op][1..] == [];
      assert AppliedAll(popped, [op]) == Applied(popped, op);
    }
  }

  /** One tick fires a whole chain, however long: a callback that always adds itself again would keep it for
      ever. */
  lemma {:induction false} ChainFiresInOneTick(w: Wheel, n: nat)
    requires FirstDue(w) && |w.timers| == 1 && w.timers[0].cb == Chain(n)
    ensures Settled(w).timers == [] && |Settled(w).fired| == |w.fired| + n + 1
    decreases n
  {
    SettledStep(w);
    ChainFires(w, n);
    hide Settled, Fire, Chain;
    var next := Fire(w, w.timers[0]);
    if n == 0 {
      SettledStep(next);
    } else {
      ChainFiresInOneTick(next, n - 1);
    }
  }
}
