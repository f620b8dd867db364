/**
The timers of a worker thread: callbacks kept in order of deadline and then of creation, run when a tick
moves the clock past their deadline.  A callback may itself add and cancel timers.
*/
module Timers {

  datatype Key = Key(deadline: int, counter: nat)

  predicate Before(a: Key, b: Key) {
    if a.deadline != b.deadline then a.deadline < b.deadline else a.counter < b.counter
  }

  /** What a callback does to the timers when it runs. */
  datatype Callback = Callback(ops: seq<Op>)
  datatype Op = AddAfter(ms: nat, cb: Callback) | CancelTimer(key: Key)

  datatype Timer = Timer(key: Key, cb: Callback)

  /** How many callbacks there are in it, itself and those it adds and those they add. */
  function Weight(cb: Callback): nat {
    1 + OpsWeight(cb.ops)
  }

  function OpsWeight(ops: seq<Op>): nat {
    if ops == [] then 0 else OpWeight(ops[0]) + OpsWeight(ops[1..])
  }

  function OpWeight(op: Op): nat {
    match op
    case AddAfter(_, cb) => Weight(cb)
    case CancelTimer(_) => 0
  }

  /** Everything the callback adds, now or through the callbacks it adds, is added with a positive delay. */
  predicate Positive(cb: Callback) {
    forall i :: 0 <= i < |cb.ops| ==>
      match cb.ops[i]
      case AddAfter(ms, next) => ms > 0 && Positive(next)
      case CancelTimer(_) => true
  }

  ghost predicate AllPositive(timers: seq<Timer>) {
    forall t <- timers :: Positive(t.cb)
  }

  ghost predicate Sorted(timers: seq<Timer>) {
    forall i, j :: 0 <= i < j < |timers| ==> Before(timers[i].key, timers[j].key)
  }

  // ----- The ordered map

  function Insert(timers: seq<Timer>, t: Timer): seq<Timer> {
    if timers == [] then [t]
    else if Before(t.key, timers[0].key) then [t] + timers
    else if t.key == timers[0].key then timers
    else [timers[0]] + Insert(timers[1..], t)
  }

  predicate Has(timers: seq<Timer>, key: Key) {
    exists i :: 0 <= i < |timers| && timers[i].key == key
  }

  function Erase(timers: seq<Timer>, key: Key): (r: seq<Timer>)
    ensures |r| <= |timers|
    ensures forall t <- r :: t in timers
  {
    if timers == [] then []
    else if timers[0].key == key then timers[1..]
    else [timers[0]] + Erase(timers[1..], key)
  }

  // ----- Operations on the timers, with the history of what was issued, what fired and what was cancelled

  datatype Wheel = Wheel(
    time: int, counter: nat, timers: seq<Timer>, issued: seq<Key>, fired: seq<Key>, cancelled: seq<Key>)

  function Start(): Wheel {
    Wheel(0, 0, [], [], [], [])
  }

  function Added(w: Wheel, ms: nat, cb: Callback): Wheel {
    var key := Key(w.time + ms, w.counter);
    w.(counter := w.counter + 1, timers := Insert(w.timers, Timer(key, cb)), issued := w.issued + [key])
  }

  function Cancelled(w: Wheel, key: Key): Wheel {
    if Has(w.timers, key)
    then w.(timers := Erase(w.timers, key), cancelled := w.cancelled + [key])
    else w
  }

  function Applied(w: Wheel, op: Op): Wheel {
    match op
    case AddAfter(ms, cb) => Added(w, ms, cb)
    case CancelTimer(key) => Cancelled(w, key)
  }

  function AppliedAll(w: Wheel, ops: seq<Op>): Wheel
    decreases |ops|
  {
    if ops == [] then w else AppliedAll(Applied(w, ops[0]), ops[1..])
  }

  function Fire(w: Wheel, t: Timer): Wheel {
    AppliedAll(w.(timers := Erase(w.timers, t.key), fired := w.fired + [t.key]), t.cb.ops)
  }

  function FireAll(w: Wheel, timers: seq<Timer>): Wheel
    decreases |timers|
  {
    if timers == [] then w else FireAll(Fire(w, timers[0]), timers[1..])
  }

  // ----- Which timers a tick fires

  /** The timers due at `time`, in order. */
  function Due(timers: seq<Timer>, time: int): seq<Timer> {
    if timers == [] then []
    else (if timers[0].key.deadline <= time then [timers[0]] else []) + Due(timers[1..], time)
  }

  /** What remains of `timers` when the cancellations among `ops` are done. */
  function Spared(timers: seq<Timer>, ops: seq<Op>): (r: seq<Timer>)
    ensures |r| <= |timers|
    ensures forall t <- r :: t in timers
    decreases |ops|
  {
    if ops == [] then timers
    else Spared(match ops[0] case CancelTimer(key) => Erase(timers, key) case AddAfter(_, _) => timers, ops[1..])
  }

  /** Of timers due together, those not cancelled by one that fires before them. */
  function Survivors(due: seq<Timer>): seq<Timer>
    decreases |due|
  {
    if due == [] then [] else [due[0]] + Survivors(Spared(due[1..], due[0].cb.ops))
  }

  /** The callbacks that are due, with all they may add. */
  function DueWeight(timers: seq<Timer>, time: int): nat {
    if timers == [] then 0
    else (if timers[0].key.deadline <= time then Weight(timers[0].cb) else 0) + DueWeight(timers[1..], time)
  }

  predicate FirstDue(w: Wheel) {
    w.timers != [] && w.timers[0].key.deadline <= w.time
  }

  /** Fires the first timer for as long as it is due, be it one that was added in the meantime. */
  function Settled(w: Wheel): Wheel
    decreases DueWeight(w.timers, w.time)
  {
    if !FirstDue(w) then w
    else
      FireLess(w);
      Settled(Fire(w, w.timers[0]))
  }

  function Ticked(w: Wheel, elapsed: nat): Wheel {
    Settled(w.(time := w.time + elapsed))
  }

  // ----- The class

  class TimerQueue {
    var timeOffset: int
    var timeEntryCounter: nat
    var timerMap: seq<Timer>
    var nextTimeOffset: int
    ghost var issued: seq<Key>
    ghost var fired: seq<Key>
    ghost var cancelled: seq<Key>

    /** The next time offset is no later than the earliest deadline, while there is one. */
    ghost predicate Valid()
      reads this
    {
      Sorted(timerMap) && (timerMap != [] ==> nextTimeOffset <= timerMap[0].key.deadline)
    }

    ghost function State(): Wheel
      reads this
    {
      Wheel(timeOffset, timeEntryCounter, timerMap, issued, fired, cancelled)
    }

    constructor ()
      ensures Valid() && State() == Start()
    {
      timeOffset, timeEntryCounter, timerMap := 0, 0, [];
      issued, fired, cancelled := [], [], [];
      nextTimeOffset := *;
    }

    method AddTaskAfter(cb: Callback, ms: nat) returns (entry: Key)
      requires Valid()
      modifies this
      ensures Valid() && State() == Added(old(State()), ms, cb)
      ensures entry == Key(old(timeOffset) + ms, old(timeEntryCounter))
    {
      entry := Key(timeOffset + ms, timeEntryCounter);
      timeEntryCounter := timeEntryCounter + 1;
      issued := issued + [entry];
      InsertSorted(timerMap, Timer(entry, cb));
      if |timerMap| == 0 || entry.deadline <= nextTimeOffset {
        nextTimeOffset := entry.deadline;
      }
      timerMap := Insert(timerMap, Timer(entry, cb));
    }

    method CancelTimerTask(key: Key) returns (found: bool)
      requires Valid()
      modifies this
      ensures Valid() && State() == Cancelled(old(State()), key)
      ensures found == Has(old(timerMap), key)
    {
      EraseSorted(timerMap, key);
      found := Has(timerMap, key);
      timerMap := Erase(timerMap, key);
      if found {
        cancelled := cancelled + [key];
      }
      if |timerMap| != 0 && key.deadline <= nextTimeOffset {
        nextTimeOffset := timerMap[0].key.deadline;
      }
    }

    method RunCallback(cb: Callback)
      requires Valid()
      modifies this
      ensures Valid() && State() == AppliedAll(old(State()), cb.ops)
    {
      hide Added, Cancelled, Sorted;
      var i := 0;
      while i < |cb.ops|
        invariant 0 <= i <= |cb.ops|
        invariant Valid() && AppliedAll(State(), cb.ops[i..]) == AppliedAll(old(State()), cb.ops)
      {
        match cb.ops[i] {
          case AddAfter(ms, next) => var _ := AddTaskAfter(next, ms);
          case CancelTimer(key) => var _ := CancelTimerTask(key);
        }
        i := i + 1;
      }
    }

    /** Fires the due timers in order; the next time offset is arbitrary if none is left. */
    method Tick(elapsed: nat)
      requires Valid()
      modifies this
      ensures Valid() && State() == Ticked(old(State()), elapsed)
    {
      hide Settled, Fire, Sorted, AppliedAll, DueWeight;
      timeOffset := timeOffset + elapsed;
      ghost var start := State();
      var updated := false;
      while |timerMap| != 0 && nextTimeOffset <= timeOffset && timerMap[0].key.deadline <= timeOffset
        invariant Valid() && timeOffset == old(timeOffset) + elapsed
        invariant Settled(State()) == Settled(start)
        decreases DueWeight(timerMap, timeOffset)
      {
        updated := true;
        ghost var before := State();
        var first := timerMap[0];
        FireLess(before);
        SettledStep(before);
        RestSorted(timerMap);
        timerMap := timerMap[1..];
        fired := fired + [first.key];
        RunCallback(first.cb);
        assert State() == Fire(before, first) by { FireDefined(before); }
      }
      SettledStep(State());
      if updated {
        if |timerMap| != 0 {
          nextTimeOffset := timerMap[0].key.deadline;
        } else {
          nextTimeOffset := *;
        }
      }
    }
  }

  // ----- A tick comes to an end

  lemma SettledStep(w: Wheel)
    ensures Settled(w) == if FirstDue(w) then Settled(Fire(w, w.timers[0])) else w
  {
    hide Fire;
  }

  lemma {:induction false} InsertWeight(timers: seq<Timer>, time: int, t: Timer)
    ensures DueWeight(Insert(timers, t), time) <= DueWeight(timers, time) + Weight(t.cb)
  {
    if timers != [] {
      InsertWeight(timers[1..], time, t);
      assert ([t] + timers)[1..] == timers;
      assert ([timers[0]] + Insert(timers[1..], t))[1..] == Insert(timers[1..], t);
    }
  }

  lemma {:induction false} EraseWeight(timers: seq<Timer>, time: int, key: Key)
    ensures DueWeight(Erase(timers, key), time) <= DueWeight(timers, time)
  {
    if timers != [] {
      EraseWeight(timers[1..], time, key);
      assert ([timers[0]] + Erase(timers[1..], key))[1..] == Erase(timers[1..], key);
    }
  }

  lemma {:induction false} AppliedWeight(w: Wheel, ops: seq<Op>)
    ensures AppliedAll(w, ops).time == w.time
    ensures DueWeight(AppliedAll(w, ops).timers, w.time) <= DueWeight(w.timers, w.time) + OpsWeight(ops)
    decreases |ops|
  {
    hide DueWeight, Insert, Erase, Has;
    if ops != [] {
      match ops[0] {
        case AddAfter(ms, cb) => InsertWeight(w.timers, w.time, Timer(Key(w.time + ms, w.counter), cb));
        case CancelTimer(key) => EraseWeight(w.timers, w.time, key);
      }
      AppliedWeight(Applied(w, ops[0]), ops[1..]);
    }
  }

  /** Firing a timer leaves less to fire, whatever its callback adds. */
  lemma FireLess(w: Wheel)
    requires FirstDue(w)
    ensures var next := Fire(w, w.timers[0]);
      next.time == w.time && DueWeight(next.timers, w.time) < DueWeight(w.timers, w.time)
  {
    var first := w.timers[0];
    hide AppliedAll, OpsWeight;
    FireDefined(w);
    AppliedWeight(w.(timers := w.timers[1..], fired := w.fired + [first.key]), first.cb.ops);
  }

  // ----- Lemmas about the ordered map

  lemma {:induction false} InsertMembers(timers: seq<Timer>, t: Timer, x: Timer)
    ensures x in Insert(timers, t) ==> x in timers || x == t
    ensures x in timers ==> x in Insert(timers, t)
  {
    if timers != [] {
      InsertMembers(timers[1..], t, x);
      assert timers == [timers[0]] + timers[1..];
    }
  }

  lemma {:induction false} InsertSorted(timers: seq<Timer>, t: Timer)
    requires Sorted(timers)
    ensures Sorted(Insert(timers, t)) && Insert(timers, t) != []
    ensures Insert(timers, t)[0] == t || (timers != [] && Insert(timers, t)[0] == timers[0])
  {
    if timers != [] && !Before(t.key, timers[0].key) && t.key != timers[0].key {
      var rest := Insert(timers[1..], t);
      InsertSorted(timers[1..], t);
      forall j | 0 <= j < |rest|
        ensures Before(timers[0].key, rest[j].key)
      {
        InsertMembers(timers[1..], t, rest[j]);
      }
    }
  }

  lemma {:induction false} EraseSorted(timers: seq<Timer>, key: Key)
    requires Sorted(timers)
    ensures Sorted(Erase(timers, key))
    ensures Erase(timers, key) != [] ==>
      timers != [] && timers[0].key.deadline <= Erase(timers, key)[0].key.deadline
    ensures !Has(timers, key) ==> Erase(timers, key) == timers
  {
    if timers != [] && timers[0].key != key {
      EraseSorted(timers[1..], key);
      assert !Has(timers, key) ==> !Has(timers[1..], key);
    }
  }

  lemma RestSorted(timers: seq<Timer>)
    requires timers != [] && Sorted(timers)
    ensures Sorted(timers[1..])
    ensures |timers| > 1 ==> timers[0].key.deadline <= timers[1..][0].key.deadline
  {
  }

  // ----- Lemmas about what is due

  lemma {:induction false} DueMembers(timers: seq<Timer>, time: int, x: Timer)
    ensures x in Due(timers, time) <==> x in timers && x.key.deadline <= time
  {
    if timers != [] {
      DueMembers(timers[1..], time, x);
      assert timers == [timers[0]] + timers[1..];
    }
  }

  lemma {:induction false} DueInsert(timers: seq<Timer>, time: int, t: Timer)
    requires t.key.deadline > time
    ensures Due(Insert(timers, t), time) == Due(timers, time)
  {
    if timers != [] {
      DueInsert(timers[1..], time, t);
      assert ([t] + timers)[1..] == timers;
      assert ([timers[0]] + Insert(timers[1..], t))[1..] == Insert(timers[1..], t);
    }
  }

  lemma {:induction false} EraseAbsent(timers: seq<Timer>, key: Key)
    requires !Has(timers, key)
    ensures Erase(timers, key) == timers
  {
    if timers != [] {
      assert timers[0].key != key;
      assert forall i :: 0 <= i < |timers| - 1 ==> timers[1..][i] == timers[i + 1];
      EraseAbsent(timers[1..], key);
    }
  }

  lemma {:induction false} DueErase(timers: seq<Timer>, time: int, key: Key)
    ensures Due(Erase(timers, key), time) == Erase(Due(timers, time), key)
  {
    if timers != [] {
      var first, rest := timers[0], timers[1..];
      DueErase(rest, time, key);
      var due := Due(rest, time);
      assert [] + due == due && ([first] + due)[1..] == due;
      if first.key != key {
        var erased := Erase(rest, key);
        assert [] + Due(erased, time) == Due(erased, time);
        assert ([first] + erased)[1..] == erased;
      } else if first.key.deadline > time {
        NotDue(rest, time, key);
        EraseAbsent(due, key);
      }
    }
  }

  lemma NotDue(timers: seq<Timer>, time: int, key: Key)
    requires key.deadline > time
    ensures !Has(Due(timers, time), key)
  {
    hide Due;
    forall i | 0 <= i < |Due(timers, time)|
      ensures Due(timers, time)[i].key != key
    {
      DueMembers(timers, time, Due(timers, time)[i]);
    }
  }

  ghost predicate PositiveOps(ops: seq<Op>) {
    forall op <- ops :: op.AddAfter? ==> op.ms > 0 && Positive(op.cb)
  }

  lemma AppliedDue(w: Wheel, op: Op)
    requires op.AddAfter? ==> op.ms > 0
    ensures Applied(w, op).time == w.time
    ensures Due(Applied(w, op).timers, w.time) ==
      match op case CancelTimer(key) => Erase(Due(w.timers, w.time), key) case AddAfter(_, _) => Due(w.timers, w.time)
  {
    hide Due, Erase, Insert, Has;
    match op {
      case AddAfter(ms, cb) => DueInsert(w.timers, w.time, Timer(Key(w.time + ms, w.counter), cb));
      case CancelTimer(key) =>
        DueErase(w.timers, w.time, key);
        if !Has(w.timers, key) {
          EraseAbsent(w.timers, key);
        }
    }
  }

  /** While a callback runs, what is due changes only by the cancellations it makes. */
  lemma {:induction false} AppliedAllDue(w: Wheel, ops: seq<Op>)
    requires PositiveOps(ops)
    ensures AppliedAll(w, ops).time == w.time
    ensures Due(AppliedAll(w, ops).timers, w.time) == Spared(Due(w.timers, w.time), ops)
    decreases |ops|
  {
    hide Due, Erase, Applied, Positive;
    if ops != [] {
      assert forall op <- ops[1..] :: op in ops;
      AppliedDue(w, ops[0]);
      AppliedAllDue(Applied(w, ops[0]), ops[1..]);
    }
  }

  lemma {:induction false} AppliedAllPositive(w: Wheel, ops: seq<Op>)
    requires PositiveOps(ops) && AllPositive(w.timers)
    ensures AllPositive(AppliedAll(w, ops).timers)
    decreases |ops|
  {
    hide Erase, Insert, Positive, Has;
    if ops != [] {
      var next := Applied(w, ops[0]);
      if ops[0].AddAfter? {
        forall x | x in next.timers
          ensures Positive(x.cb)
        {
          InsertMembers(w.timers, Timer(Key(w.time + ops[0].ms, w.counter), ops[0].cb), x);
        }
      }
      assert forall op <- ops[1..] :: op in ops;
      AppliedAllPositive(next, ops[1..]);
    }
  }

  lemma FireDefined(w: Wheel)
    requires w.timers != []
    ensures Fire(w, w.timers[0]) ==
      AppliedAll(w.(timers := w.timers[1..], fired := w.fired + [w.timers[0].key]), w.timers[0].cb.ops)
  {
    hide AppliedAll;
  }

  /** Firing the first timer is the first of the steps that make up the tick. */
  lemma FireFirst(w: Wheel)
    requires w.timers != [] && w.timers[0].key.deadline <= w.time && AllPositive(w.timers)
    ensures var next := Fire(w, w.timers[0]);
      && AllPositive(next.timers) && next.time == w.time
      && |Due(next.timers, w.time)| < |Due(w.timers, w.time)|
      && FireAll(next, Survivors(Due(next.timers, w.time))) == FireAll(w, Survivors(Due(w.timers, w.time)))
  {
    var first, rest := w.timers[0], w.timers[1..];
    var popped := w.(timers := rest, fired := w.fired + [first.key]);
    PositiveAt(first.cb);
    assert AllPositive(rest) && Positive(first.cb) by {
      assert first in w.timers;
      assert forall x <- rest :: x in w.timers;
    }
    AppliedAllDue(popped, first.cb.ops);
    AppliedAllPositive(popped, first.cb.ops);
    hide AppliedAll, Positive, AllPositive;
    var due := Due(rest, w.time);
    assert Due(w.timers, w.time) == [first] + due;
    assert ([first] + due)[1..] == due;
    var left := Survivors(Spared(due, first.cb.ops));
    assert Survivors([first] + due) == [first] + left;
    assert ([first] + left)[1..] == left;
  }

  lemma PositiveAt(cb: Callback)
    ensures Positive(cb) ==> PositiveOps(cb.ops)
  {
  }

  lemma {:induction false} NothingDueYet(timers: seq<Timer>, time: int)
    requires Sorted(timers) && (timers != [] ==> timers[0].key.deadline > time)
    ensures Due(timers, time) == []
  {
    if timers != [] {
      NothingDueYet(timers[1..], time);
    }
  }

}
