/** What becomes of the tasks that threads give to `add_task`. */
module TaskQueueAdders {
  import opened TaskQueue
  import opened TaskQueueInvariant
  import opened TaskQueueTheorems

  /** The tasks given to `add_task`. */
  function Given(steps: seq<Step>): multiset<Task> {
    if steps == [] then multiset{} else GivenBy(steps[0]) + Given(steps[1..])
  }

  function GivenBy(step: Step): multiset<Task> {
    if step.New? then multiset{step.task} else multiset{}
  }

  /** The task that thread `t` is still adding, if there is one. */
  function Hand(s: State, t: nat): multiset<Task> {
    if t in s.adders && s.adders[t].item in s.heap then multiset{s.heap[s.adders[t].item].task} else multiset{}
  }

  /** The tasks that the first `n` threads are still adding. */
  function InHand(s: State, n: nat): multiset<Task> {
    if n == 0 then multiset{} else InHand(s, n - 1) + Hand(s, n - 1)
  }

  lemma {:induction false} HandsSame(s: State, next: State, n: nat)
    requires forall u :: 0 <= u < n ==> Hand(next, u) == Hand(s, u)
    ensures InHand(next, n) == InHand(s, n)
  {
    hide Hand;
    if n > 0 {
      HandsSame(s, next, n - 1);
    }
  }

  lemma {:induction false} HandsChanged(s: State, next: State, t: nat, n: nat)
    requires t < n && forall u :: 0 <= u < n && u != t ==> Hand(next, u) == Hand(s, u)
    ensures InHand(next, n) + Hand(s, t) == InHand(s, n) + Hand(next, t)
  {
    hide Hand;
    if t < n - 1 {
      HandsChanged(s, next, t, n - 1);
      Regroup(InHand(next, n - 1), Hand(s, n - 1), Hand(s, t));
      Regroup(InHand(s, n - 1), Hand(s, n - 1), Hand(next, t));
    } else {
      HandsSame(s, next, n - 1);
      Regroup(InHand(s, n - 1), Hand(s, t), Hand(next, t));
    }
  }

  lemma Regroup(a: multiset<Task>, b: multiset<Task>, c: multiset<Task>)
    ensures a + b + c == a + c + b == a + (b + c)
  {
  }

  lemma {:induction false} NoMoreHands(s: State, n: nat, m: nat)
    requires n <= m && forall t <- s.adders :: t < n
    ensures InHand(s, m) == InHand(s, n)
  {
    if n < m {
      NoMoreHands(s, n, m - 1);
    }
  }

  // ----- One step

  /** The thread that takes the step is not `t`. */
  predicate NotBy(step: Step, t: nat) {
    step.Work? || step.thread != t
  }

  /** What a thread is adding is not touched by the worker or other threads. */
  lemma HandKept(s: State, step: Step, ls: Lists, t: nat)
    requires Inv(s, ls) && Enabled(s, step) && Allocated(s, step) && NotBy(step, t)
    ensures Hand(Apply(s, step), t) == Hand(s, t)
  {
    hide Linking, Accounted, WorkerStep;
    if step.Work? {
      WorkerLeaves(s, ls);
    }
  }

  lemma WorkerLeaves(s: State, ls: Lists)
    requires Inv(s, ls) && Allocated(s, Work)
    ensures var next := WorkerStep(s);
      && next.adders == s.adders
      && forall t <- s.adders :: var item := s.adders[t].item;
        item in s.heap && item in next.heap && next.heap[item].task == s.heap[item].task
  {
    hide Chain, Accounted, Distinct;
    RestListed(s, ls);
  }

  /** A thread's own step: a task that is new is in its hand, and one that leaves it has been pushed. */
  lemma HandMoves(s: State, step: Step, ls: Lists)
    requires Inv(s, ls) && Enabled(s, step) && Allocated(s, step) && !step.Work?
    ensures var next, t := Apply(s, step), step.thread;
      multiset(s.pushed) + Hand(s, t) + GivenBy(step) == multiset(next.pushed) + Hand(next, t)
  {
    hide Linking, Accounted, WorkerSane;
  }

  lemma Balance(pushed: multiset<Task>, hands: multiset<Task>, given: multiset<Task>,
                pushed': multiset<Task>, hands': multiset<Task>, hand: multiset<Task>, hand': multiset<Task>)
    requires pushed + hand + given == pushed' + hand' && hands' + hand == hands + hand'
    ensures pushed + hands + given == pushed' + hands'
  {
    forall x: Task
      ensures (pushed + hands + given)[x] == (pushed' + hands')[x]
    {
      assert (pushed + hand + given)[x] == (pushed' + hand')[x] && (hands' + hand)[x] == (hands + hand')[x];
    }
  }

  lemma StepHands(s: State, step: Step, ls: Lists, n: nat)
    requires Inv(s, ls) && Enabled(s, step) && Allocated(s, step) && (step.Work? || step.thread < n)
    ensures var next := Apply(s, step);
      multiset(s.pushed) + InHand(s, n) + GivenBy(step) == multiset(next.pushed) + InHand(next, n)
  {
    hide Inv, Hand, InHand, Enabled, Allocated;
    var next := Apply(s, step);
    forall u | 0 <= u < n && NotBy(step, u)
      ensures Hand(next, u) == Hand(s, u)
    {
      HandKept(s, step, ls, u);
    }
    if step.Work? {
      HandsSame(s, next, n);
      assert multiset(s.pushed) + InHand(s, n) + multiset{} == multiset(s.pushed) + InHand(s, n);
    } else {
      HandMoves(s, step, ls);
      HandsChanged(s, next, step.thread, n);
      Balance(multiset(s.pushed), InHand(s, n), GivenBy(step), multiset(next.pushed), InHand(next, n),
              Hand(s, step.thread), Hand(next, step.thread));
    }
  }

  // ----- Whole runs

  ghost predicate ThreadsBelow(steps: seq<Step>, n: nat) {
    forall step <- steps :: step.Work? || step.thread < n
  }

  lemma {:induction false} SomeBound(steps: seq<Step>, least: nat) returns (n: nat)
    ensures least <= n && ThreadsBelow(steps, n)
  {
    n := least;
    if steps != [] {
      var m := SomeBound(steps[1..], least);
      n := if steps[0].Work? || steps[0].thread < m then m else steps[0].thread + 1;
      assert steps == [steps[0]] + steps[1..];
    }
  }

  lemma {:induction false} RunHands(s: State, steps: seq<Step>, ls: Lists, n: nat)
    requires Inv(s, ls) && IsRun(s, steps) && ThreadsBelow(steps, n)
    ensures var t := Run(s, steps);
      multiset(s.pushed) + InHand(s, n) + Given(steps) == multiset(t.pushed) + InHand(t, n)
    decreases |steps|
  {
    hide Inv, InHand, Enabled, Allocated, Apply, GivenBy;
    if steps != [] {
      assert steps[0] in steps && forall step <- steps[1..] :: step in steps;
      StepHands(s, steps[0], ls, n);
      var next := StepKeeps(s, steps[0], ls);
      RunHands(Apply(s, steps[0]), steps[1..], next, n);
    }
  }

  lemma NoneInHand(n: nat)
    ensures InHand(Init(), n) == multiset{}
  {
    NoMoreHands(Init(), 0, n);
  }

  /**
  In every interleaving no task given to `add_task` is lost and none is pushed twice: those given are those pushed and
  those that threads are still adding.
  */
  lemma TasksPushedOrInHand(steps: seq<Step>, n: nat)
    requires IsRun(Init(), steps) && forall t <- Run(Init(), steps).adders :: t < n
    ensures var s := Run(Init(), steps); Given(steps) == multiset(s.pushed) + InHand(s, n)
  {
    hide IsRun, Run, Inv, InHand, Given;
    var m := SomeBound(steps, n);
    var ls := InitKeeps();
    RunHands(Init(), steps, ls, m);
    NoneInHand(m);
    NoMoreHands(Run(Init(), steps), n, m);
  }

  // ----- A thread left to itself

  /** The steps that thread `t` takes from where it is until its exchange, and once more around if that fails. */
  function Adding(s: State, t: nat): seq<Step>
    requires t in s.adders
  {
    var again := [Load(t), Link(t), CompareExchange(t)];
    match s.adders[t]
    case Starting(_) => again
    case Loaded(_, head) => [Link(t), CompareExchange(t)] + if head == s.itemHead then [] else again
    case Linked(_, head) => [CompareExchange(t)] + if head == s.itemHead then [] else again
  }

  lemma OneStep(s: State, step: Step, rest: seq<Step>)
    requires Enabled(s, step) && Allocated(s, step) && IsRun(Apply(s, step), rest)
    ensures IsRun(s, [step] + rest) && Run(s, [step] + rest) == Run(Apply(s, step), rest)
  {
    hide Enabled, Allocated, Apply;
    assert ([step] + rest)[1..] == rest;
  }

  lemma NoStep(s: State)
    ensures IsRun(s, []) && Run(s, []) == s
  {
  }

  ghost predicate Pushes(s: State, t: nat, steps: seq<Step>)
    requires t in s.adders && s.adders[t].item in s.heap
  {
    && IsRun(s, steps)
    && Run(s, steps).pushed == s.pushed + [s.heap[s.adders[t].item].task]
    && Run(s, steps).adders == s.adders - {t}
  }

  lemma Exchanges(s: State, t: nat)
    requires t in s.adders && s.adders[t].item in s.heap && s.adders[t].Linked? && s.adders[t].head == s.itemHead
    ensures Pushes(s, t, [CompareExchange(t)])
  {
    var next := Apply(s, CompareExchange(t));
    NoStep(next);
    OneStep(s, CompareExchange(t), []);
    assert [CompareExchange(t)] + [] == [CompareExchange(t)];
  }

  lemma Links(s: State, t: nat)
    requires t in s.adders && s.adders[t].item in s.heap && s.adders[t].Loaded? && s.adders[t].head == s.itemHead
    ensures Pushes(s, t, [Link(t), CompareExchange(t)])
  {
    hide IsRun, Run;
    var next := Apply(s, Link(t));
    Exchanges(next, t);
    OneStep(s, Link(t), [CompareExchange(t)]);
    assert [Link(t)] + [CompareExchange(t)] == [Link(t), CompareExchange(t)];
    assert next.adders - {t} == s.adders - {t};
  }

  lemma Loads(s: State, t: nat)
    requires t in s.adders && s.adders[t].item in s.heap && s.adders[t].Starting?
    ensures Pushes(s, t, [Load(t), Link(t), CompareExchange(t)])
  {
    hide IsRun, Run;
    var next := Apply(s, Load(t));
    Links(next, t);
    OneStep(s, Load(t), [Link(t), CompareExchange(t)]);
    assert [Load(t)] + [Link(t), CompareExchange(t)] == [Load(t), Link(t), CompareExchange(t)];
    assert next.adders - {t} == s.adders - {t};
  }

  lemma Retries(s: State, t: nat)
    requires t in s.adders && s.adders[t].item in s.heap && s.adders[t].Linked? && s.adders[t].head != s.itemHead
    ensures Pushes(s, t, [CompareExchange(t)] + [Load(t), Link(t), CompareExchange(t)])
  {
    hide IsRun, Run;
    var next := Apply(s, CompareExchange(t));
    Loads(next, t);
    OneStep(s, CompareExchange(t), [Load(t), Link(t), CompareExchange(t)]);
    assert next.adders - {t} == s.adders - {t};
  }

  lemma LinksAndRetries(s: State, t: nat)
    requires t in s.adders && s.adders[t].item in s.heap && s.adders[t].Loaded? && s.adders[t].head != s.itemHead
    ensures Pushes(s, t, [Link(t), CompareExchange(t)] + [Load(t), Link(t), CompareExchange(t)])
  {
    hide IsRun, Run;
    var next, rest := Apply(s, Link(t)), [CompareExchange(t)] + [Load(t), Link(t), CompareExchange(t)];
    Retries(next, t);
    OneStep(s, Link(t), rest);
    assert [Link(t)] + rest == [Link(t), CompareExchange(t)] + [Load(t), Link(t), CompareExchange(t)];
    assert next.adders - {t} == s.adders - {t};
  }

  /**
  From every reachable state a thread in `add_task`, left to itself, has pushed its own task after at most five steps,
  and with that has left.
  */
  lemma AdderPushes(steps: seq<Step>, t: nat)
    requires IsRun(Init(), steps) && t in Run(Init(), steps).adders
    ensures var s := Run(Init(), steps);
      s.adders[t].item in s.heap && Pushes(s, t, Adding(s, t)) && |Adding(s, t)| <= 5
  {
    hide IsRun, Run, Inv, Pushes;
    var s := Run(Init(), steps);
    var ls := Reached(steps);
    AddersAllocated(s, ls);
    var none: seq<Step> := [];
    assert [Link(t), CompareExchange(t)] + none == [Link(t), CompareExchange(t)];
    assert [CompareExchange(t)] + none == [CompareExchange(t)];
    match s.adders[t] {
      case Starting(_) => Loads(s, t);
      case Loaded(_, head) => if head == s.itemHead { Links(s, t); } else { LinksAndRetries(s, t); }
      case Linked(_, head) => if head == s.itemHead { Exchanges(s, t); } else { Retries(s, t); }
    }
  }

  // ----- Memory

  /** As many messages are allocated as have been given to a thread or pushed, and have not run. */
  ghost predicate Freed(s: State) {
    |s.heap| + |s.ran| == |s.pushed| + |s.adders|
  }

  lemma OneMore<K, V>(m: map<K, V>, k: K, v: V)
    ensures |m[k := v]| == |m| + if k in m then 0 else 1
  {
    assert m[k := v].Keys == m.Keys + {k};
  }

  lemma OneLess<K, V>(m: map<K, V>, k: K)
    requires k in m
    ensures |m - {k}| == |m| - 1
  {
    assert (m - {k}).Keys == m.Keys - {k};
  }

  lemma WorkFreed(s: State)
    requires Freed(s) && Allocated(s, Work)
    ensures Freed(WorkerStep(s))
  {
    match s.worker {
      case Relinking(prev, current, _) => OneMore(s.heap, current, s.heap[current].(next := prev));
      case Popping => OneLess(s.heap, s.local);
      case _ =>
    }
  }

  lemma LinkFreed(s: State, t: nat)
    requires Freed(s) && Enabled(s, Link(t)) && Allocated(s, Link(t))
    ensures Freed(Apply(s, Link(t)))
  {
    var Loaded(item, head) := s.adders[t];
    OneMore(s.heap, item, s.heap[item].(next := head));
    OneMore(s.adders, t, Linked(item, head));
  }

  lemma ExchangeFreed(s: State, t: nat)
    requires Freed(s) && Enabled(s, CompareExchange(t)) && Allocated(s, CompareExchange(t))
    ensures Freed(Apply(s, CompareExchange(t)))
  {
    OneLess(s.adders, t);
    OneMore(s.adders, t, Starting(s.adders[t].item));
  }

  lemma StepFreed(s: State, step: Step)
    requires Freed(s) && Enabled(s, step) && Allocated(s, step)
    ensures Freed(Apply(s, step))
  {
    hide WorkerStep;
    match step {
      case New(t, addr, task, next) =>
        OneMore(s.heap, addr, Message(task, next));
        OneMore(s.adders, t, Starting(addr));
      case Load(t) => OneMore(s.adders, t, Loaded(s.adders[t].item, s.itemHead));
      case Link(t) => LinkFreed(s, t);
      case CompareExchange(t) => ExchangeFreed(s, t);
      case Work => WorkFreed(s);
    }
  }

  lemma {:induction false} RunFreed(s: State, steps: seq<Step>)
    requires Freed(s) && IsRun(s, steps)
    ensures Freed(Run(s, steps))
    decreases |steps|
  {
    hide Freed, Enabled, Allocated, Apply;
    if steps != [] {
      StepFreed(s, steps[0]);
      RunFreed(Apply(s, steps[0]), steps[1..]);
    }
  }

  /** In every interleaving the messages allocated are as many as the tasks pushed or in hand that have not run: each is
      freed as it runs. */
  lemma MessagesFreed(steps: seq<Step>)
    requires IsRun(Init(), steps)
    ensures var s := Run(Init(), steps); |s.heap| + |s.ran| == |s.pushed| + |s.adders|
  {
    hide Run, IsRun;
    RunFreed(Init(), steps);
  }
}
