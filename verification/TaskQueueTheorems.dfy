/** Every step of the task list keeps its invariant, and what follows for whole runs. */
module TaskQueueTheorems {
  import opened TaskQueue
  import opened TaskQueueInvariant

  // ----- Threads adding tasks

  lemma NewKeeps(s: State, step: Step, ls: Lists)
    requires Inv(s, ls) && step.New? && Enabled(s, step) && Allocated(s, step)
    ensures Inv(Apply(s, step), ls)
  {
    hide Chain, Accounted, Distinct, Reverse;
    var t := Apply(s, step);
    LinkedHolds(s, ls);
    HoldsIn(s.heap, ls.All());
    HeapFrame(s, t, ls);
    AccountedFrame(s, t, ls);
  }

  lemma LoadKeeps(s: State, step: Step, ls: Lists)
    requires Inv(s, ls) && step.Load? && Enabled(s, step) && Allocated(s, step)
    ensures Inv(Apply(s, step), ls)
  {
    hide Chain, Accounted, Distinct, Reverse;
    var t := Apply(s, step);
    HeapFrame(s, t, ls);
    AccountedFrame(s, t, ls);
  }

  lemma LinkKeeps(s: State, step: Step, ls: Lists)
    requires Inv(s, ls) && step.Link? && Enabled(s, step) && Allocated(s, step)
    ensures Inv(Apply(s, step), ls)
  {
    hide Chain, Accounted, Distinct, Reverse;
    var t := Apply(s, step);
    HeapFrame(s, t, ls);
    AccountedFrame(s, t, ls);
    assert WorkerSane(t) by {
      LinkedHolds(s, ls);
      RestListed(s, ls);
    }
  }

  /** The message the worker is about to relink is on its list. */
  lemma RestListed(s: State, ls: Lists)
    requires Linking(s, ls)
    ensures Rest(s) != NULL ==> Rest(s) in ls.All()
    ensures Front(s) != NULL ==> Front(s) in ls.All()
  {
    hide Distinct;
  }

  lemma FailedKeeps(s: State, step: Step, ls: Lists)
    requires Inv(s, ls) && step.CompareExchange? && Enabled(s, step) && Allocated(s, step)
    requires s.itemHead != s.adders[step.thread].head
    ensures Inv(Apply(s, step), ls)
  {
    hide Chain, Accounted, Distinct, Reverse;
    var t := Apply(s, step);
    HeapFrame(s, t, ls);
    AccountedFrame(s, t, ls);
  }

  lemma PushLinks(s: State, t: State, ls: Lists, item: Addr)
    requires Linking(s, ls) && item in s.heap && item !in ls.All() && item != NULL
    requires s.heap[item].next == s.itemHead
    requires t.heap == s.heap && t.itemHead == item && Front(t) == Front(s) && Rest(t) == Rest(s)
    ensures Linking(t, ls.(stack := [item] + ls.stack))
  {
    var stack := [item] + ls.stack;
    assert stack[1..] == ls.stack;
    assert stack + ls.left + ls.right == [item] + ls.All();
  }

  lemma PushAccounts(s: State, t: State, ls: Lists, item: Addr)
    requires Accounted(s, ls) && item in s.heap
    requires t.heap == s.heap && t.ran == s.ran && t.pushed == s.pushed + [s.heap[item].task]
    ensures Accounted(t, ls.(stack := [item] + ls.stack))
  {
    hide Reverse;
    var stack := [item] + ls.stack;
    ReverseConcat([item], ls.stack);
    ReverseOne(item);
    assert ls.(stack := stack).Order() == ls.Order() + [item];
    TasksConcat(s.heap, ls.Order(), [item]);
    assert Tasks(s.heap, [item]) == [s.heap[item].task];
  }

  lemma ReverseOne<T>(x: T)
    ensures Reverse([x]) == [x]
  {
    assert [x][1..] == [];
  }

  /** A successful compare-exchange links correctly even if the head was popped, freed and pushed again meanwhile. */
  lemma PushedKeeps(s: State, step: Step, ls: Lists)
    requires Inv(s, ls) && step.CompareExchange? && Enabled(s, step) && Allocated(s, step)
    requires s.itemHead == s.adders[step.thread].head
    ensures Inv(Apply(s, step), ls.(stack := [s.adders[step.thread].item] + ls.stack))
  {
    hide Chain, Accounted, Distinct, Reverse;
    var t, item := Apply(s, step), s.adders[step.thread].item;
    PushLinks(s, t, ls, item);
    PushAccounts(s, t, ls, item);
    assert [item] + ls.stack + ls.left + ls.right == [item] + ls.All();
  }

  // ----- The worker

  lemma IdleKeeps(s: State, ls: Lists)
    requires Inv(s, ls) && s.worker.Idle?
    ensures Inv(WorkerStep(s), ls)
  {
    hide Chain, Accounted, Distinct, Reverse;
    AccountedFrame(s, WorkerStep(s), ls);
  }

  lemma TakingKeeps(s: State, ls: Lists)
    requires Inv(s, ls) && s.worker.Taking?
    ensures Inv(WorkerStep(s), Lists([], [], ls.stack))
  {
    hide Distinct, Reverse;
    LinkedHolds(s, ls);
    var t, next := WorkerStep(s), Lists([], [], ls.stack);
    assert ls.All() == ls.stack == next.All();
    ReverseNone<Addr>();
    assert next.Order() == Reverse(ls.stack) == ls.Order();
    hide Accounted, Chain;
    assert Accounted(t, next) by { Reordered(s, t, ls, next); }
    EmptyChain(t.heap);
  }

  lemma EmptyChain(heap: map<Addr, Message>)
    ensures Chain(heap, NULL, [])
  {
  }

  lemma ReverseNone<T>()
    ensures Reverse<T>([]) == []
  {
  }

  lemma Reordered(s: State, t: State, a: Lists, b: Lists)
    requires Accounted(s, a) && a.Order() == b.Order()
    requires t.pushed == s.pushed && t.ran == s.ran
    requires forall x <- s.heap :: x in t.heap && t.heap[x].task == s.heap[x].task
    ensures Accounted(t, b)
  {
    hide Reverse;
    AccountedFrame(s, t, a);
  }

  lemma ReversedKeeps(s: State, ls: Lists)
    requires Inv(s, ls) && s.worker.Reversing? && s.worker.current == NULL
    ensures Inv(WorkerStep(s), ls)
  {
    hide Chain, Accounted, Distinct, Reverse;
    AccountedFrame(s, WorkerStep(s), ls);
  }

  lemma ReadNextKeeps(s: State, ls: Lists)
    requires Inv(s, ls) && s.worker.Reversing? && s.worker.current != NULL
    ensures Allocated(s, Work) && Inv(WorkerStep(s), ls)
  {
    hide Accounted, Distinct, Reverse;
    hide Chain;
    LinkedHolds(s, ls);
    RestListed(s, ls);
    HoldsIn(s.heap, ls.All());
    AccountedFrame(s, WorkerStep(s), ls);
  }

  /** Moves the first message still to reverse to the front of those reversed. */
  function Moved(ls: Lists): Lists
    requires ls.right != []
  {
    Lists(ls.stack, [ls.right[0]] + ls.left, ls.right[1..])
  }

  lemma MovedLists(ls: Lists)
    requires ls.right != []
    ensures Moved(ls).Order() == ls.Order()
    ensures Distinct(ls.All()) ==> Distinct(Moved(ls).All())
    ensures forall x :: x in Moved(ls).All() ==> x in ls.All()
  {
    hide Reverse;
    var x := ls.right[0];
    assert ls.right == [x] + ls.right[1..];
    ReverseConcat([x], ls.right[1..]);
    ReverseOne(x);
    assert Moved(ls).Order() == ls.Order();
    MovedDistinct(ls);
  }

  lemma MovedDistinct(ls: Lists)
    requires ls.right != []
    ensures Distinct(ls.All()) ==> Distinct(Moved(ls).All())
    ensures forall x :: x in Moved(ls).All() ==> x in ls.All()
  {
    assert ls.right == [ls.right[0]] + ls.right[1..];
    assert multiset(Moved(ls).All()) == multiset(ls.All());
    assert forall x :: x in Moved(ls).All() <==> x in multiset(Moved(ls).All());
  }

  lemma RelinkChains(s: State, t: State, ls: Lists)
    requires Linking(s, ls) && s.worker.Relinking? && WorkerSane(s) && t == WorkerStep(s)
    ensures ls.right != [] && Linking(t, Moved(ls))
  {
    hide Reverse, Chain, Distinct;
    LinkedHolds(s, ls);
    var x := s.worker.current;
    ChainRest(s.heap, x, ls.right);
    MovedLists(ls);
    ApartFromHead(ls);
    HoldsIn(s.heap, ls.All());
    assert forall y <- ls.All() :: y != x ==> y in t.heap && t.heap[y] == s.heap[y];
    ChainFrame(s.heap, t.heap, s.itemHead, ls.stack);
    ChainFrame(s.heap, t.heap, s.worker.prev, ls.left);
    ChainFrame(s.heap, t.heap, s.worker.next, ls.right[1..]);
    ChainCons(t.heap, x, ls.left);
  }

  lemma ApartFromHead(ls: Lists)
    requires Distinct(ls.All()) && ls.right != []
    ensures ls.right[0] !in ls.stack && ls.right[0] !in ls.left && ls.right[0] !in ls.right[1..]
    ensures forall y :: y in ls.stack || y in ls.left || y in ls.right[1..] ==> y in ls.All()
  {
    var x, rest := ls.right[0], ls.right[1..];
    assert ls.right == [x] + rest;
    assert x in ls.All();
    assert multiset(ls.All()) == multiset(ls.stack) + multiset(ls.left) + multiset{x} + multiset(rest);
  }

  lemma RelinkKeeps(s: State, ls: Lists)
    requires Inv(s, ls) && s.worker.Relinking?
    ensures ls.right != [] && Inv(WorkerStep(s), Moved(ls))
  {
    hide Chain, Accounted, Distinct, Reverse;
    var t := WorkerStep(s);
    RelinkChains(s, t, ls);
    MovedLists(ls);
    RestListed(s, ls);
    Reordered(s, t, ls, Moved(ls));
  }

  lemma ApartFromFirst(ls: Lists)
    requires Distinct(ls.All()) && ls.left != [] && ls.right == []
    ensures ls.left[0] !in ls.stack && ls.left[0] !in ls.left[1..]
    ensures Distinct(ls.(left := ls.left[1..]).All())
    ensures forall y :: y in ls.stack || y in ls.left[1..] ==> y in ls.All()
  {
    var x, rest := ls.left[0], ls.left[1..];
    assert ls.left == [x] + rest;
    assert x in ls.All();
    assert multiset(ls.All()) == multiset(ls.stack) + multiset{x} + multiset(rest);
    var all := ls.(left := rest).All();
    assert multiset(all) == multiset(ls.stack) + multiset(rest);
    forall y | y in all
      ensures multiset(all)[y] == 1
    {
      assert y in ls.All();
    }
  }

  lemma PopLinks(s: State, t: State, ls: Lists)
    requires Linking(s, ls) && s.worker.Popping? && s.local != NULL && Allocated(s, Work) && t == WorkerStep(s)
    ensures ls.left != [] && ls.right == [] && Linking(t, ls.(left := ls.left[1..]))
  {
    hide Reverse, Chain, Distinct;
    LinkedHolds(s, ls);
    var x, a := s.local, ls.All();
    ChainRest(s.heap, x, ls.left);
    HoldsIn(s.heap, a);
    ApartFromFirst(ls);
    ChainFrame(s.heap, t.heap, s.itemHead, ls.stack);
    ChainFrame(s.heap, t.heap, s.heap[x].next, ls.left[1..]);
    EmptyChain(t.heap);
  }

  lemma PopAccounts(s: State, t: State, ls: Lists)
    requires Linking(s, ls) && Accounted(s, ls) && s.worker.Popping? && s.local != NULL && Allocated(s, Work)
    requires t == WorkerStep(s) && ls.left != [] && ls.right == []
    ensures Accounted(t, ls.(left := ls.left[1..]))
  {
    hide Reverse, Chain;
    var x, rest := ls.left[0], ls.(left := ls.left[1..]);
    assert x == s.local by { FrontIs(s, ls); }
    ReverseNone<Addr>();
    assert ls.Order() == [x] + rest.Order();
    TasksConcat(s.heap, [x], rest.Order());
    assert Tasks(s.heap, [x]) == [s.heap[x].task];
    assert x !in rest.Order() by {
      ApartFromFirst(ls);
      ReverseMembers(ls.stack, x);
    }
    TasksFrame(s.heap, t.heap, rest.Order());
  }

  lemma FrontIs(s: State, ls: Lists)
    requires Linking(s, ls) && ls.left != []
    ensures Front(s) == ls.left[0]
  {
  }

  lemma PopKeeps(s: State, ls: Lists)
    requires Inv(s, ls) && s.worker.Popping?
    ensures Allocated(s, Work) && ls.left != [] && Inv(WorkerStep(s), ls.(left := ls.left[1..]))
  {
    hide Chain, Accounted, Distinct, Reverse;
    LinkedHolds(s, ls);
    RestListed(s, ls);
    HoldsIn(s.heap, ls.All());
    var t := WorkerStep(s);
    PopLinks(s, t, ls);
    PopAccounts(s, t, ls);
    assert forall x <- ls.(left := ls.left[1..]).All() :: x in ls.All();
  }

  /** Bounds how many steps the worker needs to run everything. */
  function Remaining(s: State, ls: Lists): nat {
    8 * |ls.stack| + 4 * |ls.right| + 2 * |ls.left| +
    match s.worker
    case Idle => 2
    case Taking => 1
    case Reversing(_, _) => 3
    case Relinking(_, _, _) => 2
    case Popping => 1
  }

  predicate Quiet(s: State) {
    s.worker.Idle? && s.local == NULL && s.itemHead == NULL
  }

  lemma WorkKeeps(s: State, ls: Lists) returns (next: Lists)
    requires Inv(s, ls)
    ensures Allocated(s, Work) && Inv(WorkerStep(s), next)
    ensures Quiet(s) || Remaining(WorkerStep(s), next) < Remaining(s, ls)
  {
    NonEmpty(s, ls);
    hide Inv;
    next := ls;
    match s.worker {
      case Idle => IdleKeeps(s, ls);
      case Taking => TakingKeeps(s, ls); next := Lists([], [], ls.stack);
      case Reversing(_, current) =>
        if current == NULL { ReversedKeeps(s, ls); } else { ReadNextKeeps(s, ls); }
      case Relinking(_, _, _) => RelinkKeeps(s, ls); next := Moved(ls);
      case Popping => PopKeeps(s, ls); next := ls.(left := ls.left[1..]);
    }
  }

  lemma NonEmpty(s: State, ls: Lists)
    requires Inv(s, ls)
    ensures s.worker.Relinking? ==> Allocated(s, Work)
    ensures s.worker.Taking? ==> ls.stack != [] && ls.right == []
    ensures Quiet(s) ==> ls == Lists([], [], [])
  {
    hide Chain, Distinct, Accounted, AddersApart;
    LinkedHolds(s, ls);
  }

  // ----- Whole runs

  lemma StepKeeps(s: State, step: Step, ls: Lists) returns (next: Lists)
    requires Inv(s, ls) && Enabled(s, step)
    ensures Allocated(s, step) && Inv(Apply(s, step), next)
  {
    AddersAllocated(s, ls);
    hide Inv;
    next := ls;
    match step {
      case New(_, _, _, _) => NewKeeps(s, step, ls);
      case Load(_) => LoadKeeps(s, step, ls);
      case Link(_) => LinkKeeps(s, step, ls);
      case CompareExchange(t) =>
        if s.itemHead == s.adders[t].head {
          PushedKeeps(s, step, ls);
          next := ls.(stack := [s.adders[t].item] + ls.stack);
        } else {
          FailedKeeps(s, step, ls);
        }
      case Work => next := WorkKeeps(s, ls);
    }
  }

  lemma AddersAllocated(s: State, ls: Lists)
    requires Inv(s, ls)
    ensures forall t <- s.adders :: s.adders[t].item in s.heap
  {
  }

  lemma {:induction false} RunKeeps(s: State, steps: seq<Step>, ls: Lists) returns (last: Lists)
    requires Inv(s, ls) && IsRun(s, steps)
    ensures Inv(Run(s, steps), last)
    decreases |steps|
  {
    hide Inv, Apply, Enabled, Allocated;
    last := ls;
    if steps != [] {
      var next := StepKeeps(s, steps[0], ls);
      last := RunKeeps(Apply(s, steps[0]), steps[1..], next);
    }
  }

  lemma InitKeeps() returns (ls: Lists)
    ensures Inv(Init(), ls)
  {
    ls := Lists([], [], []);
    ReverseNone<Addr>();
    assert ls.All() == [] && ls.Order() == [];
  }

  lemma Reached(steps: seq<Step>) returns (ls: Lists)
    requires IsRun(Init(), steps)
    ensures Inv(Run(Init(), steps), ls)
  {
    hide *;
    var none := InitKeeps();
    ls := RunKeeps(Init(), steps, none);
  }

  /** A linked list of distinct addresses is what following `next` finds. */
  lemma {:induction false} ChainFollowed(heap: map<Addr, Message>, a: Addr, l: seq<Addr>)
    requires Chain(heap, a, l) && Distinct(l)
    ensures Holds(heap, l) && Follow(heap, a) == Tasks(heap, l)
    decreases |l|
  {
    ChainHolds(heap, a, l);
    if l != [] {
      var rest := l[1..];
      assert l == [a] + rest;
      assert multiset(l) == multiset{a} + multiset(rest);
      assert a in l;
      assert a !in rest;
      assert Distinct(rest) by {
        forall x | x in rest ensures multiset(rest)[x] == 1 { assert x in l; }
      }
      ChainHolds(heap, heap[a].next, rest);
      HoldsIn(heap, rest);
      ChainFrame(heap, heap - {a}, heap[a].next, rest);
      ChainFollowed(heap - {a}, heap[a].next, rest);
      TasksFrame(heap - {a}, heap, rest);
      TasksConcat(heap, [a], rest);
      assert Tasks(heap, [a]) == [heap[a].task];
    }
  }

  lemma {:induction false} ReverseTasks(heap: map<Addr, Message>, l: seq<Addr>)
    requires Holds(heap, l)
    ensures Holds(heap, Reverse(l)) && Tasks(heap, Reverse(l)) == Reverse(Tasks(heap, l))
  {
    if l != [] {
      assert l == [l[0]] + l[1..];
      TasksConcat(heap, [l[0]], l[1..]);
      assert Tasks(heap, l)[1..] == Tasks(heap, l[1..]);
      ReverseTasks(heap, l[1..]);
      assert Holds(heap, Reverse(l[1..]) + [l[0]]);
      TasksConcat(heap, Reverse(l[1..]), [l[0]]);
    }
  }

  lemma DistinctParts(a: seq<Addr>, b: seq<Addr>)
    requires Distinct(a + b)
    ensures Distinct(a) && Distinct(b)
  {
    assert multiset(a + b) == multiset(a) + multiset(b);
    forall x | x in a ensures multiset(a)[x] == 1 { assert x in a + b; }
    forall x | x in b ensures multiset(b)[x] == 1 { assert x in a + b; }
  }

  /** What following the links finds, in the order it will run, is what the lists of the invariant hold. */
  lemma OrderFollowed(s: State, ls: Lists)
    requires Linking(s, ls) && Holds(s.heap, ls.Order())
    ensures Tasks(s.heap, ls.Order()) == Backlog(s) + Shared(s)
  {
    hide Chain, Distinct, Reverse, Follow;
    DistinctParts(ls.stack + ls.left, ls.right);
    DistinctParts(ls.stack, ls.left);
    ChainFollowed(s.heap, s.itemHead, ls.stack);
    ChainFollowed(s.heap, Front(s), ls.left);
    ChainFollowed(s.heap, Rest(s), ls.right);
    ReverseTasks(s.heap, ls.stack);
    ReverseTasks(s.heap, ls.right);
    TasksConcat(s.heap, Reverse(ls.right) + ls.left, Reverse(ls.stack));
    TasksConcat(s.heap, Reverse(ls.right), ls.left);
    if !s.worker.Reversing? && !s.worker.Relinking? {
      RestEmpty(s, ls);
    }
  }

  lemma RestEmpty(s: State, ls: Lists)
    requires Linking(s, ls) && !s.worker.Reversing? && !s.worker.Relinking?
    ensures ls.right == [] && Reverse<Task>([]) == []
  {
    hide Distinct;
  }

  /**
  In every interleaving, tasks run in the order in which they were pushed, each once, and none is lost: the
  tasks pushed are those run, then those the worker holds, then those on the shared stack.
  */
  lemma TasksRunInOrder(steps: seq<Step>)
    requires IsRun(Init(), steps)
    ensures var s := Run(Init(), steps); s.pushed == s.ran + Backlog(s) + Shared(s)
  {
    hide Run, IsRun, Linking, Reverse, Follow;
    var s := Run(Init(), steps);
    var ls := Reached(steps);
    OrderFollowed(s, ls);
  }

  /** No step of any interleaving touches a message that has been freed. */
  lemma NoDanglingAccess(steps: seq<Step>, step: Step)
    requires IsRun(Init(), steps) && Enabled(Run(Init(), steps), step)
    ensures Allocated(Run(Init(), steps), step)
  {
    hide *;
    var ls := Reached(steps);
    var next := StepKeeps(Run(Init(), steps), step, ls);
  }

  function Works(n: nat): seq<Step> {
    if n == 0 then [] else [Work] + Works(n - 1)
  }

  lemma {:induction false} WorkerFinishes(s: State, ls: Lists) returns (n: nat)
    requires Inv(s, ls)
    ensures IsRun(s, Works(n)) && Run(s, Works(n)).ran == s.pushed
    decreases Remaining(s, ls)
  {
    if Quiet(s) {
      n := 0;
      assert Accounted(s, ls);
      NonEmpty(s, ls);
      ReverseNone<Addr>();
    } else {
      hide Inv;
      var next := WorkKeeps(s, ls);
      var m := WorkerFinishes(WorkerStep(s), next);
      n := m + 1;
      assert Works(n)[1..] == Works(m);
    }
  }

  /** From any reachable state, the worker left to itself runs every task that has been pushed. */
  lemma WorkerCatchesUp(steps: seq<Step>) returns (n: nat)
    requires IsRun(Init(), steps)
    ensures IsRun(Run(Init(), steps), Works(n))
    ensures Run(Run(Init(), steps), Works(n)).ran == Run(Init(), steps).pushed
  {
    hide *;
    var ls := Reached(steps);
    n := WorkerFinishes(Run(Init(), steps), ls);
  }
}
