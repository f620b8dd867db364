/**
A worker thread's task list.  Any number of threads push messages onto a linked stack with a
compare-exchange of its head; the worker takes the whole stack at once, reverses it in place and then
runs it message by message.  Every load, store, compare-exchange and exchange is a step, and a message's
address may be allocated again as soon as the message has run.
*/
module TaskQueue {

  type Addr = nat
  const NULL: Addr := 0

  /** What a message carries: its callback and payload. */
  type Task = nat

  datatype Message = Message(task: Task, next: Addr)

  /** Where a thread is inside `add_task`, with the head it loaded. */
  datatype Adder =
    | Starting(item: Addr)
    | Loaded(item: Addr, head: Addr)
    | Linked(item: Addr, head: Addr)

  /** Where the worker is inside `run_next_task` and the reversal loop. */
  datatype Worker =
    | Idle
    | Taking
    | Reversing(prev: Addr, current: Addr)
    | Relinking(prev: Addr, current: Addr, next: Addr)
    | Popping

  /** `pushed` and `ran` are history variables: tasks in the order of their successful compare-exchange, and
      in the order in which they were run. */
  datatype State = State(
    heap: map<Addr, Message>, itemHead: Addr, local: Addr, adders: map<nat, Adder>, worker: Worker,
    pushed: seq<Task>, ran: seq<Task>)

  datatype Step =
    | New(thread: nat, addr: Addr, task: Task, next: Addr)
    | Load(thread: nat)
    | Link(thread: nat)
    | CompareExchange(thread: nat)
    | Work

  ghost predicate Enabled(s: State, step: Step) {
    match step
    case New(t, addr, _, _) => t !in s.adders && addr != NULL && addr !in s.heap
    case Load(t) => t in s.adders && s.adders[t].Starting?
    case Link(t) => t in s.adders && s.adders[t].Loaded?
    case CompareExchange(t) => t in s.adders && s.adders[t].Linked?
    case Work => true
  }

  /** The addresses the step dereferences are allocated. */
  predicate Allocated(s: State, step: Step) {
    match step
    case New(_, _, _, _) => true
    case Load(t) => true
    case Link(t) => t in s.adders ==> s.adders[t].item in s.heap
    case CompareExchange(t) => t in s.adders ==> s.adders[t].item in s.heap
    case Work =>
      match s.worker
      case Reversing(_, current) => current == NULL || current in s.heap
      case Relinking(_, current, _) => current in s.heap
      case Popping => s.local in s.heap
      case _ => true
  }

  function WorkerStep(s: State): State
    requires Allocated(s, Work)
  {
    match s.worker
    case Idle =>
      if s.local != NULL then s.(worker := Popping)
      else if s.itemHead != NULL then s.(worker := Taking)
      else s
    case Taking => s.(itemHead := NULL, local := s.itemHead, worker := Reversing(NULL, s.itemHead))
    case Reversing(prev, current) =>
      if current == NULL then s.(local := prev, worker := Popping)
      else s.(worker := Relinking(prev, current, s.heap[current].next))
    case Relinking(prev, current, next) =>
      s.(heap := s.heap[current := s.heap[current].(next := prev)], worker := Reversing(current, next))
    case Popping =>
      s.(heap := s.heap - {s.local}, local := s.heap[s.local].next, worker := Idle,
         ran := s.ran + [s.heap[s.local].task])
  }

  function Apply(s: State, step: Step): State
    requires Enabled(s, step) && Allocated(s, step)
  {
    match step
    case New(t, addr, task, next) =>
      s.(heap := s.heap[addr := Message(task, next)], adders := s.adders[t := Starting(addr)])
    case Load(t) =>
      s.(adders := s.adders[t := Loaded(s.adders[t].item, s.itemHead)])
    case Link(t) =>
      var Loaded(item, head) := s.adders[t];
      s.(heap := s.heap[item := s.heap[item].(next := head)], adders := s.adders[t := Linked(item, head)])
    case CompareExchange(t) =>
      var Linked(item, head) := s.adders[t];
      if s.itemHead == head
      then s.(itemHead := item, adders := s.adders - {t}, pushed := s.pushed + [s.heap[item].task])
      else s.(adders := s.adders[t := Starting(item)])
    case Work => WorkerStep(s)
  }

  ghost predicate IsRun(s: State, steps: seq<Step>)
    decreases |steps|
  {
    steps != [] ==>
      Enabled(s, steps[0]) && Allocated(s, steps[0]) && IsRun(Apply(s, steps[0]), steps[1..])
  }

  ghost function Run(s: State, steps: seq<Step>): State
    requires IsRun(s, steps)
    decreases |steps|
  {
    if steps == [] then s else Run(Apply(s, steps[0]), steps[1..])
  }

  function Init(): State {
    State(map[], NULL, NULL, map[], Idle, [], [])
  }

  // ----- Linked lists

  /** The tasks on the list at `a`, found by following `next`. */
  function Follow(heap: map<Addr, Message>, a: Addr): seq<Task>
    decreases |heap|
  {
    if a == NULL || a !in heap then []
    else
      assert |heap - {a}| < |heap| by { Shrinks(heap, a); }
      [heap[a].task] + Follow(heap - {a}, heap[a].next)
  }

  lemma Shrinks(heap: map<Addr, Message>, a: Addr)
    requires a in heap
    ensures |heap - {a}| < |heap|
  {
    assert heap.Keys == (heap - {a}).Keys + {a};
  }

  function Reverse<T>(l: seq<T>): seq<T> {
    if l == [] then [] else Reverse(l[1..]) + [l[0]]
  }

  /** What the worker holds and has not run, in the order in which it will run it. */
  function Backlog(s: State): seq<Task> {
    match s.worker
    case Reversing(prev, current) => Reverse(Follow(s.heap, current)) + Follow(s.heap, prev)
    case Relinking(prev, current, _) => Reverse(Follow(s.heap, current)) + Follow(s.heap, prev)
    case _ => Follow(s.heap, s.local)
  }

  /** What is on the shared stack, oldest first. */
  function Shared(s: State): seq<Task> {
    Reverse(Follow(s.heap, s.itemHead))
  }
}
