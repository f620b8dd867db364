/**
The inductive invariant of the task list: three disjoint linked lists (the shared stack, and the worker's
list split into the part already reversed and the part still to reverse) hold every pushed task that has
not run, and the messages of threads still in `add_task` are on none of them.
*/
module TaskQueueInvariant {
  import opened TaskQueue

  /** The addresses `l` are linked in this order, starting at `a` and ending in null. */
  ghost predicate Chain(heap: map<Addr, Message>, a: Addr, l: seq<Addr>)
    decreases |l|
  {
    if l == [] then a == NULL
    else a == l[0] && a != NULL && a in heap && Chain(heap, heap[a].next, l[1..])
  }

  ghost predicate Distinct(l: seq<Addr>) {
    forall x <- l :: multiset(l)[x] == 1
  }

  ghost predicate Holds(heap: map<Addr, Message>, l: seq<Addr>) {
    forall i :: 0 <= i < |l| ==> l[i] in heap
  }

  ghost function Tasks(heap: map<Addr, Message>, l: seq<Addr>): (r: seq<Task>)
    requires Holds(heap, l)
    ensures |r| == |l|
  {
    seq(|l|, i requires 0 <= i < |l| => heap[l[i]].task)
  }

  /** The lists: the shared stack, what the worker has reversed, what it has still to reverse. */
  datatype Lists = Lists(stack: seq<Addr>, left: seq<Addr>, right: seq<Addr>) {
    function All(): seq<Addr> {
      stack + left + right
    }

    /** The order in which the messages will run. */
    function Order(): seq<Addr> {
      Reverse(right) + left + Reverse(stack)
    }
  }

  function Front(s: State): Addr {
    if s.worker.Reversing? || s.worker.Relinking? then s.worker.prev else s.local
  }

  function Rest(s: State): Addr {
    if s.worker.Reversing? || s.worker.Relinking? then s.worker.current else NULL
  }

  ghost predicate Linking(s: State, ls: Lists) {
    && Chain(s.heap, s.itemHead, ls.stack)
    && Chain(s.heap, Front(s), ls.left)
    && Chain(s.heap, Rest(s), ls.right)
    && Distinct(ls.All())
  }

  ghost predicate AddersApart(s: State, all: seq<Addr>) {
    && (forall t <- s.adders :: s.adders[t].item != NULL && s.adders[t].item in s.heap && s.adders[t].item !in all)
    && (forall t <- s.adders, u <- s.adders :: t != u ==> s.adders[t].item != s.adders[u].item)
    && (forall t <- s.adders :: s.adders[t].Linked? ==> s.heap[s.adders[t].item].next == s.adders[t].head)
  }

  ghost predicate WorkerSane(s: State) {
    match s.worker
    case Idle => true
    case Taking => s.local == NULL && s.itemHead != NULL
    case Reversing(prev, current) => prev != NULL || current != NULL
    case Relinking(prev, current, next) => current in s.heap && current != NULL && next == s.heap[current].next
    case Popping => s.local != NULL
  }

  ghost predicate Accounted(s: State, ls: Lists) {
    Holds(s.heap, ls.Order()) && s.pushed == s.ran + Tasks(s.heap, ls.Order())
  }

  ghost predicate Inv(s: State, ls: Lists) {
    Linking(s, ls) && AddersApart(s, ls.All()) && WorkerSane(s) && Accounted(s, ls)
  }

  // ----- Lists

  lemma {:induction false} ChainHolds(heap: map<Addr, Message>, a: Addr, l: seq<Addr>)
    requires Chain(heap, a, l)
    ensures Holds(heap, l) && NULL !in l && (a == NULL <==> l == [])
    decreases |l|
  {
    if l != [] {
      ChainHolds(heap, heap[a].next, l[1..]);
      assert l == [l[0]] + l[1..];
    }
  }

  lemma ChainRest(heap: map<Addr, Message>, a: Addr, l: seq<Addr>)
    requires Chain(heap, a, l) && l != []
    ensures a == l[0] && a in heap && Chain(heap, heap[a].next, l[1..])
  {
  }

  lemma ChainCons(heap: map<Addr, Message>, a: Addr, l: seq<Addr>)
    requires a in heap && a != NULL && Chain(heap, heap[a].next, l)
    ensures Chain(heap, a, [a] + l)
  {
    assert ([a] + l)[1..] == l;
  }

  /** A list is untouched by changes elsewhere in the heap. */
  lemma {:induction false} ChainFrame(h: map<Addr, Message>, g: map<Addr, Message>, a: Addr, l: seq<Addr>)
    requires Chain(h, a, l)
    requires forall x <- l :: x in h && x in g && g[x] == h[x]
    ensures Chain(g, a, l)
    decreases |l|
  {
    if l != [] {
      assert l[0] in l;
      assert forall x <- l[1..] :: x in l;
      ChainFrame(h, g, h[a].next, l[1..]);
    }
  }

  lemma {:induction false} ReverseMembers<T>(l: seq<T>, x: T)
    ensures |Reverse(l)| == |l|
    ensures x in Reverse(l) <==> x in l
  {
    if l != [] {
      ReverseMembers(l[1..], x);
      assert l == [l[0]] + l[1..];
    }
  }

  lemma {:induction false} ReverseConcat<T>(a: seq<T>, b: seq<T>)
    ensures Reverse(a + b) == Reverse(b) + Reverse(a)
  {
    if a == [] {
      assert a + b == b;
      assert Reverse(b) + [] == Reverse(b);
    } else {
      assert (a + b)[1..] == a[1..] + b;
      ReverseConcat(a[1..], b);
      assert (Reverse(b) + Reverse(a[1..])) + [a[0]] == Reverse(b) + (Reverse(a[1..]) + [a[0]]);
    }
  }

  lemma HoldsIn(heap: map<Addr, Message>, l: seq<Addr>)
    ensures Holds(heap, l) <==> forall x <- l :: x in heap
  {
  }

  lemma LinkedHolds(s: State, ls: Lists)
    requires Linking(s, ls)
    ensures Holds(s.heap, ls.All()) && NULL !in ls.All()
    ensures s.itemHead == NULL <==> ls.stack == []
    ensures Front(s) == NULL <==> ls.left == []
    ensures Rest(s) == NULL <==> ls.right == []
  {
    hide Chain;
    ChainHolds(s.heap, s.itemHead, ls.stack);
    ChainHolds(s.heap, Front(s), ls.left);
    ChainHolds(s.heap, Rest(s), ls.right);
  }

  /** Changing messages that are on no list changes nothing about the lists. */
  lemma HeapFrame(s: State, t: State, ls: Lists)
    requires Linking(s, ls)
    requires t.itemHead == s.itemHead && Front(t) == Front(s) && Rest(t) == Rest(s)
    requires forall x <- ls.All() :: x in s.heap ==> x in t.heap && t.heap[x] == s.heap[x]
    ensures Linking(t, ls)
  {
    hide Chain;
    LinkedHolds(s, ls);
    HoldsIn(s.heap, ls.All());
    assert forall x <- ls.stack :: x in ls.All();
    assert forall x <- ls.left :: x in ls.All();
    assert forall x <- ls.right :: x in ls.All();
    ChainFrame(s.heap, t.heap, s.itemHead, ls.stack);
    ChainFrame(s.heap, t.heap, Front(s), ls.left);
    ChainFrame(s.heap, t.heap, Rest(s), ls.right);
  }

  lemma TasksFrame(h: map<Addr, Message>, g: map<Addr, Message>, l: seq<Addr>)
    requires Holds(h, l)
    requires forall x <- l :: x in h ==> x in g && g[x].task == h[x].task
    ensures Holds(g, l) && Tasks(g, l) == Tasks(h, l)
  {
    assert forall i :: 0 <= i < |l| ==> l[i] in l;
  }

  lemma TasksConcat(h: map<Addr, Message>, a: seq<Addr>, b: seq<Addr>)
    requires Holds(h, a + b)
    ensures Holds(h, a) && Holds(h, b)
    ensures Tasks(h, a + b) == Tasks(h, a) + Tasks(h, b)
  {
    assert forall i :: 0 <= i < |a| ==> a[i] == (a + b)[i];
    assert forall i :: 0 <= i < |b| ==> b[i] == (a + b)[|a| + i];
  }

  lemma AccountedFrame(s: State, t: State, ls: Lists)
    requires Accounted(s, ls)
    requires t.pushed == s.pushed && t.ran == s.ran
    requires forall x <- s.heap :: x in t.heap && t.heap[x].task == s.heap[x].task
    ensures Accounted(t, ls)
  {
    hide Reverse;
    TasksFrame(s.heap, t.heap, ls.Order());
  }
}
