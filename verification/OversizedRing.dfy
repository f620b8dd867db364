/** Oversized messages over every run of the ring buffer. */
module OversizedRing {
  import opened Bytes
  import opened Sequences
  import opened RingWriters
  import opened RingSlots
  import opened Oversized
  import opened OversizedReader
  import opened OversizedTheorems
  import T = RingBufferTheorems

  // ----- What an oversized writer leaves in the ring buffer

  predicate Increasing(mine: seq<nat>) {
    forall i, j :: 0 <= i < j < |mine| ==> mine[i] < mine[j]
  }

  /** These messages of the ring buffer are the first fragments of the job, those that are finished complete. */
  ghost predicate WritesJob(slots: seq<Slot>, mine: seq<nat>, job: Job, maxFragment: nat)
    requires maxFragment > HEADER_SIZE
  {
    var fragments := job.Emitted(maxFragment).Fragments();
    && 0 < |mine| <= |fragments| && Increasing(mine)
    && (forall i :: 0 <= i < |mine| ==> mine[i] < |slots| && slots[mine[i]].msg == FRAGMENT)
    && (forall i :: 0 <= i < |mine| && slots[mine[i]].finished ==>
        slots[mine[i]].data == fragments[i] && slots[mine[i]].size == |fragments[i]|)
    && slots[mine[0]].id == job.id
  }

  lemma {:induction false} MoreGrows(e: Emission, id: nat, maxFragment: nat, bytes: seq<byte>)
    requires maxFragment > HEADER_SIZE
    ensures var r := More(e, id, maxFragment, bytes); e.done <= r.done
    decreases |bytes|
  {
    if bytes != [] {
      var n := Min(|bytes| + ID_SIZE, maxFragment) - ID_SIZE;
      MoreGrows(Emission(e.done + [e.open], EncodeLE(id, ID_SIZE) + bytes[..n], 0), id, maxFragment, bytes[n..]);
    }
  }

  /** Fragments once finished do not change. */
  lemma {:induction false} WritingGrows(e: Emission, id: nat, maxFragment: nat, parts: seq<seq<byte>>)
    requires maxFragment > HEADER_SIZE
    ensures e.done <= WroteAll(e, id, maxFragment, parts).done
    decreases |parts|
  {
    if parts != [] {
      var n := Min(|parts[0]|, e.remainder);
      MoreGrows(Filled(e, parts[0][..n]), id, maxFragment, parts[0][n..]);
      hide More;
      WritingGrows(Wrote(e, id, maxFragment, parts[0]), id, maxFragment, parts[1..]);
    }
  }

  lemma {:induction false} WroteInTwo(e: Emission, id: nat, maxFragment: nat, a: seq<seq<byte>>, b: seq<seq<byte>>)
    requires maxFragment > HEADER_SIZE
    ensures WroteAll(e, id, maxFragment, a + b) == WroteAll(WroteAll(e, id, maxFragment, a), id, maxFragment, b)
    decreases |a|
  {
    hide Wrote;
    if a == [] {
      assert a + b == b;
    } else {
      assert (a + b)[1..] == a[1..] + b;
      WroteInTwo(Wrote(e, id, maxFragment, a[0]), id, maxFragment, a[1..], b);
    }
  }

  /** So it is while the writer is at work, the parts `done` written and those of `rest` to come. */
  lemma WriterWritesJob(slots: seq<Slot>, mine: seq<nat>, p: Progress, m: nat, maxFragment: nat,
                        done: seq<seq<byte>>, rest: seq<seq<byte>>)
    requires Writer.Writing(slots, mine, p) && maxFragment > HEADER_SIZE
    requires var job := Job(p.identifier, m, done + rest);
      Writer.EmissionOf(slots, mine, p) ==
        WroteAll(Opened(job.id, m, |job.Payload()|, maxFragment), job.id, maxFragment, done)
    ensures WritesJob(slots, mine, Job(p.identifier, m, done + rest), maxFragment)
  {
    hide Opened, WroteAll, Flatten;
    var job, e := Job(p.identifier, m, done + rest), Writer.EmissionOf(slots, mine, p);
    WroteInTwo(Opened(job.id, m, |job.Payload()|, maxFragment), job.id, maxFragment, done, rest);
    WritingGrows(e, job.id, maxFragment, rest);
    var fragments, own := job.Emitted(maxFragment).Fragments(), mine[..|mine| - 1];
    forall i | 0 <= i < |mine| && slots[mine[i]].finished
      ensures slots[mine[i]].data == fragments[i] && slots[mine[i]].size == |fragments[i]|
    {
      assert e.done[i] == slots[own[i]].data;
    }
  }

  /** And once it has finished, having written every part. */
  lemma FinishWritesJob(slots: seq<Slot>, mine: seq<nat>, p: Progress, m: nat, maxFragment: nat, parts: seq<seq<byte>>)
    requires Writer.Writing(slots, mine, p) && maxFragment > HEADER_SIZE && p.remainder == 0
    requires var job := Job(p.identifier, m, parts); Writer.EmissionOf(slots, mine, p) == job.Emitted(maxFragment)
    ensures var after := slots[p.slot := slots[p.slot].(finished := true)];
      WritesJob(after, mine, Job(p.identifier, m, parts), maxFragment)
  {
    hide Opened, WroteAll, Flatten;
    var after := slots[p.slot := slots[p.slot].(finished := true)];
    var job, e, own := Job(p.identifier, m, parts), Writer.EmissionOf(slots, mine, p), mine[..|mine| - 1];
    var fragments := job.Emitted(maxFragment).Fragments();
    forall i | 0 <= i < |mine|
      ensures after[mine[i]].data == fragments[i] && after[mine[i]].size == |fragments[i]|
    {
      if i < |mine| - 1 {
        assert e.done[i] == slots[own[i]].data;
      }
    }
  }

  /** Other writers do not disturb it. */
  lemma OthersKeepJob(before: seq<Slot>, after: seq<Slot>, mine: seq<nat>, job: Job, maxFragment: nat)
    requires maxFragment > HEADER_SIZE && WritesJob(before, mine, job, maxFragment)
    requires |before| <= |after| && forall i <- mine :: i < |before| ==> after[i] == before[i]
    ensures WritesJob(after, mine, job, maxFragment)
  {
    hide Flatten, WroteAll, Opened;
    assert forall i :: 0 <= i < |mine| ==> mine[i] in mine;
  }

  // ----- Whose fragment each message is

  /** Every fragment in the ring buffer is one of some job's, and of no other's. */
  ghost predicate AllWritten(slots: seq<Slot>, mines: seq<seq<nat>>, jobs: seq<Job>, maxFragment: nat) {
    && |mines| == |jobs|
    && (forall k :: 0 <= k < |jobs| ==>
        Writable(jobs[k], maxFragment) && WritesJob(slots, mines[k], jobs[k], maxFragment))
    && (forall j, k, i :: 0 <= j < k < |mines| && i in mines[j] ==> i !in mines[k])
    && (forall i :: 0 <= i < |slots| && slots[i].msg == FRAGMENT ==> Owned(mines, i))
  }

  ghost predicate Owned(mines: seq<seq<nat>>, i: nat) {
    exists k :: 0 <= k < |mines| && i in mines[k]
  }

  ghost function Owner(mines: seq<seq<nat>>, i: nat): (k: nat)
    requires Owned(mines, i)
    ensures k < |mines| && i in mines[k]
  {
    var k :| 0 <= k < |mines| && i in mines[k];
    k
  }

  /** The owners of the fragments among the first `n` messages. */
  ghost function Owners(slots: seq<Slot>, mines: seq<seq<nat>>, n: nat): seq<nat>
    requires n <= |slots| && forall i :: 0 <= i < |slots| && slots[i].msg == FRAGMENT ==> Owned(mines, i)
  {
    if n == 0 then []
    else Owners(slots, mines, n - 1) + if slots[n - 1].msg == FRAGMENT then [Owner(mines, n - 1)] else []
  }

  /** How many of these come before `n`. */
  function Rank(mine: seq<nat>, n: nat): nat {
    if mine == [] || mine[0] >= n then 0 else 1 + Rank(mine[1..], n)
  }

  lemma {:induction false} RankStep(mine: seq<nat>, n: nat)
    requires Increasing(mine)
    ensures Rank(mine, n + 1) == Rank(mine, n) + if n in mine then 1 else 0
    ensures Rank(mine, n) <= |mine|
    decreases |mine|
  {
    if mine != [] {
      RankStep(mine[1..], n);
      assert forall j :: 0 < j < |mine| ==> mine[0] < mine[j];
    }
  }

  lemma {:induction false} RankAt(mine: seq<nat>, r: nat)
    requires Increasing(mine) && r < |mine|
    ensures Rank(mine, mine[r]) == r
    decreases |mine|
  {
    if r > 0 {
      RankAt(mine[1..], r - 1);
    }
  }

  lemma {:induction false} OwnersCounted(slots: seq<Slot>, mines: seq<seq<nat>>, jobs: seq<Job>, maxFragment: nat,
                                         n: nat, k: nat)
    requires AllWritten(slots, mines, jobs, maxFragment) && n <= |slots| && k < |jobs|
    ensures Count(Owners(slots, mines, n), k) == Rank(mines[k], n)
    decreases n
  {
    hide WritesJob, Writable, Count, Rank, Owners, Owned;
    OwnersOf(slots, mines, jobs, maxFragment, n);
    if n > 0 {
      OwnersCounted(slots, mines, jobs, maxFragment, n - 1, k);
      FragmentOf(slots, mines, jobs, maxFragment, n - 1, k);
      RankStep(mines[k], n - 1);
      if slots[n - 1].msg == FRAGMENT {
        Counted(Owners(slots, mines, n - 1), Owner(mines, n - 1));
      }
    } else {
      NoneBefore(mines[k]);
      NothingCounted(k);
    }
  }

  lemma NothingCounted(k: nat)
    ensures Count([], k) == 0
  {
  }

  /** One message more. */
  lemma OwnersOf(slots: seq<Slot>, mines: seq<seq<nat>>, jobs: seq<Job>, maxFragment: nat, n: nat)
    requires AllWritten(slots, mines, jobs, maxFragment) && n <= |slots|
    ensures n == 0 ==> Owners(slots, mines, n) == []
    ensures n > 0 && slots[n - 1].msg != FRAGMENT ==> Owners(slots, mines, n) == Owners(slots, mines, n - 1)
    ensures n > 0 && slots[n - 1].msg == FRAGMENT ==>
      && Owned(mines, n - 1)
      && Owners(slots, mines, n) == Owners(slots, mines, n - 1) + [Owner(mines, n - 1)]
  {
    hide WritesJob, Writable;
  }

  lemma {:induction false} OwnersRange(slots: seq<Slot>, mines: seq<seq<nat>>, jobs: seq<Job>, maxFragment: nat, n: nat)
    requires AllWritten(slots, mines, jobs, maxFragment) && n <= |slots|
    ensures forall i :: 0 <= i < |Owners(slots, mines, n)| ==> Owners(slots, mines, n)[i] < |jobs|
    decreases n
  {
    hide WritesJob, Writable, Owners, Owned;
    OwnersOf(slots, mines, jobs, maxFragment, n);
    if n > 0 {
      OwnersRange(slots, mines, jobs, maxFragment, n - 1);
    }
  }

  lemma NoneBefore(mine: seq<nat>)
    ensures Rank(mine, 0) == 0
  {
  }

  lemma FragmentOf(slots: seq<Slot>, mines: seq<seq<nat>>, jobs: seq<Job>, maxFragment: nat, i: nat, k: nat)
    requires AllWritten(slots, mines, jobs, maxFragment) && i < |slots| && k < |jobs|
    ensures Increasing(mines[k])
    ensures slots[i].msg == FRAGMENT ==> Owned(mines, i)
    ensures i in mines[k] <==> slots[i].msg == FRAGMENT && Owner(mines, i) == k
  {
    assert WritesJob(slots, mines[k], jobs[k], maxFragment);
    hide Job.Emitted;
    if i in mines[k] {
      var r :| 0 <= r < |mines[k]| && mines[k][r] == i;
      assert slots[mines[k][r]].msg == FRAGMENT;
      var o := Owner(mines, i);
      assert !(o < k) && !(k < o);
    }
  }

  lemma {:induction false} RankAll(mine: seq<nat>, n: nat)
    requires forall i :: 0 <= i < |mine| ==> mine[i] < n
    ensures Rank(mine, n) == |mine|
  {
    if mine != [] {
      RankAll(mine[1..], n);
    }
  }

  // ----- The reader at the other end

  /** What the reader makes of the messages handed to it: it takes the fragments among them. */
  function Fed(delivered: seq<R.Delivery>): (Reader, bool) {
    if delivered == [] then (Reader(map[], []), true)
    else
      var (r, ok) := Fed(delivered[..|delivered| - 1]);
      var last := delivered[|delivered| - 1];
      if last.msg == FRAGMENT then var (next, good) := Received(r, last.bytes); (next, ok && good) else (r, ok)
  }

  ghost predicate AllSent(jobs: seq<Job>, sents: seq<Sent>, maxFragment: nat) {
    && |sents| == |jobs|
    && forall k :: 0 <= k < |jobs| ==> Writable(jobs[k], maxFragment) && SentFor(jobs[k], maxFragment, sents[k])
  }

  lemma OwnersInterleave(slots: seq<Slot>, mines: seq<seq<nat>>, jobs: seq<Job>, maxFragment: nat,
                         sents: seq<Sent>, n: nat)
    requires AllWritten(slots, mines, jobs, maxFragment) && AllSent(jobs, sents, maxFragment) && n <= |slots|
    ensures Interleaving(sents, Owners(slots, mines, n))
  {
    hide Owners, Count, Rank, Job.Emitted, Sent.Fragment;
    OwnersRange(slots, mines, jobs, maxFragment, n);
    forall k | 0 <= k < |jobs|
      ensures Count(Owners(slots, mines, n), k) <= |sents[k].pieces|
    {
      OwnersCounted(slots, mines, jobs, maxFragment, n, k);
      assert WritesJob(slots, mines[k], jobs[k], maxFragment) && SentFor(jobs[k], maxFragment, sents[k]);
      RankStep(mines[k], n);
    }
  }

  /** A finished fragment is the next one of its job. */
  lemma NextFragmentOf(slots: seq<Slot>, mines: seq<seq<nat>>, jobs: seq<Job>, maxFragment: nat, sents: seq<Sent>, n: nat)
    requires AllWritten(slots, mines, jobs, maxFragment) && AllSent(jobs, sents, maxFragment) && n < |slots|
    requires slots[n].msg == FRAGMENT && slots[n].finished
    ensures var k, before := Owner(mines, n), Owners(slots, mines, n);
      && k < |sents| && Count(before, k) < |sents[k].pieces|
      && slots[n].data == sents[k].Fragment(Count(before, k)) && slots[n].size == |slots[n].data|
  {
    var k := Owner(mines, n);
    OwnersCounted(slots, mines, jobs, maxFragment, n, k);
    assert WritesJob(slots, mines[k], jobs[k], maxFragment) && SentFor(jobs[k], maxFragment, sents[k]);
    hide Owners, Count, Rank, Job.Emitted, Sent.Fragment, Sent.Payload;
    var r :| 0 <= r < |mines[k]| && mines[k][r] == n;
    RankAt(mines[k], r);
  }

  /** The first `n` messages were finished and handed over as they were written. */
  ghost predicate HandedOver(slots: seq<Slot>, delivered: seq<R.Delivery>) {
    && |delivered| <= |slots|
    && forall i :: 0 <= i < |delivered| ==>
      && slots[i].finished && |slots[i].data| <= slots[i].size
      && delivered[i] == R.Delivery(slots[i].msg, slots[i].data + Zeros(slots[i].size - |slots[i].data|))
  }

  lemma {:induction false} FedReads(slots: seq<Slot>, mines: seq<seq<nat>>, jobs: seq<Job>, maxFragment: nat,
                                    sents: seq<Sent>, delivered: seq<R.Delivery>)
    requires AllWritten(slots, mines, jobs, maxFragment) && AllSent(jobs, sents, maxFragment)
    requires HandedOver(slots, delivered)
    ensures Interleaving(sents, Owners(slots, mines, |delivered|))
    ensures Fed(delivered) == Reads(sents, Owners(slots, mines, |delivered|))
    decreases |delivered|
  {
    hide AllWritten, AllSent, HandedOver, Owners, Reads, Received, Interleaving;
    var n := |delivered|;
    Handed(slots, delivered);
    OwnersInterleave(slots, mines, jobs, maxFragment, sents, n);
    OwnersOf(slots, mines, jobs, maxFragment, n);
    if n == 0 {
      NothingRead(sents);
    } else {
      FedReads(slots, mines, jobs, maxFragment, sents, delivered[..n - 1]);
      if slots[n - 1].msg == FRAGMENT {
        FedFragment(slots, mines, jobs, maxFragment, sents, delivered);
      }
    }
  }

  lemma Handed(slots: seq<Slot>, delivered: seq<R.Delivery>)
    requires HandedOver(slots, delivered)
    ensures |delivered| <= |slots|
    ensures delivered != [] ==> var n := |delivered| - 1;
      && HandedOver(slots, delivered[..n]) && slots[n].finished && delivered[n].msg == slots[n].msg
      && (slots[n].size == |slots[n].data| ==> delivered[n].bytes == slots[n].data)
  {
    if delivered != [] {
      var n := |delivered| - 1;
      assert slots[n].data + Zeros(0) == slots[n].data;
    }
  }

  lemma NothingRead(sents: seq<Sent>)
    requires Interleaving(sents, [])
    ensures Reads(sents, []) == (Reader(map[], []), true)
  {
  }

  lemma FedFragment(slots: seq<Slot>, mines: seq<seq<nat>>, jobs: seq<Job>, maxFragment: nat,
                    sents: seq<Sent>, delivered: seq<R.Delivery>)
    requires AllWritten(slots, mines, jobs, maxFragment) && AllSent(jobs, sents, maxFragment)
    requires HandedOver(slots, delivered) && delivered != [] && slots[|delivered| - 1].msg == FRAGMENT
    requires var before := Owners(slots, mines, |delivered| - 1);
      Interleaving(sents, before) && Fed(delivered[..|delivered| - 1]) == Reads(sents, before)
    requires Interleaving(sents, Owners(slots, mines, |delivered|))
    ensures Fed(delivered) == Reads(sents, Owners(slots, mines, |delivered|))
  {
    hide WritesJob, Writable, Owned, AllSent, HandedOver, Owners, Reads, Received, Interleaving, Count, Sent.Fragment;
    var n := |delivered| - 1;
    Handed(slots, delivered);
    OwnersOf(slots, mines, jobs, maxFragment, n + 1);
    NextFragmentOf(slots, mines, jobs, maxFragment, sents, n);
    ReadsStep(sents, Owners(slots, mines, n), Owner(mines, n));
  }

  lemma RingHandsOver(s: R.State, actions: seq<R.Action>)
    requires R.Init(s) && R.IsRun(s, actions)
    ensures var t := R.Run(s, actions);
      HandedOver(Slots(t.log), t.delivered) && WellFormed(Slots(t.log), t.sh.tail)
  {
    hide R.Init, RingBufferInvariant.Inv;
    T.MessagesDelivered(s, actions);
    RingBufferDelivery.InitSafe(s);
    RingBufferDelivery.RunSafe(s, actions);
    SlotsWellFormed(R.Run(s, actions));
  }

  /** Jobs begin with different reservations, so their identifiers differ. */
  lemma JobsApart(slots: seq<Slot>, tail: nat, mines: seq<seq<nat>>, jobs: seq<Job>, maxFragment: nat, j: nat, k: nat)
    requires WellFormed(slots, tail) && AllWritten(slots, mines, jobs, maxFragment) && j < k < |jobs|
    ensures jobs[j].id != jobs[k].id
  {
    assert WritesJob(slots, mines[j], jobs[j], maxFragment) && WritesJob(slots, mines[k], jobs[k], maxFragment);
    hide Job.Emitted;
    assert mines[j][0] in mines[j] && mines[k][0] in mines[k];
  }

  /**
  Over every run of the ring buffer, in which any number of oversized writers have left their fragments: the
  reader, fed what the ring buffer hands over, has dispatched exactly the messages whose last fragment has been
  handed over, each with the type and the bytes it was written with; and each message once, when all have been.
  */
  lemma RingMessagesArrive(s: R.State, actions: seq<R.Action>, mines: seq<seq<nat>>, jobs: seq<Job>, maxFragment: nat)
    returns (sents: seq<Sent>, order: seq<nat>)
    requires R.Init(s) && R.IsRun(s, actions)
    requires AllWritten(Slots(R.Run(s, actions).log), mines, jobs, maxFragment)
    ensures AllSent(jobs, sents, maxFragment) && Interleaving(sents, order)
    ensures var t := R.Run(s, actions);
      |t.delivered| <= |t.log| && order == Owners(Slots(t.log), mines, |t.delivered|)
    ensures Fed(R.Run(s, actions).delivered) == Reads(sents, order) && Right(sents, order)
    ensures AllArrive(sents, order) ==> ArrivesRight(jobs, sents, order)
  {
    var t := R.Run(s, actions);
    var slots := Slots(t.log);
    RingHandsOver(s, actions);
    hide R.Init, R.IsRun, R.Run;
    sents := AllFragments(jobs, maxFragment);
    order := Owners(slots, mines, |t.delivered|);
    FedReads(slots, mines, jobs, maxFragment, sents, t.delivered);
    forall j, k | 0 <= j < k < |jobs|
      ensures jobs[j].id != jobs[k].id
    {
      JobsApart(slots, t.sh.tail, mines, jobs, maxFragment, j, k);
    }
    SentsRight(jobs, sents, maxFragment, order);
  }

  lemma RankOfAll(slots: seq<Slot>, mine: seq<nat>, job: Job, maxFragment: nat)
    requires maxFragment > HEADER_SIZE && WritesJob(slots, mine, job, maxFragment)
    ensures Rank(mine, |slots|) == |mine|
  {
    hide Rank, Job.Emitted, Increasing;
    RankAll(mine, |slots|);
  }

  lemma AllCounted(slots: seq<Slot>, mines: seq<seq<nat>>, jobs: seq<Job>, maxFragment: nat, k: nat)
    requires AllWritten(slots, mines, jobs, maxFragment) && k < |jobs|
    ensures Count(Owners(slots, mines, |slots|), k) == |mines[k]|
  {
    hide Owners, Owned, Count, Rank, WritesJob;
    OwnersCounted(slots, mines, jobs, maxFragment, |slots|, k);
    RankOfAll(slots, mines[k], jobs[k], maxFragment);
  }

  /** Every message has arrived once all its fragments are in the ring buffer and all that is there is handed over. */
  lemma AllHandedOver(slots: seq<Slot>, mines: seq<seq<nat>>, jobs: seq<Job>, maxFragment: nat, sents: seq<Sent>)
    requires AllWritten(slots, mines, jobs, maxFragment) && |sents| == |jobs| == |mines|
    requires forall k :: 0 <= k < |jobs| ==> |mines[k]| == |sents[k].pieces|
    ensures AllArrive(sents, Owners(slots, mines, |slots|))
  {
    hide Owners, Owned, Count, WritesJob, Writable;
    forall k | 0 <= k < |jobs|
      ensures Count(Owners(slots, mines, |slots|), k) == |sents[k].pieces|
    {
      AllCounted(slots, mines, jobs, maxFragment, k);
    }
  }

  lemma SentsRight(jobs: seq<Job>, sents: seq<Sent>, maxFragment: nat, order: seq<nat>)
    requires AllSent(jobs, sents, maxFragment) && Interleaving(sents, order)
    requires forall j, k :: 0 <= j < k < |jobs| ==> jobs[j].id != jobs[k].id
    ensures Right(sents, order)
    ensures AllArrive(sents, order) ==> ArrivesRight(jobs, sents, order)
  {
    hide Reads, Completed, Count, Apart, Right, Deliveries, Job.Emitted, Job.Payload, Writable;
    SentsSendable(jobs, sents, maxFragment);
    UniqueApart(sents, order);
    hide Interleaving, Sendable, AllArrive;
    Reassembled(sents, order);
    if AllArrive(sents, order) {
      EachDispatchedOnce(sents, order);
      DeliveriesOf(jobs, sents, maxFragment, Completed(sents, order));
    }
  }
}
