/** Fragments written by any number of writers, interleaved in any way, come out as the messages sent. */
module OversizedTheorems {
  import opened Bytes
  import opened Sequences
  import opened Oversized
  import opened OversizedReader

  // ----- The reader

  lemma {:induction false} CompletedOnce(sents: seq<Sent>, order: seq<nat>, k: nat)
    requires Sendable(sents) && Interleaving(sents, order) && k < |sents|
    ensures forall i :: 0 <= i < |Completed(sents, order)| ==> Completed(sents, order)[i] < |sents|
    ensures Count(Completed(sents, order), k) == if Count(order, k) == |sents[k].pieces| then 1 else 0
    decreases |order|
  {
    if order != [] {
      var before, last := order[..|order| - 1], order[|order| - 1];
      Shorter(sents, order);
      CompletedOnce(sents, before, k);
      hide Interleaving, Sendable;
      Counted(Completed(sents, before), last);
    }
  }

  lemma ReadsStep(sents: seq<Sent>, before: seq<nat>, k: nat)
    requires Interleaving(sents, before) && Interleaving(sents, before + [k])
    ensures k < |sents| && Count(before, k) < |sents[k].pieces|
    ensures var (r, ok) := Reads(sents, before);
      var (next, good) := Received(r, sents[k].Fragment(Count(before, k)));
      Reads(sents, before + [k]) == (next, ok && good)
    ensures Completed(sents, before + [k]) ==
      Completed(sents, before) + if Count(before, k) + 1 == |sents[k].pieces| then [k] else []
  {
    LastCounted(sents, before, k);
    Counted(before, k);
    hide Interleaving, Received, Count, Sent.Fragment;
    var order := before + [k];
    assert order[..|order| - 1] == before && order[|order| - 1] == k;
  }

  ghost predicate ReadRight(sents: seq<Sent>, order: seq<nat>, r: Reader, ok: bool, completed: seq<nat>)
    requires Interleaving(sents, order)
  {
    && ok
    && InProgress(sents, order, r.partials)
    && (forall i :: 0 <= i < |completed| ==> completed[i] < |sents|)
    && r.dispatched == Deliveries(sents, completed)
  }

  lemma StepReadRight(sents: seq<Sent>, before: seq<nat>, k: nat, r: Reader, completed: seq<nat>)
    requires Sendable(sents) && Interleaving(sents, before) && Interleaving(sents, before + [k])
    requires ReadRight(sents, before, r, true, completed) && Alone(sents, before, k)
    ensures k < |sents| && Count(before, k) < |sents[k].pieces|
    ensures var (next, ok) := Received(r, sents[k].Fragment(Count(before, k)));
      ReadRight(sents, before + [k], next, ok,
        completed + if Count(before, k) + 1 == |sents[k].pieces| then [k] else [])
  {
    hide Interleaving, Sendable, InProgress, Received, Count, Flatten, Sent.Fragment, Alone;
    StepInProgress(sents, before, k, r);
  }

  /** The reader has done right by the fragments so far: it has not thrown, it has in the making what has begun and
      not ended, and it has dispatched what has ended. */
  ghost predicate Right(sents: seq<Sent>, order: seq<nat>)
    requires Interleaving(sents, order)
  {
    ReadRight(sents, order, Reads(sents, order).0, Reads(sents, order).1, Completed(sents, order))
  }

  /** What the reader has done after any part of any interleaving, if messages in progress at once have different
      identifiers. */
  lemma {:induction false} Reassembled(sents: seq<Sent>, order: seq<nat>)
    requires Sendable(sents) && Interleaving(sents, order) && Apart(sents, order)
    ensures Right(sents, order)
    decreases |order|
  {
    if order != [] {
      var before, k := order[..|order| - 1], order[|order| - 1];
      Shorter(sents, order);
      assert order == before + [k];
      Reassembled(sents, before);
      OneMore(sents, before, k);
    }
  }

  lemma OneMore(sents: seq<Sent>, before: seq<nat>, k: nat)
    requires Sendable(sents) && Interleaving(sents, before) && Interleaving(sents, before + [k])
    requires Right(sents, before) && Alone(sents, before, k)
    ensures Right(sents, before + [k])
  {
    hide Reads, Completed, Alone, Sendable, Interleaving, Received, InProgress, Count, Deliveries, Sent.Fragment;
    ReadsStep(sents, before, k);
    StepReadRight(sents, before, k, Reads(sents, before).0, Completed(sents, before));
  }

  /** The fragments of a message that shares the identifier of one in progress are not read right. */
  lemma NotAlone(sents: seq<Sent>, before: seq<nat>, k: nat)
    requires Sendable(sents) && Interleaving(sents, before) && Interleaving(sents, before + [k])
    requires Right(sents, before) && AllApart(sents, before) && k < |sents| && !Alone(sents, before, k)
    ensures !Right(sents, before + [k])
  {
    LastCounted(sents, before, k);
    var j :| 0 <= j < |sents| && j != k && Begun(sents, before, j) && sents[j].id == sents[k].id;
    assert !Begun(sents, before, k);
    hide Reads, Completed, Sendable, Interleaving, Received, InProgress, Count, Deliveries, Sent.Fragment;
    ReadsStep(sents, before, k);
    MistakenFragment(sents, before, j, k, Reads(sents, before).0);
  }

  /** The reader does right after every fragment. */
  ghost predicate AlwaysRight(sents: seq<Sent>, order: seq<nat>)
    requires Interleaving(sents, order)
    decreases |order|
  {
    Right(sents, order) && (order != [] ==> (Shorter(sents, order); AlwaysRight(sents, order[..|order| - 1])))
  }

  /**
  The reader does right by every fragment of an interleaving if and only if messages in progress at once have
  different identifiers.
  */
  lemma {:induction false} RightIffApart(sents: seq<Sent>, order: seq<nat>)
    requires Sendable(sents) && Interleaving(sents, order)
    ensures AlwaysRight(sents, order) <==> Apart(sents, order)
    decreases |order|
  {
    if order == [] {
      Reassembled(sents, order);
    } else {
      var before, k := order[..|order| - 1], order[|order| - 1];
      Shorter(sents, order);
      RightIffApart(sents, before);
      assert order == before + [k];
      if Apart(sents, before) {
        ApartAll(sents, before);
        Reassembled(sents, before);
        hide Right, Alone, AllApart, Sendable, Interleaving;
        if Alone(sents, before, k) {
          OneMore(sents, before, k);
        } else {
          NotAlone(sents, before, k);
        }
      }
    }
  }

  /**
  When every fragment has arrived, in whatever interleaving, each message has been dispatched exactly once,
  whole and with its type, nothing is left in the making, and the reader never threw.
  */
  lemma EachDispatchedOnce(sents: seq<Sent>, order: seq<nat>)
    requires Sendable(sents) && Interleaving(sents, order) && Apart(sents, order)
    requires AllArrive(sents, order)
    ensures Reads(sents, order).1 && Reads(sents, order).0.partials == map[]
    ensures forall i :: 0 <= i < |Completed(sents, order)| ==> Completed(sents, order)[i] < |sents|
    ensures forall k :: 0 <= k < |sents| ==> Count(Completed(sents, order), k) == 1
    ensures Reads(sents, order).0.dispatched == Deliveries(sents, Completed(sents, order))
  {
    hide Reads, Completed, Deliveries, Count, Sendable, Interleaving, Apart;
    Reassembled(sents, order);
    forall k | 0 <= k < |sents|
      ensures Count(Completed(sents, order), k) == 1
    {
      CompletedOnce(sents, order, k);
    }
    var partials := Reads(sents, order).0.partials;
    assert forall id :: id !in partials;
  }

  /** What has been dispatched is the other messages that are complete; of message `k` the reader holds exactly what
      has arrived. */
  ghost predicate Held(sents: seq<Sent>, order: seq<nat>, k: nat)
    requires Interleaving(sents, order) && k < |sents| && Count(order, k) <= |sents[k].pieces|
  {
    var (r, ok) := Reads(sents, order);
    var completed, s := Completed(sents, order), sents[k];
    && ok && k !in completed && (forall i :: 0 <= i < |completed| ==> completed[i] < |sents|)
    && r.dispatched == Deliveries(sents, completed)
    && (0 < Count(order, k) ==>
      s.id in r.partials && r.partials[s.id] == Partial(s.m, |s.Payload()|, s.Prefix(Count(order, k))))
  }

  /** A message some of whose fragments never come is never dispatched, and stays in the making for ever. */
  lemma IncompleteNeverDispatched(sents: seq<Sent>, order: seq<nat>, k: nat)
    requires Sendable(sents) && Interleaving(sents, order) && Apart(sents, order) && k < |sents|
    requires Count(order, k) < |sents[k].pieces|
    ensures Held(sents, order, k)
  {
    Reassembled(sents, order);
    CompletedOnce(sents, order, k);
    hide Reads, Completed, Deliveries, Sendable, Apart, Sent.Payload, Flatten;
    NotCounted(Completed(sents, order), k);
  }

  lemma NotCounted(order: seq<nat>, k: nat)
    requires Count(order, k) == 0
    ensures k !in order
  {
  }

  // ----- The writer

  function Piece(id: nat, m: nat, total: nat, pieces: seq<seq<byte>>, i: nat): seq<byte>
    requires i < |pieces|
  {
    (if i == 0 then Header(id, m, total) else EncodeLE(id, ID_SIZE)) + pieces[i]
  }

  /** The fragments emitted so far carry the given pieces, fill the first fragment first, and respect the limit. */
  ghost predicate Carries(e: Emission, id: nat, m: nat, total: nat, maxFragment: nat, pieces: seq<seq<byte>>) {
    && |pieces| == |e.Fragments()| > 0
    && (forall i :: 0 <= i < |pieces| ==> e.Fragments()[i] == Piece(id, m, total, pieces, i))
    && (forall i :: 0 <= i < |pieces| ==> |e.Fragments()[i]| <= maxFragment)
    && (forall i :: 0 < i < |pieces| ==> pieces[i] != [])
    && (|pieces| == 1 ==> |pieces[0]| + e.remainder == maxFragment - HEADER_SIZE)
    && (|pieces| > 1 ==> |pieces[0]| == maxFragment - HEADER_SIZE && e.remainder == 0)
  }

  lemma OpenedCarries(id: nat, m: nat, total: nat, maxFragment: nat)
    requires maxFragment > HEADER_SIZE
    ensures Carries(Opened(id, m, total, maxFragment), id, m, total, maxFragment, [[]])
    ensures Flatten<byte>([[]]) == []
  {
    hide Header;
    assert Header(id, m, total) + [] == Header(id, m, total);
  }

  lemma FilledCarries(e: Emission, id: nat, m: nat, total: nat, maxFragment: nat,
    pieces: seq<seq<byte>>, bytes: seq<byte>)
    returns (next: seq<seq<byte>>)
    requires Carries(e, id, m, total, maxFragment, pieces) && |bytes| <= e.remainder && maxFragment > HEADER_SIZE
    ensures Carries(Filled(e, bytes), id, m, total, maxFragment, next)
    ensures Flatten(next) == Flatten(pieces) + bytes
  {
    hide Header, EncodeLE;
    if |pieces| == 1 {
      next := [pieces[0] + bytes];
      assert Header(id, m, total) + (pieces[0] + bytes) == Header(id, m, total) + pieces[0] + bytes;
      assert e.done == [];
      assert e.open == e.Fragments()[0];
      FlattenOne(pieces[0]);
      FlattenOne(pieces[0] + bytes);
      assert pieces == [pieces[0]];
    } else {
      next := pieces;
      assert Filled(e, bytes) == e;
    }
  }

  lemma NewCarries(e: Emission, id: nat, m: nat, total: nat, maxFragment: nat, pieces: seq<seq<byte>>, chunk: seq<byte>)
    requires Carries(e, id, m, total, maxFragment, pieces) && e.remainder == 0 && maxFragment > HEADER_SIZE
    requires chunk != [] && |chunk| + ID_SIZE <= maxFragment
    ensures Carries(Emission(e.Fragments(), EncodeLE(id, ID_SIZE) + chunk, 0), id, m, total, maxFragment, pieces + [chunk])
    ensures Flatten(pieces + [chunk]) == Flatten(pieces) + chunk
  {
    hide Header, EncodeLE;
    FlattenAppended(pieces, chunk);
    var f, n := e.Fragments(), |pieces|;
    var next, g := pieces + [chunk], Emission(f, EncodeLE(id, ID_SIZE) + chunk, 0).Fragments();
    forall i | 0 <= i <= n
      ensures g[i] == Piece(id, m, total, next, i)
    {
      if i < n {
        assert f[i] == Piece(id, m, total, pieces, i);
      }
    }
  }

  lemma {:induction false} MoreCarries(e: Emission, id: nat, m: nat, total: nat, maxFragment: nat,
    pieces: seq<seq<byte>>, bytes: seq<byte>) returns (next: seq<seq<byte>>)
    requires Carries(e, id, m, total, maxFragment, pieces) && maxFragment > HEADER_SIZE
    requires e.remainder == 0 || bytes == []
    ensures Carries(More(e, id, maxFragment, bytes), id, m, total, maxFragment, next)
    ensures Flatten(next) == Flatten(pieces) + bytes
    decreases |bytes|
  {
    hide Carries, Flatten, EncodeLE, More;
    if bytes == [] {
      MoreNone(e, id, maxFragment);
      next := pieces;
    } else {
      var n := Min(|bytes| + ID_SIZE, maxFragment) - ID_SIZE;
      var chunk, rest := bytes[..n], bytes[n..];
      NewCarries(e, id, m, total, maxFragment, pieces, chunk);
      MoreStep(e, id, maxFragment, bytes, n);
      next := MoreCarries(
        Emission(e.Fragments(), EncodeLE(id, ID_SIZE) + chunk, 0), id, m, total, maxFragment, pieces + [chunk], rest);
      AddedInTwo(Flatten(pieces), bytes, n);
    }
  }

  lemma AddedInTwo(a: seq<byte>, b: seq<byte>, n: nat)
    requires n <= |b|
    ensures a + b[..n] + b[n..] == a + b
  {
  }

  lemma WroteCarries(e: Emission, id: nat, m: nat, total: nat, maxFragment: nat,
    pieces: seq<seq<byte>>, bytes: seq<byte>) returns (next: seq<seq<byte>>)
    requires Carries(e, id, m, total, maxFragment, pieces) && maxFragment > HEADER_SIZE
    ensures Carries(Wrote(e, id, maxFragment, bytes), id, m, total, maxFragment, next)
    ensures Flatten(next) == Flatten(pieces) + bytes
  {
    hide Carries, Flatten, More;
    var n := Min(|bytes|, e.remainder);
    var filled := FilledCarries(e, id, m, total, maxFragment, pieces, bytes[..n]);
    next := MoreCarries(Filled(e, bytes[..n]), id, m, total, maxFragment, filled, bytes[n..]);
    AddedInTwo(Flatten(pieces), bytes, n);
  }

  lemma {:induction false} WroteAllCarries(e: Emission, id: nat, m: nat, total: nat, maxFragment: nat,
    pieces: seq<seq<byte>>, parts: seq<seq<byte>>) returns (next: seq<seq<byte>>)
    requires Carries(e, id, m, total, maxFragment, pieces) && maxFragment > HEADER_SIZE
    ensures Carries(WroteAll(e, id, maxFragment, parts), id, m, total, maxFragment, next)
    ensures Flatten(next) == Flatten(pieces) + Flatten(parts)
    decreases |parts|
  {
    hide Carries, Wrote;
    if parts == [] {
      next := pieces;
    } else {
      var mid := WroteCarries(e, id, m, total, maxFragment, pieces, parts[0]);
      next := WroteAllCarries(
        Wrote(e, id, maxFragment, parts[0]), id, m, total, maxFragment, mid, parts[1..]);
      assert Flatten(pieces) + parts[0] + Flatten(parts[1..]) == Flatten(pieces) + (parts[0] + Flatten(parts[1..]));
    }
  }

  /** A message as a caller writes it: its payload in any number of parts of any sizes. */
  datatype Job = Job(id: nat, m: nat, parts: seq<seq<byte>>) {
    function Payload(): seq<byte> {
      Flatten(parts)
    }

    /** What the writer has emitted once every part is written. */
    function Emitted(maxFragment: nat): Emission
      requires maxFragment > HEADER_SIZE
    {
      WroteAll(Opened(id, m, |Payload()|, maxFragment), id, maxFragment, parts)
    }
  }

  /** The message as the reader sees it: the fragments are the writer's, within the limit, and none is empty. */
  ghost predicate SentFor(job: Job, maxFragment: nat, sent: Sent)
    requires maxFragment > HEADER_SIZE
  {
    var fragments := job.Emitted(maxFragment).Fragments();
    && sent.Valid() && sent.id == job.id && sent.m == job.m && sent.Payload() == job.Payload()
    && |fragments| == |sent.pieces|
    && forall i :: 0 <= i < |sent.pieces| ==> fragments[i] == sent.Fragment(i) && |fragments[i]| <= maxFragment
  }

  ghost predicate Writable(job: Job, maxFragment: nat) {
    && HEADER_SIZE < maxFragment < |job.Payload()| < Pow256(8)
    && job.id < Pow256(8) && job.m < Pow256(4)
  }

  lemma {:induction false} MoreFills(e: Emission, id: nat, maxFragment: nat, bytes: seq<byte>)
    requires maxFragment > HEADER_SIZE
    ensures var r := More(e, id, maxFragment, bytes);
      && e.Fragments() <= r.Fragments() && (bytes == [] <==> |r.done| == |e.done|)
      && forall i :: |e.done| < i < |r.done| ==> |r.done[i]| == maxFragment
    decreases |bytes|
  {
    hide EncodeLE;
    if bytes != [] {
      var n := Min(|bytes| + ID_SIZE, maxFragment) - ID_SIZE;
      var next := Emission(e.done + [e.open], EncodeLE(id, ID_SIZE) + bytes[..n], 0);
      MoreFills(next, id, maxFragment, bytes[n..]);
      var r := More(e, id, maxFragment, bytes);
      assert r == More(next, id, maxFragment, bytes[n..]);
      assert e.Fragments() == next.done <= next.Fragments() <= r.Fragments();
      if |r.done| > |next.done| {
        assert r.done[|next.done|] == r.Fragments()[|next.done|] == next.Fragments()[|next.done|] == next.open;
      }
    }
  }

  /**
  A call goes on to another fragment only when the one in hand is full, and all that it emits but the last are as large
  as fragments may be.
  */
  lemma CallFillsFragments(e: Emission, id: nat, maxFragment: nat, bytes: seq<byte>)
    requires maxFragment > HEADER_SIZE
    ensures var r := Wrote(e, id, maxFragment, bytes);
      && |e.done| <= |r.done| && (|r.done| > |e.done| <==> |bytes| > e.remainder)
      && (|r.done| > |e.done| ==> |r.done[|e.done|]| == |e.open| + e.remainder)
      && forall i :: |e.done| < i < |r.done| ==> |r.done[i]| == maxFragment
  {
    hide More;
    var n := Min(|bytes|, e.remainder);
    var filled := Filled(e, bytes[..n]);
    MoreFills(filled, id, maxFragment, bytes[n..]);
    assert filled.Fragments()[|e.done|] == filled.open;
  }

  /**
  However the payload of an oversized message is divided into calls, the writer's fragments carry it in
  order, none empty or over the limit, and no space is left in the last: `finish` succeeds.
  */
  lemma JobFragments(job: Job, maxFragment: nat) returns (sent: Sent)
    requires Writable(job, maxFragment)
    ensures SentFor(job, maxFragment, sent) && job.Emitted(maxFragment).remainder == 0
  {
    hide Flatten, Opened, WroteAll, Pow256, Header, EncodeLE;
    var total := |job.Payload()|;
    var start := Opened(job.id, job.m, total, maxFragment);
    OpenedCarries(job.id, job.m, total, maxFragment);
    var pieces := WroteAllCarries(start, job.id, job.m, total, maxFragment, [[]], job.parts);
    assert Flatten([[]]) + Flatten(job.parts) == Flatten(job.parts);
    sent := Sent(job.id, job.m, pieces);
    if |pieces| == 1 {
      assert pieces == [pieces[0]];
      FlattenOne(pieces[0]);
    }
  }

  lemma {:induction false} AllFragments(jobs: seq<Job>, maxFragment: nat) returns (sents: seq<Sent>)
    requires forall k :: 0 <= k < |jobs| ==> Writable(jobs[k], maxFragment)
    ensures |sents| == |jobs|
    ensures forall k :: 0 <= k < |jobs| ==> Writable(jobs[k], maxFragment) && SentFor(jobs[k], maxFragment, sents[k])
  {
    hide Writable, SentFor;
    sents := [];
    if jobs != [] {
      assert Writable(jobs[0], maxFragment);
      var first := JobFragments(jobs[0], maxFragment);
      var rest := AllFragments(jobs[1..], maxFragment);
      sents := [first] + rest;
    }
  }

  /**
  Oversized messages with different identifiers, each written in parts of any sizes, their fragments read in
  any interleaving: each is dispatched exactly once, with the type and the bytes it was written with.
  */
  lemma MessagesArrive(jobs: seq<Job>, maxFragment: nat) returns (sents: seq<Sent>)
    requires forall k :: 0 <= k < |jobs| ==> Writable(jobs[k], maxFragment)
    requires forall j, k :: 0 <= j < k < |jobs| ==> jobs[j].id != jobs[k].id
    ensures |sents| == |jobs|
    ensures forall k :: 0 <= k < |jobs| ==> Writable(jobs[k], maxFragment) && SentFor(jobs[k], maxFragment, sents[k])
    ensures forall order :: Interleaving(sents, order) && AllArrive(sents, order) ==> ArrivesRight(jobs, sents, order)
  {
    hide Reads, Completed, Count, Apart, Deliveries, Job.Emitted, Job.Payload, Writable;
    sents := AllFragments(jobs, maxFragment);
    SentsSendable(jobs, sents, maxFragment);
    forall order | Interleaving(sents, order) && AllArrive(sents, order)
      ensures ArrivesRight(jobs, sents, order)
    {
      UniqueApart(sents, order);
      hide Interleaving, Sendable, AllArrive;
      EachDispatchedOnce(sents, order);
      DeliveriesOf(jobs, sents, maxFragment, Completed(sents, order));
    }
  }

  lemma SentsSendable(jobs: seq<Job>, sents: seq<Sent>, maxFragment: nat)
    requires |jobs| == |sents|
    requires forall k :: 0 <= k < |jobs| ==> Writable(jobs[k], maxFragment) && SentFor(jobs[k], maxFragment, sents[k])
    ensures Sendable(sents)
    ensures forall k :: 0 <= k < |jobs| ==> sents[k].id == jobs[k].id
  {
    hide Job.Emitted, Sent.Valid, Writable, Sent.Fragment, Job.Payload;
  }

  /** What is delivered of the messages as the reader sees them is what the callers wrote. */
  lemma DeliveriesOf(jobs: seq<Job>, sents: seq<Sent>, maxFragment: nat, completed: seq<nat>)
    requires |jobs| == |sents| && forall i :: 0 <= i < |completed| ==> completed[i] < |jobs|
    requires forall k :: 0 <= k < |jobs| ==> Writable(jobs[k], maxFragment) && SentFor(jobs[k], maxFragment, sents[k])
    ensures |Deliveries(sents, completed)| == |completed|
    ensures forall i :: 0 <= i < |completed| ==>
      Deliveries(sents, completed)[i] == Delivery(jobs[completed[i]].m, jobs[completed[i]].Payload())
  {
    hide Job.Emitted, Sent.Valid, Writable, Sent.Fragment, Job.Payload;
  }

  ghost predicate AllArrive(sents: seq<Sent>, order: seq<nat>) {
    forall k :: 0 <= k < |sents| ==> Count(order, k) == |sents[k].pieces|
  }

  ghost predicate ArrivesRight(jobs: seq<Job>, sents: seq<Sent>, order: seq<nat>)
    requires |jobs| == |sents| && Interleaving(sents, order)
  {
    var (r, ok) := Reads(sents, order);
    var completed := Completed(sents, order);
    && ok && r.partials == map[] && |r.dispatched| == |completed|
    && (forall k :: 0 <= k < |jobs| ==> Count(completed, k) == 1)
    && forall i :: 0 <= i < |completed| ==>
      && completed[i] < |jobs|
      && r.dispatched[i] == Delivery(jobs[completed[i]].m, jobs[completed[i]].Payload())
  }

  /**
  `finish` accepts an oversized message exactly when its first fragment has been filled, which need not be
  the whole payload that was announced.
  */
  lemma FinishAccepts(id: nat, m: nat, total: nat, maxFragment: nat, parts: seq<seq<byte>>)
    requires HEADER_SIZE < maxFragment < total
    ensures WroteAll(Opened(id, m, total, maxFragment), id, maxFragment, parts).remainder == 0 <==>
      |Flatten(parts)| >= maxFragment - HEADER_SIZE
  {
    hide Flatten, Opened, WroteAll, Header, EncodeLE;
    var start := Opened(id, m, total, maxFragment);
    OpenedCarries(id, m, total, maxFragment);
    var pieces := WroteAllCarries(start, id, m, total, maxFragment, [[]], parts);
    assert Flatten([[]]) + Flatten(parts) == Flatten(parts);
    if |pieces| == 1 {
      assert pieces == [pieces[0]];
      FlattenOne(pieces[0]);
    } else {
      FlattenAround(pieces, 0);
      assert pieces[..0] == [];
      FlattenNone<byte>();
    }
  }

  /** An announced payload can be cut short without `finish` noticing. */
  lemma ShortMessageAccepted(id: nat, m: nat, total: nat, maxFragment: nat)
    requires HEADER_SIZE < maxFragment < total
    ensures var parts := [Zeros(maxFragment - HEADER_SIZE)];
      && |Flatten(parts)| < total
      && WroteAll(Opened(id, m, total, maxFragment), id, maxFragment, parts).remainder == 0
  {
    var parts := [Zeros(maxFragment - HEADER_SIZE)];
    FlattenOne(parts[0]);
    FinishAccepts(id, m, total, maxFragment, parts);
  }

  /** The message is never dispatched as long as no more than its first `n` fragments arrive and messages in progress
      at once have different identifiers. */
  ghost predicate NeverDispatched(sent: Sent, n: nat) {
    forall sents, order, k :: ArrivesShort(sents, order, k, sent, n) ==> Held(sents, order, k)
  }

  ghost predicate ArrivesShort(sents: seq<Sent>, order: seq<nat>, k: nat, sent: Sent, n: nat) {
    && Sendable(sents) && Interleaving(sents, order) && Apart(sents, order)
    && k < |sents| && sents[k] == sent && Count(order, k) <= n
  }

  /**
  A message cut short is one whose last fragment never comes: its fragments are the first ones of a message as
  long as was announced.  So it is never dispatched, unless its identifier is used again.
  */
  lemma ShortNeverDispatched(id: nat, m: nat, total: nat, maxFragment: nat, parts: seq<seq<byte>>) returns (sent: Sent)
    requires HEADER_SIZE < maxFragment < total < Pow256(8) && id < Pow256(8) && m < Pow256(4)
    requires |Flatten(parts)| < total
    ensures sent.Valid() && sent.id == id && sent.m == m && |sent.Payload()| == total
    ensures var fragments := WroteAll(Opened(id, m, total, maxFragment), id, maxFragment, parts).Fragments();
      && |fragments| + 1 == |sent.pieces| && sent.Prefix(|fragments|) == Flatten(parts)
      && (forall i :: 0 <= i < |fragments| ==> fragments[i] == sent.Fragment(i))
      && NeverDispatched(sent, |fragments|)
  {
    hide Flatten, Opened, WroteAll, Header, EncodeLE, Pow256;
    var start := Opened(id, m, total, maxFragment);
    OpenedCarries(id, m, total, maxFragment);
    var pieces := WroteAllCarries(start, id, m, total, maxFragment, [[]], parts);
    assert Flatten([[]]) + Flatten(parts) == Flatten(parts);
    var rest := Zeros(total - |Flatten(parts)|);
    sent := Sent(id, m, pieces + [rest]);
    FlattenAppended(pieces, rest);
    assert sent.pieces[..|pieces|] == pieces;
    NoneDispatched(sent, |pieces|);
  }

  lemma NoneDispatched(sent: Sent, n: nat)
    requires n < |sent.pieces|
    ensures NeverDispatched(sent, n)
  {
    hide Count, Interleaving, Sendable, Apart, Held;
    forall sents, order, k | ArrivesShort(sents, order, k, sent, n)
      ensures Held(sents, order, k)
    {
      IncompleteNeverDispatched(sents, order, k);
    }
  }

  /** The first `n` fragments of message 0. */
  function Repeated(n: nat): (order: seq<nat>)
    ensures |order| == n && (forall i :: 0 <= i < n ==> order[i] == 0)
    ensures Count(order, 0) == n && Count(order, 1) == 0
  {
    if n == 0 then [] else
      Counted(Repeated(n - 1), 0);
      Repeated(n - 1) + [0]
  }

  lemma {:induction false} OneAtATime(sents: seq<Sent>, n: nat)
    requires |sents| == 2 && n < |sents[0].pieces|
    ensures Interleaving(sents, Repeated(n)) && Apart(sents, Repeated(n))
    decreases n
  {
    hide Count;
    if n > 0 {
      OneAtATime(sents, n - 1);
      hide Interleaving;
      assert Repeated(n) == Repeated(n - 1) + [0];
      assert Repeated(n)[..n - 1] == Repeated(n - 1);
      assert Alone(sents, Repeated(n - 1), 0);
    }
  }

  /** Nothing is dispatched while message 0 is incomplete and has the reader to itself. */
  lemma NothingDispatched(sents: seq<Sent>, n: nat)
    requires Sendable(sents) && |sents| == 2 && 0 < n < |sents[0].pieces|
    ensures Interleaving(sents, Repeated(n)) && Begun(sents, Repeated(n), 0)
    ensures var (r, ok) := Reads(sents, Repeated(n));
      r.dispatched == [] && InProgress(sents, Repeated(n), r.partials)
  {
    OneAtATime(sents, n);
    var order := Repeated(n);
    assert sents[1].Valid();
    hide Sendable, Interleaving, Reads, Apart, Count, InProgress, Repeated;
    Reassembled(sents, order);
    var completed := Completed(sents, order);
    CompletedOnce(sents, order, 0);
    CompletedOnce(sents, order, 1);
    NotCounted(completed, 0);
    NotCounted(completed, 1);
    if completed != [] {
      SomeCompleted(completed);
      assert false;
    }
  }

  /**
  The exception: all but the last fragment of message `a`, and then the first fragment of another with the same
  identifier that is, with its header, as long as what `a` lacks.  The reader dispatches `a` with these bytes for the
  missing ones.
  */
  lemma ReuseDispatches(a: Sent, b: Sent)
    requires a.Valid() && b.Valid() && a.id == b.id && |a.pieces| > 1
    requires 12 + |b.pieces[0]| == |a.pieces[|a.pieces| - 1]|
    ensures var sents, n := [a, b], |a.pieces| - 1;
      && Interleaving(sents, Repeated(n) + [1])
      && var r := Reads(sents, Repeated(n) + [1]).0;
      && r.dispatched == [Delivery(a.m, a.Prefix(n) + Mistaken(b))]
      && a.id !in r.partials
  {
    hide *;
    var sents, n := [a, b], |a.pieces| - 1;
    var before := Repeated(n);
    BothSendable(a, b);
    SomePiece(b);
    OneThenOther(sents, n);
    NothingDispatched(sents, n);
    Lacking(a);
    MistakenLength(b);
    ReadsStep(sents, before, 1);
    MistakenOutcome(sents, before, 0, 1, Reads(sents, before).0);
  }

  lemma BothSendable(a: Sent, b: Sent)
    requires a.Valid() && b.Valid()
    ensures Sendable([a, b])
  {
    hide Sent.Valid;
  }

  lemma OneThenOther(sents: seq<Sent>, n: nat)
    requires |sents| == 2 && 0 < n < |sents[0].pieces| && sents[1].pieces != []
    ensures Interleaving(sents, Repeated(n) + [1]) && Count(Repeated(n), 0) == n && Count(Repeated(n), 1) == 0
  {
    hide Interleaving, Count, Repeated, Apart;
    OneAtATime(sents, n);
    OneLater(sents, Repeated(n), 1);
  }

  lemma OneLater(sents: seq<Sent>, order: seq<nat>, k: nat)
    requires Interleaving(sents, order) && k < |sents| && Count(order, k) < |sents[k].pieces|
    ensures Interleaving(sents, order + [k])
  {
    Counted(order, k);
    hide Count;
  }

  lemma SomePiece(s: Sent)
    requires s.Valid()
    ensures s.pieces != []
  {
  }

  /** What is missing without the last piece. */
  lemma Lacking(s: Sent)
    requires s.Valid() && |s.pieces| > 1
    ensures var n := |s.pieces| - 1; |s.Prefix(n)| + |s.pieces[n]| == |s.Payload()|
  {
    PrefixStep(s, |s.pieces| - 1);
  }

  lemma SomeCompleted(completed: seq<nat>)
    requires completed != [] && forall i :: 0 <= i < |completed| ==> completed[i] < 2
    ensures 0 in completed || 1 in completed
  {
    assert completed[0] in completed;
  }
}
