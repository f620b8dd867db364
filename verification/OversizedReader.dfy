/**
Putting fragments together again.  The reader sees the fragments of several messages in one stream, in any
interleaving that keeps the fragments of each message in order.
*/
module OversizedReader {
  import opened Bytes
  import opened Options
  import opened Sequences
  import opened Oversized

  datatype Partial = Partial(m: nat, total: nat, data: seq<byte>)
  datatype Delivery = Delivery(m: nat, data: seq<byte>)

  /** The messages in the making, by identifier, and those dispatched so far. */
  datatype Reader = Reader(partials: map<nat, Partial>, dispatched: seq<Delivery>)

  function Accepted(r: Reader, id: nat, payload: seq<byte>): (Reader, bool)
    requires id in r.partials
  {
    var partial := r.partials[id];
    if |payload| + |partial.data| > partial.total then (r, false)
    else
      var data := partial.data + payload;
      if |data| == partial.total
      then (Reader(r.partials - {id}, r.dispatched + [Delivery(partial.m, data)]), true)
      else (r.(partials := r.partials[id := partial.(data := data)]), true)
  }

  /** The effect of one fragment; false where the handler throws. */
  function Received(r: Reader, fragment: seq<byte>): (Reader, bool) {
    if |fragment| < 8 then (r, false)
    else
      var id, rest := DecodeLE(fragment[..8]), fragment[8..];
      if id in r.partials then Accepted(r, id, rest)
      else if |rest| < 12 then (r, false)
      else
        var partial := Partial(DecodeLE(rest[..4]), DecodeLE(rest[4..12]), []);
        Accepted(r.(partials := r.partials[id := partial]), id, rest[12..])
  }

  class FragmentReconstructor {
    var partials: map<nat, Partial>
    var dispatched: seq<Delivery>

    function State(): Reader
      reads this
    {
      Reader(partials, dispatched)
    }

    constructor ()
      ensures State() == Reader(map[], [])
    {
      partials, dispatched := map[], [];
    }

    /** Reads an unsigned integer off the front of the data, unless it is too short. */
    static method Read(data: seq<byte>, width: nat) returns (value: Option<nat>, rest: seq<byte>)
      ensures |data| < width ==> value == None && rest == data
      ensures |data| >= width ==> value == Some(DecodeLE(data[..width])) && rest == data[width..]
    {
      if |data| < width {
        return None, data;
      }
      return Some(DecodeLE(data[..width])), data[width..];
    }

    method OnFragment(fragment: seq<byte>) returns (ok: bool)
      modifies this
      ensures (State(), ok) == Received(old(State()), fragment)
    {
      hide DecodeLE;
      var id, data := Read(fragment, 8);
      if id.None? {
        return false;
      }
      if id.value !in partials {
        var m, total;
        ghost var rest := data;
        m, data := Read(data, 4);
        if m.None? {
          return false;
        }
        total, data := Read(data, 8);
        if total.None? {
          return false;
        }
        assert rest[4..][..8] == rest[4..12] && rest[4..][8..] == rest[12..];
        partials := partials[id.value := Partial(m.value, total.value, [])];
      }
      var partial := partials[id.value];
      if |data| + |partial.data| > partial.total {
        return false;
      }
      partial := partial.(data := partial.data + data);
      ghost var entered := partials;
      partials := partials[id.value := partial];
      if |partial.data| == partial.total {
        dispatched := dispatched + [Delivery(partial.m, partial.data)];
        partials := partials - {id.value};
        assert partials == entered - {id.value};
      }
      ok := true;
    }
  }

  // ----- Messages as sent

  /** A message and the division of its payload into fragments. */
  datatype Sent = Sent(id: nat, m: nat, pieces: seq<seq<byte>>) {
    function Payload(): seq<byte> {
      Flatten(pieces)
    }

    predicate Valid() {
      && id < Pow256(8) && m < Pow256(4) && |Payload()| < Pow256(8)
      && pieces != []
      && forall i :: 0 < i < |pieces| ==> pieces[i] != []
    }

    function Fragment(i: nat): seq<byte>
      requires i < |pieces|
    {
      (if i == 0 then Header(id, m, |Payload()|) else EncodeLE(id, ID_SIZE)) + pieces[i]
    }

    /** What has arrived once `n` fragments have. */
    function Prefix(n: nat): seq<byte>
      requires n <= |pieces|
    {
      Flatten(pieces[..n])
    }
  }

  lemma PrefixStep(s: Sent, n: nat)
    requires s.Valid() && n < |s.pieces|
    ensures s.Prefix(n) + s.pieces[n] == s.Prefix(n + 1)
    ensures n + 1 < |s.pieces| ==> |s.Prefix(n + 1)| < |s.Payload()|
    ensures n + 1 == |s.pieces| ==> s.Prefix(n + 1) == s.Payload()
  {
    FlattenAround(s.pieces, n);
    assert s.pieces[..n + 1] == s.pieces[..n] + [s.pieces[n]];
    FlattenAppended(s.pieces[..n], s.pieces[n]);
    if n + 1 < |s.pieces| {
      FlattenAround(s.pieces, n + 1);
    } else {
      assert s.pieces[..n + 1] == s.pieces;
    }
  }

  lemma HeaderRead(id: nat, m: nat, total: nat, piece: seq<byte>)
    requires id < Pow256(8) && m < Pow256(4) && total < Pow256(8)
    ensures var f := Header(id, m, total) + piece;
      && DecodeLE(f[..8]) == id && DecodeLE(f[8..][..4]) == m && DecodeLE(f[8..][4..12]) == total
      && f[8..][12..] == piece
  {
    hide EncodeLE, DecodeLE, Pow256;
    var f, a, b, c := Header(id, m, total) + piece, EncodeLE(id, 8), EncodeLE(m, 4), EncodeLE(total, 8);
    assert f == a + (b + (c + piece));
    assert f[..8] == a && f[8..] == b + (c + piece);
    assert f[8..][..4] == b && f[8..][4..12] == c && f[8..][12..] == piece;
    EncodeDecode(id, 8);
    EncodeDecode(m, 4);
    EncodeDecode(total, 8);
  }

  lemma LaterRead(id: nat, piece: seq<byte>)
    requires id < Pow256(8)
    ensures var f := EncodeLE(id, ID_SIZE) + piece; DecodeLE(f[..8]) == id && f[8..] == piece
  {
    hide EncodeLE, DecodeLE, Pow256;
    var f := EncodeLE(id, ID_SIZE) + piece;
    assert f[..8] == EncodeLE(id, 8);
    EncodeDecode(id, 8);
  }

  // ----- Fragments of any bytes

  /** What becomes of a message with more of its bytes: too many, all there are, or some. */
  function Grown(r: Reader, id: nat, m: nat, total: nat, data: seq<byte>, more: seq<byte>): (Reader, bool) {
    if |data + more| > total then (r.(partials := r.partials[id := Partial(m, total, data)]), false)
    else if |data + more| == total then (Reader(r.partials - {id}, r.dispatched + [Delivery(m, data + more)]), true)
    else (r.(partials := r.partials[id := Partial(m, total, data + more)]), true)
  }

  /**
  A fragment with an identifier that is not in use begins a message of the type and length in its header; with one that
  is, it goes on with that message, whatever it looks like.  Anything too short for that is rejected.
  */
  lemma FragmentFate(r: Reader, id: nat, m: nat, total: nat, bytes: seq<byte>)
    requires id < Pow256(8) && m < Pow256(4) && total < Pow256(8)
    ensures id !in r.partials ==> Received(r, Header(id, m, total) + bytes) == Grown(r, id, m, total, [], bytes)
    ensures id in r.partials ==>
      var p := r.partials[id];
      Received(r, EncodeLE(id, ID_SIZE) + bytes) == Grown(r, id, p.m, p.total, p.data, bytes)
    ensures id !in r.partials && |bytes| < HEADER_SIZE - ID_SIZE ==>
      Received(r, EncodeLE(id, ID_SIZE) + bytes) == (r, false)
    ensures |bytes| < ID_SIZE ==> Received(r, bytes) == (r, false)
  {
    hide EncodeLE, DecodeLE, Pow256, Header;
    HeaderRead(id, m, total, bytes);
    LaterRead(id, bytes);
    assert [] + bytes == bytes;
    if id in r.partials {
      var p := r.partials[id];
      assert r.partials[id := p] == r.partials;
    } else {
      var p := Partial(m, total, []);
      assert r.partials[id := p][id := p.(data := bytes)] == r.partials[id := p.(data := bytes)];
      assert r.partials[id := p] - {id} == r.partials - {id};
    }
  }

  /** Fragment `n` of a message, arriving when the `n` before it have. */
  lemma FragmentArrives(r: Reader, s: Sent, n: nat)
    requires s.Valid() && n < |s.pieces|
    requires n == 0 ==> s.id !in r.partials
    requires n > 0 ==> s.id in r.partials && r.partials[s.id] == Partial(s.m, |s.Payload()|, s.Prefix(n))
    ensures Received(r, s.Fragment(n)).1
    ensures Received(r, s.Fragment(n)).0 ==
      if n + 1 < |s.pieces|
      then r.(partials := r.partials[s.id := Partial(s.m, |s.Payload()|, s.Prefix(n + 1))])
      else Reader(r.partials - {s.id}, r.dispatched + [Delivery(s.m, s.Payload())])
  {
    PrefixStep(s, n);
    if n == 0 {
      HeaderRead(s.id, s.m, |s.Payload()|, s.pieces[0]);
      assert s.Prefix(0) == [] && [] + s.pieces[0] == s.pieces[0];
    } else {
      LaterRead(s.id, s.pieces[n]);
    }
    hide DecodeLE, EncodeLE, Flatten, Header;
    var start := if n == 0 then r.(partials := r.partials[s.id := Partial(s.m, |s.Payload()|, [])]) else r;
    assert Received(r, s.Fragment(n)) == Accepted(start, s.id, s.pieces[n]);
    assert start.partials - {s.id} == r.partials - {s.id};
  }

  // ----- Interleavings

  /** How often `k` occurs. */
  function Count(order: seq<nat>, k: nat): nat {
    multiset(order)[k]
  }

  /** The order in which fragments arrive, each named by its message; no message has more than it has pieces. */
  ghost predicate Interleaving(sents: seq<Sent>, order: seq<nat>) {
    && (forall j :: 0 <= j < |order| ==> order[j] < |sents|)
    && (forall k :: 0 <= k < |sents| ==> Count(order, k) <= |sents[k].pieces|)
  }

  ghost predicate Sendable(sents: seq<Sent>) {
    forall k :: 0 <= k < |sents| ==> sents[k].Valid()
  }

  /** Message `k` has begun to arrive and has not ended. */
  predicate Begun(sents: seq<Sent>, order: seq<nat>, k: nat) {
    k < |sents| && 0 < Count(order, k) < |sents[k].pieces|
  }

  /** No message that has begun and not ended has the identifier of message `k`. */
  ghost predicate Alone(sents: seq<Sent>, order: seq<nat>, k: nat) {
    k < |sents| && forall j :: 0 <= j < |sents| && j != k && Begun(sents, order, j) ==> sents[j].id != sents[k].id
  }

  /** Whenever a fragment arrives, no other message in progress has its identifier. */
  ghost predicate Apart(sents: seq<Sent>, order: seq<nat>)
    decreases |order|
  {
    order != [] ==> Apart(sents, order[..|order| - 1]) && Alone(sents, order[..|order| - 1], order[|order| - 1])
  }

  /** Identifiers that are never used twice will do. */
  lemma {:induction false} UniqueApart(sents: seq<Sent>, order: seq<nat>)
    requires forall j, k :: 0 <= j < k < |sents| ==> sents[j].id != sents[k].id
    requires forall i :: 0 <= i < |order| ==> order[i] < |sents|
    ensures Apart(sents, order)
    decreases |order|
  {
    if order != [] {
      UniqueApart(sents, order[..|order| - 1]);
    }
  }

  lemma Shorter(sents: seq<Sent>, order: seq<nat>)
    requires Interleaving(sents, order) && order != []
    ensures var before, k := order[..|order| - 1], order[|order| - 1];
      && Interleaving(sents, before) && Count(order, k) == Count(before, k) + 1 && Count(before, k) < |sents[k].pieces|
      && forall j :: j != k ==> Count(order, j) == Count(before, j)
  {
    assert order == order[..|order| - 1] + [order[|order| - 1]];
  }

  /** What the reader holds after the whole stream, and whether it ever threw. */
  ghost function Reads(sents: seq<Sent>, order: seq<nat>): (Reader, bool)
    requires Interleaving(sents, order)
    decreases |order|
  {
    if order == [] then (Reader(map[], []), true)
    else
      var before, k := order[..|order| - 1], order[|order| - 1];
      Shorter(sents, order);
      var (r, ok) := Reads(sents, before);
      var (next, good) := Received(r, sents[k].Fragment(Count(before, k)));
      (next, ok && good)
  }

  /** The messages completed, in the order in which their last fragments arrive. */
  ghost function Completed(sents: seq<Sent>, order: seq<nat>): seq<nat>
    requires Interleaving(sents, order)
    decreases |order|
  {
    if order == [] then []
    else
      var before, k := order[..|order| - 1], order[|order| - 1];
      Shorter(sents, order);
      Completed(sents, before) + if Count(order, k) == |sents[k].pieces| then [k] else []
  }

  ghost function Deliveries(sents: seq<Sent>, ks: seq<nat>): seq<Delivery>
    requires forall i :: 0 <= i < |ks| ==> ks[i] < |sents|
  {
    seq(|ks|, i requires 0 <= i < |ks| => Delivery(sents[ks[i]].m, sents[ks[i]].Payload()))
  }

  /** Exactly the messages that have begun and not ended are in the making, with what has arrived of them. */
  ghost predicate InProgress(sents: seq<Sent>, order: seq<nat>, partials: map<nat, Partial>)
    requires Interleaving(sents, order)
  {
    && (forall k :: 0 <= k < |sents| && Begun(sents, order, k) ==>
        && sents[k].id in partials
        && partials[sents[k].id] == Partial(sents[k].m, |sents[k].Payload()|, sents[k].Prefix(Count(order, k))))
    && (forall id <- partials :: exists k :: 0 <= k < |sents| && Begun(sents, order, k) && sents[k].id == id)
  }

  /** Messages in progress at once have different identifiers. */
  ghost predicate AllApart(sents: seq<Sent>, order: seq<nat>) {
    forall j, k :: 0 <= j < |sents| && 0 <= k < |sents| && j != k && Begun(sents, order, j) && Begun(sents, order, k) ==>
      sents[j].id != sents[k].id
  }

  lemma {:induction false} ApartAll(sents: seq<Sent>, order: seq<nat>)
    requires Interleaving(sents, order) && Apart(sents, order)
    ensures AllApart(sents, order)
    decreases |order|
  {
    if order != [] {
      var before, last := order[..|order| - 1], order[|order| - 1];
      Shorter(sents, order);
      ApartAll(sents, before);
      hide Count, Interleaving, Apart;
      forall j | 0 <= j < |sents| && j != last
        ensures Begun(sents, order, j) <==> Begun(sents, before, j)
      {
      }
    }
  }

  lemma StepInProgress(sents: seq<Sent>, before: seq<nat>, k: nat, r: Reader)
    requires Sendable(sents) && Interleaving(sents, before) && Interleaving(sents, before + [k])
    requires InProgress(sents, before, r.partials) && Alone(sents, before, k)
    ensures k < |sents| && Count(before, k) < |sents[k].pieces|
    ensures var n := Count(before, k);
      var (next, ok) := Received(r, sents[k].Fragment(n));
      && ok && InProgress(sents, before + [k], next.partials)
      && next.dispatched == r.dispatched +
        if n + 1 == |sents[k].pieces| then [Delivery(sents[k].m, sents[k].Payload())] else []
  {
    LastCounted(sents, before, k);
    AtMessage(sents, before, k, r.partials);
    hide Received, InProgress, Flatten, Count, Interleaving, Sent.Fragment, Sent.Payload, Alone;
    var n := Count(before, k);
    FragmentArrives(r, sents[k], n);
    if n + 1 < |sents[k].pieces| {
      MoreInProgress(sents, before, k, r.partials);
    } else {
      LessInProgress(sents, before, k, r.partials);
    }
  }

  lemma LastCounted(sents: seq<Sent>, before: seq<nat>, k: nat)
    requires Interleaving(sents, before + [k])
    ensures k < |sents| && Count(before, k) < |sents[k].pieces|
  {
    Counted(before, k);
    assert (before + [k])[|before|] == k;
  }

  lemma AtMessage(sents: seq<Sent>, before: seq<nat>, k: nat, partials: map<nat, Partial>)
    requires Sendable(sents) && Interleaving(sents, before)
    requires InProgress(sents, before, partials) && Alone(sents, before, k)
    ensures sents[k].Valid()
    ensures sents[k].id in partials <==> Begun(sents, before, k)
    ensures sents[k].id in partials ==>
      partials[sents[k].id] == Partial(sents[k].m, |sents[k].Payload()|, sents[k].Prefix(Count(before, k)))
  {
    hide Count, Flatten;
  }

  /** The fragment changes the standing of its own message alone. */
  lemma StillBegun(sents: seq<Sent>, before: seq<nat>, k: nat)
    ensures forall j :: 0 <= j < |sents| && j != k ==> (Begun(sents, before + [k], j) <==> Begun(sents, before, j))
    ensures k < |sents| ==> (Begun(sents, before + [k], k) <==> Count(before, k) + 1 < |sents[k].pieces|)
    ensures Count(before + [k], k) == Count(before, k) + 1
    ensures forall j :: j != k ==> Count(before + [k], j) == Count(before, j)
  {
    Counted(before, k);
    hide Count;
  }

  lemma MoreInProgress(sents: seq<Sent>, before: seq<nat>, k: nat, partials: map<nat, Partial>)
    requires Interleaving(sents, before) && Interleaving(sents, before + [k])
    requires InProgress(sents, before, partials) && Alone(sents, before, k) && Count(before, k) + 1 < |sents[k].pieces|
    ensures InProgress(sents, before + [k],
      partials[sents[k].id := Partial(sents[k].m, |sents[k].Payload()|, sents[k].Prefix(Count(before, k) + 1))])
  {
    StillBegun(sents, before, k);
    hide Count, Flatten, Begun, Sent.Payload;
    var next := partials[sents[k].id := Partial(sents[k].m, |sents[k].Payload()|, sents[k].Prefix(Count(before, k) + 1))];
    forall id | id in next
      ensures exists j :: 0 <= j < |sents| && Begun(sents, before + [k], j) && sents[j].id == id
    {
      if id != sents[k].id {
        var j :| 0 <= j < |sents| && Begun(sents, before, j) && sents[j].id == id;
        assert Begun(sents, before + [k], j);
      }
    }
  }

  lemma LessInProgress(sents: seq<Sent>, before: seq<nat>, k: nat, partials: map<nat, Partial>)
    requires Interleaving(sents, before) && Interleaving(sents, before + [k])
    requires InProgress(sents, before, partials) && Alone(sents, before, k) && Count(before, k) + 1 == |sents[k].pieces|
    ensures InProgress(sents, before + [k], partials - {sents[k].id})
  {
    StillBegun(sents, before, k);
    hide Count, Flatten, Begun, Sent.Payload;
    var next := partials - {sents[k].id};
    forall id | id in next
      ensures exists j :: 0 <= j < |sents| && Begun(sents, before + [k], j) && sents[j].id == id
    {
      var j :| 0 <= j < |sents| && Begun(sents, before, j) && sents[j].id == id;
      assert Begun(sents, before + [k], j);
    }
  }

  lemma Counted(before: seq<nat>, k: nat)
    ensures Count(before + [k], k) == Count(before, k) + 1
    ensures forall j :: j != k ==> Count(before + [k], j) == Count(before, j)
  {
  }

  // ----- An identifier in use twice at once

  /** What the first fragment of a message looks like to a reader that does not expect one: the type, the size and the
      first piece. */
  function Mistaken(s: Sent): seq<byte>
    requires s.pieces != []
  {
    s.Fragment(0)[8..]
  }

  lemma MistakenLength(s: Sent)
    requires s.pieces != []
    ensures |Mistaken(s)| == 12 + |s.pieces[0]|
  {
    hide EncodeLE, Flatten;
  }

  /**
  The first fragment of message `k`, arriving while message `j` with the same identifier is in progress, is taken for
  the next piece of `j`, header and all.  If that is too much for `j` the reader throws; if it is exactly what `j`
  lacks, `j` is dispatched with it; and otherwise it is kept as a part of `j`.
  */
  lemma MistakenOutcome(sents: seq<Sent>, before: seq<nat>, j: nat, k: nat, r: Reader)
    requires Sendable(sents) && Interleaving(sents, before)
    requires InProgress(sents, before, r.partials) && Begun(sents, before, j) && k < |sents|
    requires sents[j].id == sents[k].id
    ensures sents[k].pieces != []
    ensures var s, more := sents[j], Mistaken(sents[k]);
      var (next, ok) := Received(r, sents[k].Fragment(0));
      var data := s.Prefix(Count(before, j)) + more;
      && (ok <==> |data| <= |s.Payload()|)
      && (|data| == |s.Payload()| ==> next == Reader(r.partials - {s.id}, r.dispatched + [Delivery(s.m, data)]))
      && (|data| < |s.Payload()| ==> next == r.(partials := r.partials[s.id := Partial(s.m, |s.Payload()|, data)]))
  {
    var s, t := sents[j], sents[k];
    assert t.Valid();
    HeaderRead(t.id, t.m, |t.Payload()|, t.pieces[0]);
    hide DecodeLE, EncodeLE, Flatten, Header, Count, Interleaving, Begun;
    assert r.partials[s.id] == Partial(s.m, |s.Payload()|, s.Prefix(Count(before, j)));
    assert Received(r, t.Fragment(0)) == Accepted(r, s.id, Mistaken(t));
  }

  /** So the reader does not do right by the fragment. */
  lemma MistakenFragment(sents: seq<Sent>, before: seq<nat>, j: nat, k: nat, r: Reader)
    requires Sendable(sents) && Interleaving(sents, before) && Interleaving(sents, before + [k])
    requires InProgress(sents, before, r.partials) && Begun(sents, before, j) && j != k < |sents|
    requires sents[j].id == sents[k].id && Count(before, k) == 0
    ensures k < |sents| && 0 < |sents[k].pieces|
    ensures var (next, ok) := Received(r, sents[k].Fragment(0));
      !ok || !InProgress(sents, before + [k], next.partials)
  {
    MistakenOutcome(sents, before, j, k, r);
    MistakenLength(sents[k]);
    StillBegun(sents, before, k);
    hide Received, Mistaken, Flatten, Count, Interleaving, Begun, Sent.Fragment, Sent.Payload;
    var s := sents[j];
    var (next, ok) := Received(r, sents[k].Fragment(0));
    assert Begun(sents, before + [k], j);
    if ok && s.id in next.partials {
      assert |next.partials[s.id].data| > |s.Prefix(Count(before + [k], j))|;
    }
  }
}
