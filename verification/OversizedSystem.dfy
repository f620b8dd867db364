/**
Oversized writers at work on the ring buffer, step by step.  Each sends one message through two of the ring buffer's
writers, which it uses in turn: a fragment is reserved before the one before it is finished.
*/
module OversizedSystem {
  import opened Bytes
  import opened Sequences
  import opened RingSlots
  import opened Oversized
  import opened OversizedReader
  import opened OversizedTheorems
  import opened OversizedRing
  import R = RingBuffer
  import I = RingBufferInvariant
  import S = RingBufferSafety
  import D = RingBufferDelivery
  import T = RingBufferTheorems

  /** A message being sent: how many fragments have been asked for, and which reservations it has got for them. */
  datatype Client = Client(m: nat, parts: seq<seq<byte>>, asked: nat, mine: seq<nat>)

  predicate CanSend(c: Client, max: nat) {
    HEADER_SIZE < max < |Flatten(c.parts)| < Pow256(8) && c.m < Pow256(4)
  }

  function JobOf(c: Client, id: nat): Job {
    Job(id, c.m, c.parts)
  }

  /** The fragments of the message, once its identifier is known. */
  function Frags(c: Client, id: nat, max: nat): seq<seq<byte>>
    requires max > HEADER_SIZE
  {
    JobOf(c, id).Emitted(max).Fragments()
  }

  /** The first fragment is as large as fragments may be, whatever the identifier. */
  lemma FirstFull(c: Client, id: nat, max: nat)
    requires CanSend(c, max)
    ensures |Frags(c, id, max)| > 0 && |Frags(c, id, max)[0]| == max
  {
    hide Flatten, Opened, WroteAll, Header, EncodeLE, Pow256;
    var total := |Flatten(c.parts)|;
    var start := Opened(id, c.m, total, max);
    OpenedCarries(id, c.m, total, max);
    var pieces := WroteAllCarries(start, id, c.m, total, max, [[]], c.parts);
    assert Flatten([[]]) + Flatten(c.parts) == Flatten(c.parts);
    if |pieces| == 1 {
      assert pieces == [pieces[0]];
      FlattenOne(pieces[0]);
    }
  }

  // ----- What holds of one client

  /** A reservation for a fragment: its bytes in part, or in full if the client has gone on or finished it. */
  ghost predicate FragmentAt(e: R.Entry, f: seq<byte>, full: bool) {
    && e.req == R.Request(FRAGMENT, |f|, true) && e.data <= f
    && (full || e.stage.Finished? ==> e.data == f)
  }

  ghost predicate MineOk(log: seq<R.Entry>, c: Client, max: nat)
    requires max > HEADER_SIZE
  {
    && Increasing(c.mine) && (forall i :: 0 <= i < |c.mine| ==> c.mine[i] < |log|)
    && |c.mine| <= c.asked <= |c.mine| + 1
    && (c.mine != [] ==>
      var f := Frags(c, log[c.mine[0]].start, max);
      c.asked <= |f| && forall i :: 0 <= i < |c.mine| ==> FragmentAt(log[c.mine[i]], f[i], i + 1 < c.asked))
  }

  /** The size of the fragment to reserve next. */
  ghost function NextSize(log: seq<R.Entry>, c: Client, max: nat): nat
    requires max > HEADER_SIZE && MineOk(log, c, max)
  {
    if c.mine == [] then max
    else
      var f := Frags(c, log[c.mine[0]].start, max);
      if |c.mine| < |f| then |f[|c.mine|]| else 0
  }

  /** The latest of the client's fragments that goes through its ring buffer writer `b`. */
  function Turn(c: Client, b: nat): int {
    if |c.mine| > 0 && (|c.mine| - 1) % 2 == b then |c.mine| - 1 else |c.mine| - 2
  }

  /** Where ring buffer writer `b` of the client may be. */
  ghost predicate PcOk(log: seq<R.Entry>, p: R.WriterPc, b: nat, c: Client, max: nat)
    requires max > HEADER_SIZE && MineOk(log, c, max)
  {
    if p.Idle? then true
    else if p.Owns() then
      && 0 <= Turn(c, b) && p.slot == c.mine[Turn(c, b)]
      && (p.Finishing? ==> log[p.slot].data == Frags(c, log[c.mine[0]].start, max)[Turn(c, b)])
    else
      && |c.mine| + 1 == c.asked && |c.mine| % 2 == b
      && p.req == R.Request(FRAGMENT, NextSize(log, c, max), true)
      && (c.mine != [] ==> |c.mine| < |Frags(c, log[c.mine[0]].start, max)|)
  }

  ghost predicate ClientOk(log: seq<R.Entry>, p: seq<R.WriterPc>, c: Client, max: nat)
    requires max > HEADER_SIZE
  {
    && CanSend(c, max) && |p| == 2 && MineOk(log, c, max)
    && PcOk(log, p[0], 0, c, max) && PcOk(log, p[1], 1, c, max)
  }

  // ----- What the client may do next

  /** Ask for a fragment: the first, or the next once the one in hand is full. */
  ghost predicate MayAsk(log: seq<R.Entry>, c: Client, b: nat, req: R.Request, max: nat)
    requires max > HEADER_SIZE
  {
    && MineOk(log, c, max) && |c.mine| == c.asked && b == c.asked % 2
    && req == R.Request(FRAGMENT, NextSize(log, c, max), true)
    && (c.mine != [] ==>
      var f, k := Frags(c, log[c.mine[0]].start, max), |c.mine|;
      k < |f| && log[c.mine[k - 1]].data == f[k - 1])
  }

  /** Write the next bytes of the fragment in hand, the one before it being finished. */
  ghost predicate MayWrite(log: seq<R.Entry>, p: seq<R.WriterPc>, c: Client, b: nat, bytes: seq<byte>, max: nat)
    requires max > HEADER_SIZE
  {
    && MineOk(log, c, max) && |c.mine| == c.asked > 0 && b == (c.asked - 1) % 2 && |p| == 2 && p[1 - b].Idle?
    && var f, k := Frags(c, log[c.mine[0]].start, max), |c.mine| - 1;
    log[c.mine[k]].data + bytes <= f[k]
  }

  /** Finish the fragment before the one in hand, which has been reserved; or the last one, once it is full. */
  ghost predicate MayFinish(log: seq<R.Entry>, p: seq<R.WriterPc>, c: Client, b: nat, max: nat)
    requires max > HEADER_SIZE
  {
    && MineOk(log, c, max) && |c.mine| == c.asked > 0 && |p| == 2 && b < 2
    && var f, k := Frags(c, log[c.mine[0]].start, max), |c.mine| - 1;
    if b == k % 2 then c.asked == |f| && log[c.mine[k]].data == f[k] && p[1 - b].Idle?
    else k > 0 && p[1 - b].Writing?
  }

  // ----- Steps of the client itself

  lemma Unaffected(log: seq<R.Entry>, log': seq<R.Entry>, p: seq<R.WriterPc>, c: Client, max: nat)
    requires max > HEADER_SIZE && ClientOk(log, p, c, max)
    requires |log| <= |log'| && forall i :: 0 <= i < |c.mine| ==> log'[c.mine[i]] == log[c.mine[i]]
    ensures ClientOk(log', p, c, max)
  {
    hide Frags, Increasing;
  }

  lemma SameFrags(c: Client, d: Client, id: nat, max: nat)
    requires max > HEADER_SIZE && c.m == d.m && c.parts == d.parts
    ensures Frags(c, id, max) == Frags(d, id, max)
  {
  }

  /** The identifier of the client's message, if it has one yet. */
  function Id(log: seq<R.Entry>, c: Client): nat {
    if c.mine != [] && c.mine[0] < |log| then log[c.mine[0]].start else 0
  }

  lemma AskedOk(log: seq<R.Entry>, p: seq<R.WriterPc>, c: Client, b: nat, req: R.Request, max: nat)
    requires max > HEADER_SIZE && ClientOk(log, p, c, max) && MayAsk(log, c, b, req, max) && p[b].Idle?
    ensures ClientOk(log, p[b := R.LoadCache(req)], c.(asked := c.asked + 1), max)
  {
    hide Frags, Increasing;
    SameFrags(c, c.(asked := c.asked + 1), Id(log, c), max);
  }

  lemma StillReserving(log: seq<R.Entry>, p: seq<R.WriterPc>, c: Client, b: nat, pc: R.WriterPc, max: nat)
    requires max > HEADER_SIZE && ClientOk(log, p, c, max) && b < 2 && !p[b].Idle? && !p[b].Owns()
    requires !pc.Idle? && !pc.Owns() && pc.req == p[b].req
    ensures ClientOk(log, p[b := pc], c, max)
  {
    hide Frags, Increasing;
  }

  lemma GotMine(log: seq<R.Entry>, c: Client, e: R.Entry, max: nat)
    requires max > HEADER_SIZE && CanSend(c, max) && MineOk(log, c, max) && |c.mine| + 1 == c.asked
    requires e.req == R.Request(FRAGMENT, NextSize(log, c, max), true) && e.data == [] && !e.stage.Finished?
    requires c.mine != [] ==> |c.mine| < |Frags(c, log[c.mine[0]].start, max)|
    ensures MineOk(log + [e], c.(mine := c.mine + [|log|]), max)
  {
    hide Frags, Pow256, Flatten;
    var c' := c.(mine := c.mine + [|log|]);
    var id := if c.mine == [] then e.start else log[c.mine[0]].start;
    FirstFull(c, e.start, max);
    SameFrags(c, c', id, max);
    assert (log + [e])[c'.mine[0]].start == id;
  }

  /** A new reservation leaves the other ring buffer writer with the fragment it had. */
  lemma OtherTurn(log: seq<R.Entry>, p: R.WriterPc, b: nat, c: Client, e: R.Entry, max: nat)
    requires max > HEADER_SIZE && MineOk(log, c, max) && PcOk(log, p, b, c, max) && b < 2
    requires |c.mine| + 1 == c.asked && |c.mine| % 2 == 1 - b
    requires MineOk(log + [e], c.(mine := c.mine + [|log|]), max)
    ensures PcOk(log + [e], p, b, c.(mine := c.mine + [|log|]), max)
  {
    hide Frags, FragmentAt, Increasing;
    var c' := c.(mine := c.mine + [|log|]);
    if p.Owns() {
      assert Turn(c', b) == Turn(c, b) == |c.mine| - 1;
      assert c'.mine[Turn(c, b)] == c.mine[Turn(c, b)] && c'.mine[0] == c.mine[0];
      SameFrags(c, c', log[c.mine[0]].start, max);
    }
  }

  lemma GotOk(log: seq<R.Entry>, p: seq<R.WriterPc>, c: Client, b: nat, e: R.Entry, pc: R.WriterPc, max: nat)
    requires max > HEADER_SIZE && ClientOk(log, p, c, max) && b < 2 && !p[b].Idle? && !p[b].Owns()
    requires e.req == p[b].req && e.data == [] && !e.stage.Finished?
    requires pc.Owns() && !pc.Finishing? && pc.slot == |log|
    ensures ClientOk(log + [e], p[b := pc], c.(mine := c.mine + [|log|]), max)
  {
    hide Frags, MineOk, NextSize;
    GotMine(log, c, e, max);
    OtherTurn(log, p[1 - b], 1 - b, c, e, max);
  }

  /** One of the client's reservations changes, its place and request staying. */
  lemma ChangedMine(log: seq<R.Entry>, c: Client, i: nat, e: R.Entry, max: nat)
    requires max > HEADER_SIZE && MineOk(log, c, max) && i < |c.mine|
    requires e.start == log[c.mine[i]].start
    requires FragmentAt(e, Frags(c, log[c.mine[0]].start, max)[i], i + 1 < c.asked)
    ensures MineOk(log[c.mine[i] := e], c, max)
    ensures log[c.mine[i] := e][c.mine[0]].start == log[c.mine[0]].start
  {
    hide Frags, FragmentAt;
    var log' := log[c.mine[i] := e];
    forall j | 0 <= j < |c.mine| && j != i
      ensures log'[c.mine[j]] == log[c.mine[j]]
    {
      assert c.mine[j] != c.mine[i];
    }
  }

  /** The other ring buffer writer does not notice. */
  lemma OtherKept(log: seq<R.Entry>, p: R.WriterPc, b: nat, c: Client, i: nat, e: R.Entry, max: nat)
    requires max > HEADER_SIZE && MineOk(log, c, max) && PcOk(log, p, b, c, max) && b < 2
    requires i < |c.mine| && i == Turn(c, 1 - b) && e.start == log[c.mine[i]].start
    requires MineOk(log[c.mine[i] := e], c, max)
    ensures PcOk(log[c.mine[i] := e], p, b, c, max)
  {
    hide Frags, FragmentAt;
    assert log[c.mine[i] := e][c.mine[0]].start == log[c.mine[0]].start;
    if p.Owns() {
      assert Turn(c, b) != i;
      assert c.mine[Turn(c, b)] != c.mine[i];
    }
  }

  /** A writer that owns a reservation moves it on: a stage further, or with more bytes. */
  lemma MovedOk(log: seq<R.Entry>, p: seq<R.WriterPc>, c: Client, b: nat, e: R.Entry, pc: R.WriterPc, max: nat)
    requires max > HEADER_SIZE && ClientOk(log, p, c, max) && b < 2 && p[b].Owns()
    requires e.start == log[p[b].slot].start
    requires FragmentAt(e, Frags(c, log[c.mine[0]].start, max)[Turn(c, b)], Turn(c, b) + 1 < c.asked)
    requires pc.Idle? || (pc.Owns() && !pc.Finishing? && pc.slot == p[b].slot)
    ensures ClientOk(log[p[b].slot := e], p[b := pc], c, max)
  {
    hide Frags, FragmentAt, Increasing;
    var i: nat := Turn(c, b);
    ChangedMine(log, c, i, e, max);
    OtherKept(log, p[1 - b], 1 - b, c, i, e, max);
  }

  /** The entry that a writer of the client owns. */
  lemma OwnFragment(log: seq<R.Entry>, p: seq<R.WriterPc>, c: Client, b: nat, max: nat)
    requires max > HEADER_SIZE && ClientOk(log, p, c, max) && b < 2 && p[b].Owns()
    ensures var i := Turn(c, b);
      && 0 <= i < |c.mine| && p[b].slot == c.mine[i] < |log|
      && var f := Frags(c, log[c.mine[0]].start, max);
      && i < |f| && FragmentAt(log[p[b].slot], f[i], i + 1 < c.asked)
      && (p[b].Finishing? ==> log[p[b].slot].data == f[i])
  {
    hide Frags, FragmentAt, Increasing;
  }

  lemma StartedFinish(log: seq<R.Entry>, p: seq<R.WriterPc>, c: Client, b: nat, pc: R.WriterPc, max: nat)
    requires max > HEADER_SIZE && ClientOk(log, p, c, max) && b < 2 && p[b].Owns() && MayFinish(log, p, c, b, max)
    requires pc.Finishing? && pc.slot == p[b].slot
    ensures ClientOk(log, p[b := pc], c, max)
  {
    hide Frags, Increasing;
  }

  // ----- What a step of the ring buffer does to its writer and to the log

  lemma ReserveEffect(s: R.State, w: nat)
    requires I.Inv(s) && w < |s.writers| && R.Enabled(s, R.Step(w)) && !s.writers[w].Owns()
    ensures var t, pc := R.Apply(s, R.Step(w)), s.writers[w];
      && t.log == s.log && |t.writers| == |s.writers| && t.writers == s.writers[w := t.writers[w]]
      && !t.writers[w].Owns() && (if t.writers[w].Idle? then !pc.req.wait else t.writers[w].req == pc.req)
  {
    hide I.Inv, R.ScanHeader, R.Index, Splice, R.Read64, R.Write64, R.MakeHeader, R.EntrySize;
  }

  lemma OwnerEffect(s: R.State, w: nat)
    requires I.Inv(s) && w < |s.writers| && R.Enabled(s, R.Step(w)) && s.writers[w].Owns()
    ensures var t, pc := R.Apply(s, R.Step(w)), s.writers[w];
      && pc.slot < |s.log| && |t.writers| == |s.writers| && t.writers == s.writers[w := t.writers[w]]
      && |t.log| == |s.log| && t.log == s.log[pc.slot := s.log[pc.slot].(stage := t.log[pc.slot].stage)]
      && (if pc.Finishing? then t.writers[w].Idle? && t.log[pc.slot].stage.Finished?
          else
            && t.writers[w].Owns() && !t.writers[w].Finishing? && t.writers[w].slot == pc.slot
            && t.writers[w].req == pc.req && !t.log[pc.slot].stage.Finished?)
  {
    hide I.Inv, R.ScanHeader, R.Index, Splice, R.Read64, R.Write64, R.MakeHeader;
    S.OwnedEntry(s, w);
  }

  /** The tail is moved: a new reservation. */
  predicate Claims(s: R.State, a: R.Action) {
    && a.TryExchange? && !a.spurious
    && a.w < |s.writers| && s.writers[a.w].CompareExchange? && s.sh.tail == s.writers[a.w].tl
  }

  lemma ExchangeEffect(s: R.State, a: R.Action)
    requires I.Inv(s) && a.TryExchange? && R.Enabled(s, a)
    ensures var t, w, pc := R.Apply(s, a), a.w, s.writers[a.w];
      && |t.writers| == |s.writers| && t.writers == s.writers[w := t.writers[w]]
      && !t.writers[w].Idle? && t.writers[w].req == pc.req
      && (!Claims(s, a) ==> t.log == s.log && !t.writers[w].Owns())
      && (Claims(s, a) ==>
        && t.writers[w].Owns() && !t.writers[w].Finishing? && t.writers[w].slot == |s.log|
        && |t.log| == |s.log| + 1
        && var e := t.log[|s.log|];
        && t.log == s.log + [e]
        && e.req == pc.req && e.data == [] && !e.stage.Finished? && e.start == s.sh.tail)
  {
    hide I.Inv, R.ScanHeader, R.Index, Splice, R.Read64, R.Write64, R.MakeHeader, R.EntrySize;
  }

  lemma CopyEffect(s: R.State, a: R.Action)
    requires I.Inv(s) && a.WriteBytes? && R.Enabled(s, a)
    ensures var t, w, pc := R.Apply(s, a), a.w, s.writers[a.w];
      && pc.Owns() && pc.slot < |s.log|
      && var e := s.log[pc.slot];
      && t.log == s.log[pc.slot := e.(data := e.data + a.bytes)] && !e.stage.Finished?
      && |t.writers| == |s.writers| && t.writers == s.writers[w := t.writers[w]]
      && t.writers[w].Owns() && !t.writers[w].Finishing? && t.writers[w].slot == pc.slot && t.writers[w].req == pc.req
  {
    hide I.Inv, R.ScanHeader, R.Index, Splice, R.Read64, R.Write64, R.MakeHeader;
    S.OwnedEntry(s, a.w);
  }

  lemma FinishEffect(s: R.State, a: R.Action)
    requires I.Inv(s) && a.Finish? && R.Enabled(s, a)
    ensures var t, w, pc := R.Apply(s, a), a.w, s.writers[a.w];
      && t.log == s.log && |t.writers| == |s.writers| && t.writers == s.writers[w := t.writers[w]]
      && pc.Owns() && t.writers[w].Finishing? && t.writers[w].slot == pc.slot && t.writers[w].req == pc.req
  {
    hide I.Inv, R.ScanHeader, R.Index, Splice, R.Read64, R.Write64, R.MakeHeader;
  }

  // ----- The system

  ghost function Pcs(s: R.State, k: nat): seq<R.WriterPc>
    requires 2 * k + 2 <= |s.writers|
  {
    s.writers[2 * k..2 * k + 2]
  }

  /** The clients use the first writers of the ring buffer, two each; the others send no fragments. */
  ghost predicate Disciplined(s: R.State, clients: seq<Client>, a: R.Action, max: nat)
    requires max > HEADER_SIZE && 2 * |clients| <= |s.writers|
  {
    var n := 2 * |clients|;
    match a
    case Prepare(w, req) => if w < n then MayAsk(s.log, clients[w / 2], w % 2, req, max) else req.msg != FRAGMENT
    case WriteBytes(w, bytes) =>
      w < n ==> MayWrite(s.log, Pcs(s, w / 2), clients[w / 2], w % 2, bytes, max)
    case Finish(w) => w < n ==> MayFinish(s.log, Pcs(s, w / 2), clients[w / 2], w % 2, max)
    case _ => true
  }

  ghost function NextClients(s: R.State, clients: seq<Client>, a: R.Action): (next: seq<Client>)
    ensures |next| == |clients|
    ensures forall k :: 0 <= k < |clients| ==> next[k].m == clients[k].m && next[k].parts == clients[k].parts
  {
    var n := 2 * |clients|;
    if a.Prepare? && a.w < n && a.req.Acceptable(|s.sh.mem|) then
      var k := a.w / 2;
      clients[k := clients[k].(asked := clients[k].asked + 1)]
    else if Claims(s, a) && a.w < n then
      var k := a.w / 2;
      clients[k := clients[k].(mine := clients[k].mine + [|s.log|])]
    else clients
  }

  ghost predicate OutsidersOk(s: R.State, n: nat) {
    forall w :: n <= w < |s.writers| ==> s.writers[w].Idle? || s.writers[w].req.msg != FRAGMENT
  }

  ghost predicate MinesApart(clients: seq<Client>) {
    forall j, k, i :: 0 <= j < |clients| && 0 <= k < |clients| && j != k && i in clients[j].mine ==>
      i !in clients[k].mine
  }

  ghost predicate HasOwner(clients: seq<Client>, i: nat) {
    exists k :: 0 <= k < |clients| && i in clients[k].mine
  }

  ghost predicate AllCovered(log: seq<R.Entry>, clients: seq<Client>) {
    forall i :: 0 <= i < |log| && log[i].req.msg == FRAGMENT ==> HasOwner(clients, i)
  }

  ghost predicate ClientsOk(s: R.State, clients: seq<Client>, max: nat)
    requires max > HEADER_SIZE && 2 * |clients| <= |s.writers|
  {
    forall k :: 0 <= k < |clients| ==> ClientOk(s.log, Pcs(s, k), clients[k], max)
  }

  ghost predicate SysOk(s: R.State, clients: seq<Client>, max: nat) {
    && I.Inv(s) && max > HEADER_SIZE && 2 * |clients| <= |s.writers|
    && ClientsOk(s, clients, max) && OutsidersOk(s, 2 * |clients|)
    && MinesApart(clients) && AllCovered(s.log, clients)
  }

  /** The action is a step of ring buffer writer `w`. */
  predicate By(a: R.Action, w: nat) {
    (a.Prepare? || a.Step? || a.TryExchange? || a.WriteBytes? || a.Finish?) && a.w == w
  }

  // ----- Other clients

  /** A writer that is not the client's does not own any of its reservations. */
  lemma ForeignSlot(s: R.State, clients: seq<Client>, max: nat, w: nat, k: nat)
    requires SysOk(s, clients, max) && w < |s.writers| && s.writers[w].Owns() && k < |clients| && w / 2 != k
    ensures s.writers[w].slot !in clients[k].mine
  {
    hide I.Inv, AllCovered, Frags;
    var slot := s.writers[w].slot;
    assert ClientOk(s.log, Pcs(s, k), clients[k], max);
    if w < 2 * |clients| {
      var j := w / 2;
      assert ClientOk(s.log, Pcs(s, j), clients[j], max);
      assert Pcs(s, j)[w % 2] == s.writers[w];
      OwnFragment(s.log, Pcs(s, j), clients[j], w % 2, max);
      assert slot in clients[j].mine;
    } else {
      S.OwnedEntry(s, w);
    }
  }

  lemma OtherClient(s: R.State, clients: seq<Client>, a: R.Action, max: nat, k: nat)
    requires SysOk(s, clients, max) && R.Enabled(s, a) && k < |clients| && !By(a, 2 * k) && !By(a, 2 * k + 1)
    ensures var t := R.Apply(s, a);
      2 * k + 2 <= |t.writers| && ClientOk(t.log, Pcs(t, k), clients[k], max)
  {
    hide I.Inv, AllCovered, ClientOk, OutsidersOk, MinesApart, R.StepWriter, R.StageLog, R.ScanHeader, R.Index, Splice,
      R.Read64, R.InBounds;
    var t, c := R.Apply(s, a), clients[k];
    assert |t.writers| == |s.writers|;
    assert t.writers[2 * k] == s.writers[2 * k] && t.writers[2 * k + 1] == s.writers[2 * k + 1];
    assert Pcs(t, k) == Pcs(s, k);
    MineInLog(s.log, Pcs(s, k), c, max);
    T.StepLater(s, a);
    hide R.Apply;
    forall i | 0 <= i < |c.mine|
      ensures t.log[c.mine[i]] == s.log[c.mine[i]]
    {
      if (a.Step? || a.WriteBytes?) && s.writers[a.w].Owns() {
        ForeignSlot(s, clients, max, a.w, k);
        assert c.mine[i] in c.mine;
      }
      Elsewhere(s, a, c.mine[i]);
    }
    Unaffected(s.log, t.log, Pcs(s, k), c, max);
  }

  lemma MineInLog(log: seq<R.Entry>, p: seq<R.WriterPc>, c: Client, max: nat)
    requires max > HEADER_SIZE && ClientOk(log, p, c, max)
    ensures forall i :: 0 <= i < |c.mine| ==> c.mine[i] < |log|
  {
  }

  // ----- The client whose step it is

  lemma Twin(s: R.State, t: R.State, k: nat, b: nat)
    requires 2 * k + 2 <= |s.writers| == |t.writers| && b < 2
    requires t.writers == s.writers[2 * k + b := t.writers[2 * k + b]]
    ensures Pcs(s, k)[b] == s.writers[2 * k + b] && Pcs(t, k) == Pcs(s, k)[b := t.writers[2 * k + b]]
  {
  }

  lemma OwnPrepare(s: R.State, clients: seq<Client>, a: R.Action, max: nat, k: nat, b: nat)
    requires SysOk(s, clients, max) && a.Prepare? && R.Enabled(s, a) && Disciplined(s, clients, a, max)
    requires k < |clients| && b < 2 && a.w == 2 * k + b
    ensures var t := R.Apply(s, a);
      2 * k + 2 <= |t.writers| && ClientOk(t.log, Pcs(t, k), NextClients(s, clients, a)[k], max)
  {
    hide I.Inv, AllCovered, ClientOk, OutsidersOk, MinesApart, MayAsk;
    var t := R.Apply(s, a);
    Twin(s, t, k, b);
    if a.req.Acceptable(|s.sh.mem|) {
      AskedOk(s.log, Pcs(s, k), clients[k], b, a.req, max);
    } else {
      assert Pcs(t, k) == Pcs(s, k);
    }
  }

  lemma OwnStepOk(s: R.State, clients: seq<Client>, a: R.Action, max: nat, k: nat, b: nat)
    requires SysOk(s, clients, max) && a.Step? && R.Enabled(s, a)
    requires k < |clients| && b < 2 && a.w == 2 * k + b
    ensures var t := R.Apply(s, a);
      2 * k + 2 <= |t.writers| && ClientOk(t.log, Pcs(t, k), clients[k], max)
  {
    hide I.Inv, AllCovered, ClientOk, OutsidersOk, MinesApart, R.Apply, R.InBounds, Frags;
    var t, c, p := R.Apply(s, a), clients[k], Pcs(s, k);
    if s.writers[a.w].Owns() {
      OwnerEffect(s, a.w);
      Twin(s, t, k, b);
      OwnFragment(s.log, p, c, b, max);
      MovedOk(s.log, p, c, b, t.log[p[b].slot], t.writers[a.w], max);
    } else {
      ReserveEffect(s, a.w);
      Twin(s, t, k, b);
      Waits(s.log, p, c, b, max);
      StillReserving(s.log, p, c, b, t.writers[a.w], max);
    }
  }

  lemma Waits(log: seq<R.Entry>, p: seq<R.WriterPc>, c: Client, b: nat, max: nat)
    requires max > HEADER_SIZE && ClientOk(log, p, c, max) && b < 2 && !p[b].Idle? && !p[b].Owns()
    ensures p[b].req.wait
  {
    hide Frags, MineOk;
  }

  lemma OwnExchange(s: R.State, clients: seq<Client>, a: R.Action, max: nat, k: nat, b: nat)
    requires SysOk(s, clients, max) && a.TryExchange? && R.Enabled(s, a)
    requires k < |clients| && b < 2 && a.w == 2 * k + b
    ensures var t := R.Apply(s, a);
      2 * k + 2 <= |t.writers| && ClientOk(t.log, Pcs(t, k), NextClients(s, clients, a)[k], max)
  {
    hide I.Inv, AllCovered, ClientOk, OutsidersOk, MinesApart, R.Apply, R.InBounds, Frags;
    var t, c, p := R.Apply(s, a), clients[k], Pcs(s, k);
    ExchangeEffect(s, a);
    Twin(s, t, k, b);
    if Claims(s, a) {
      GotOk(s.log, p, c, b, t.log[|s.log|], t.writers[a.w], max);
    } else {
      StillReserving(s.log, p, c, b, t.writers[a.w], max);
    }
  }

  lemma OwnCopy(s: R.State, clients: seq<Client>, a: R.Action, max: nat, k: nat, b: nat)
    requires SysOk(s, clients, max) && a.WriteBytes? && R.Enabled(s, a) && Disciplined(s, clients, a, max)
    requires k < |clients| && b < 2 && a.w == 2 * k + b
    ensures var t := R.Apply(s, a);
      2 * k + 2 <= |t.writers| && ClientOk(t.log, Pcs(t, k), clients[k], max)
  {
    hide I.Inv, AllCovered, ClientOk, OutsidersOk, MinesApart, R.Apply, R.InBounds, Frags, MineOk;
    var t, c, p := R.Apply(s, a), clients[k], Pcs(s, k);
    CopyEffect(s, a);
    Twin(s, t, k, b);
    OwnFragment(s.log, p, c, b, max);
    MovedOk(s.log, p, c, b, t.log[p[b].slot], t.writers[a.w], max);
  }

  lemma OwnFinish(s: R.State, clients: seq<Client>, a: R.Action, max: nat, k: nat, b: nat)
    requires SysOk(s, clients, max) && a.Finish? && R.Enabled(s, a) && Disciplined(s, clients, a, max)
    requires k < |clients| && b < 2 && a.w == 2 * k + b
    ensures var t := R.Apply(s, a);
      2 * k + 2 <= |t.writers| && ClientOk(t.log, Pcs(t, k), clients[k], max)
  {
    hide I.Inv, AllCovered, ClientOk, OutsidersOk, MinesApart, R.Apply, R.InBounds, Frags, MayFinish;
    var t, c, p := R.Apply(s, a), clients[k], Pcs(s, k);
    FinishEffect(s, a);
    Twin(s, t, k, b);
    StartedFinish(s.log, p, c, b, t.writers[a.w], max);
  }

  // ----- One step of the system

  lemma EveryClient(s: R.State, clients: seq<Client>, a: R.Action, max: nat, k: nat)
    requires SysOk(s, clients, max) && R.Enabled(s, a) && Disciplined(s, clients, a, max) && k < |clients|
    ensures var t := R.Apply(s, a);
      2 * k + 2 <= |t.writers| && ClientOk(t.log, Pcs(t, k), NextClients(s, clients, a)[k], max)
  {
    hide SysOk, R.Apply, R.InBounds, Disciplined, ClientOk;
    if By(a, 2 * k) || By(a, 2 * k + 1) {
      var b := a.w - 2 * k;
      assert b < 2;
      match a {
        case Prepare(_, _) => OwnPrepare(s, clients, a, max, k, b);
        case Step(_) => OwnStepOk(s, clients, a, max, k, b);
        case TryExchange(_, _) => OwnExchange(s, clients, a, max, k, b);
        case WriteBytes(_, _) => OwnCopy(s, clients, a, max, k, b);
        case Finish(_) => OwnFinish(s, clients, a, max, k, b);
      }
    } else {
      OtherClient(s, clients, a, max, k);
      SameClient(s, clients, a, k);
    }
  }

  lemma SameClient(s: R.State, clients: seq<Client>, a: R.Action, k: nat)
    requires k < |clients| && !By(a, 2 * k) && !By(a, 2 * k + 1)
    ensures NextClients(s, clients, a)[k] == clients[k]
  {
    hide R.Request.Acceptable;
  }

  lemma OutsidersKept(s: R.State, clients: seq<Client>, a: R.Action, max: nat)
    requires SysOk(s, clients, max) && R.Enabled(s, a) && Disciplined(s, clients, a, max)
    ensures |R.Apply(s, a).writers| == |s.writers| && OutsidersOk(R.Apply(s, a), 2 * |clients|)
  {
    hide I.Inv, AllCovered, ClientsOk, MinesApart, MayAsk, MayWrite, MayFinish, R.StepWriter, R.StageLog, R.ScanHeader,
      R.Index, Splice, R.Read64, R.InBounds, R.Request.Acceptable;
    var t := R.Apply(s, a);
    match a {
      case Step(w) =>
        if s.writers[w].Owns() {
          OwnerEffect(s, w);
        } else {
          ReserveEffect(s, w);
        }
      case TryExchange(w, _) => ExchangeEffect(s, a);
      case WriteBytes(w, _) => CopyEffect(s, a);
      case Finish(w) => FinishEffect(s, a);
      case _ =>
    }
  }

  /** How the log grows: by the claims, and the requests in it do not change. */
  lemma LogGrows(s: R.State, a: R.Action)
    requires I.Inv(s) && R.Enabled(s, a)
    ensures var t := R.Apply(s, a);
      && |t.log| == |s.log| + (if Claims(s, a) then 1 else 0)
      && (forall i :: 0 <= i < |s.log| ==> t.log[i].req == s.log[i].req)
      && (Claims(s, a) ==> t.log[|s.log|].req == s.writers[a.w].req)
  {
    hide I.Inv, R.StepWriter, R.StageLog, R.ScanHeader, R.Index, Splice, R.Read64, R.InBounds;
    T.StepLater(s, a);
    match a {
      case Step(w) =>
        if s.writers[w].Owns() {
          OwnerEffect(s, w);
        } else {
          ReserveEffect(s, w);
        }
      case TryExchange(_, _) => ExchangeEffect(s, a);
      case WriteBytes(_, _) => CopyEffect(s, a);
      case Finish(_) => FinishEffect(s, a);
      case _ =>
    }
  }

  lemma MinesStayApart(s: R.State, clients: seq<Client>, a: R.Action, max: nat)
    requires SysOk(s, clients, max)
    ensures MinesApart(NextClients(s, clients, a))
  {
    hide I.Inv, AllCovered, OutsidersOk, ClientOk, R.Request.Acceptable;
    forall k | 0 <= k < |clients|
      ensures |s.log| !in clients[k].mine
    {
      MineInLog(s.log, Pcs(s, k), clients[k], max);
    }
  }

  lemma StillOwned(s: R.State, clients: seq<Client>, a: R.Action, i: nat)
    requires HasOwner(clients, i)
    ensures HasOwner(NextClients(s, clients, a), i)
  {
    hide R.Request.Acceptable, Claims;
    var next := NextClients(s, clients, a);
    var k :| 0 <= k < |clients| && i in clients[k].mine;
    assert i in next[k].mine;
  }

  /** A fragment that is claimed is one of a client's, since no other writer asks for fragments. */
  lemma NewOwned(s: R.State, clients: seq<Client>, a: R.Action)
    requires 2 * |clients| <= |s.writers| && OutsidersOk(s, 2 * |clients|)
    requires Claims(s, a) && s.writers[a.w].req.msg == FRAGMENT
    ensures HasOwner(NextClients(s, clients, a), |s.log|)
  {
    var next := NextClients(s, clients, a);
    assert a.w < 2 * |clients|;
    assert next[a.w / 2].mine == clients[a.w / 2].mine + [|s.log|];
    assert |s.log| in next[a.w / 2].mine;
  }

  lemma StaysCovered(s: R.State, clients: seq<Client>, a: R.Action, max: nat)
    requires SysOk(s, clients, max) && R.Enabled(s, a)
    ensures AllCovered(R.Apply(s, a).log, NextClients(s, clients, a))
  {
    hide I.Inv, ClientsOk, MinesApart, OutsidersOk, HasOwner, R.Apply, R.Enabled, NextClients, Claims;
    LogGrows(s, a);
    var t := R.Apply(s, a);
    forall i | 0 <= i < |t.log| && t.log[i].req.msg == FRAGMENT
      ensures HasOwner(NextClients(s, clients, a), i)
    {
      if i < |s.log| {
        StillOwned(s, clients, a, i);
      } else {
        NewOwned(s, clients, a);
      }
    }
  }

  lemma SysStep(s: R.State, clients: seq<Client>, a: R.Action, max: nat)
    requires SysOk(s, clients, max) && R.Enabled(s, a) && Disciplined(s, clients, a, max)
    ensures SysOk(R.Apply(s, a), NextClients(s, clients, a), max)
  {
    var t, next := R.Apply(s, a), NextClients(s, clients, a);
    OutsidersKept(s, clients, a, max);
    MinesStayApart(s, clients, a, max);
    StaysCovered(s, clients, a, max);
    D.StepSafe(s, a);
    hide I.Inv, R.Apply, R.InBounds, Disciplined, NextClients, ClientOk, OutsidersOk, MinesApart, AllCovered;
    forall k | 0 <= k < |clients|
      ensures ClientOk(t.log, Pcs(t, k), next[k], max)
    {
      EveryClient(s, clients, a, max, k);
    }
  }

  // ----- Runs

  /** A run of the ring buffer in which the clients keep to their programs. */
  ghost predicate IsSysRun(s: R.State, clients: seq<Client>, actions: seq<R.Action>, max: nat)
    decreases |actions|
  {
    && max > HEADER_SIZE && 2 * |clients| <= |s.writers|
    && (actions != [] ==>
      && R.Enabled(s, actions[0]) && Disciplined(s, clients, actions[0], max)
      && IsSysRun(R.Apply(s, actions[0]), NextClients(s, clients, actions[0]), actions[1..], max))
  }

  ghost function RunClients(s: R.State, clients: seq<Client>, actions: seq<R.Action>, max: nat): (r: seq<Client>)
    requires IsSysRun(s, clients, actions, max)
    ensures |r| == |clients|
    ensures forall k :: 0 <= k < |clients| ==> r[k].m == clients[k].m && r[k].parts == clients[k].parts
    decreases |actions|
  {
    if actions == [] then clients
    else RunClients(R.Apply(s, actions[0]), NextClients(s, clients, actions[0]), actions[1..], max)
  }

  lemma {:induction false} SysRun(s: R.State, clients: seq<Client>, actions: seq<R.Action>, max: nat)
    requires SysOk(s, clients, max) && IsSysRun(s, clients, actions, max)
    ensures R.IsRun(s, actions) && SysOk(R.Run(s, actions), RunClients(s, clients, actions, max), max)
    decreases |actions|
  {
    hide SysOk, R.Apply, R.Enabled, Disciplined, NextClients;
    if actions != [] {
      SysStep(s, clients, actions[0], max);
      SysRun(R.Apply(s, actions[0]), NextClients(s, clients, actions[0]), actions[1..], max);
    }
  }

  /** No client has asked for anything yet. */
  ghost predicate Fresh(clients: seq<Client>, max: nat) {
    forall k :: 0 <= k < |clients| ==> CanSend(clients[k], max) && clients[k].asked == 0 && clients[k].mine == []
  }

  lemma SysStart(s: R.State, clients: seq<Client>, max: nat)
    requires R.Init(s) && Fresh(clients, max) && max > HEADER_SIZE && 2 * |clients| <= |s.writers|
    ensures SysOk(s, clients, max)
  {
    D.InitSafe(s);
    hide I.Inv, CanSend;
    forall k | 0 <= k < |clients|
      ensures ClientOk(s.log, Pcs(s, k), clients[k], max)
    {
      assert Pcs(s, k)[0] == s.writers[2 * k] && Pcs(s, k)[1] == s.writers[2 * k + 1];
    }
  }

  // ----- What the clients have left in the ring buffer

  /** The clients that have got a reservation. */
  ghost function Started(clients: seq<Client>): seq<Client> {
    if clients == [] then [] else (if clients[0].mine == [] then [] else [clients[0]]) + Started(clients[1..])
  }

  lemma {:induction false} StartedAre(clients: seq<Client>, c: Client)
    ensures c in Started(clients) <==> c in clients && c.mine != []
  {
    if clients != [] {
      StartedAre(clients[1..], c);
      assert clients == [clients[0]] + clients[1..];
    }
  }

  lemma {:induction false} StartedApart(clients: seq<Client>)
    requires MinesApart(clients)
    ensures MinesApart(Started(clients))
  {
    if clients != [] {
      var first, rest := clients[0], clients[1..];
      var more := Started(rest);
      assert MinesApart(rest) by {
        assert forall k :: 0 <= k < |rest| ==> rest[k] == clients[k + 1];
      }
      StartedApart(rest);
      forall k, i | 0 <= k < |more| && i in more[k].mine
        ensures i !in first.mine
      {
        StartedAre(rest, more[k]);
        var j :| 0 <= j < |rest| && rest[j] == more[k];
        assert clients[j + 1] == more[k];
      }
      hide MinesApart;
      ApartPrepended(first, more);
      assert [] + more == more;
    }
  }

  lemma ApartPrepended(first: Client, rest: seq<Client>)
    requires MinesApart(rest) && forall k, i :: 0 <= k < |rest| && i in rest[k].mine ==> i !in first.mine
    ensures MinesApart([first] + rest)
  {
  }

  function Mines(clients: seq<Client>): (mines: seq<seq<nat>>)
    ensures |mines| == |clients| && forall k :: 0 <= k < |clients| ==> mines[k] == clients[k].mine
  {
    seq(|clients|, k requires 0 <= k < |clients| => clients[k].mine)
  }

  /** The messages being sent, each under the identifier that its first reservation gave it. */
  function Jobs(log: seq<R.Entry>, clients: seq<Client>): (jobs: seq<Job>)
    ensures |jobs| == |clients|
    ensures forall k :: 0 <= k < |clients| ==> jobs[k] == JobOf(clients[k], Id(log, clients[k]))
  {
    seq(|clients|, k requires 0 <= k < |clients| => JobOf(clients[k], Id(log, clients[k])))
  }

  lemma ClientWrites(log: seq<R.Entry>, p: seq<R.WriterPc>, c: Client, max: nat)
    requires max > HEADER_SIZE && ClientOk(log, p, c, max) && c.mine != []
    ensures WritesJob(Slots(log), c.mine, JobOf(c, Id(log, c)), max)
  {
    hide Job.Emitted, PcOk, CanSend;
    var job, slots := JobOf(c, Id(log, c)), Slots(log);
    assert job.Emitted(max).Fragments() == Frags(c, log[c.mine[0]].start, max);
    forall i | 0 <= i < |c.mine|
      ensures slots[c.mine[i]] == SlotOf(log[c.mine[i]])
    {
    }
  }

  /** Identifiers are positions before the tail. */
  lemma IdBelowTail(s: R.State, c: Client)
    requires I.Inv(s) && c.mine != [] && c.mine[0] < |s.log|
    ensures Id(s.log, c) < s.sh.tail
  {
    SlotsWellFormed(s);
    hide I.Inv;
    assert Slots(s.log)[c.mine[0]] == SlotOf(s.log[c.mine[0]]);
  }

  lemma StartedWritable(s: R.State, clients: seq<Client>, max: nat, c: Client)
    requires SysOk(s, clients, max) && s.sh.tail <= Pow256(8) && c in Started(clients)
    ensures c.mine != [] && Writable(JobOf(c, Id(s.log, c)), max)
    ensures WritesJob(Slots(s.log), c.mine, JobOf(c, Id(s.log, c)), max)
  {
    hide I.Inv, MinesApart, AllCovered, OutsidersOk, Started, WritesJob, PcOk, Pow256, Frags;
    StartedAre(clients, c);
    var k :| 0 <= k < |clients| && clients[k] == c;
    assert ClientOk(s.log, Pcs(s, k), c, max);
    ClientWrites(s.log, Pcs(s, k), c, max);
    IdBelowTail(s, c);
  }

  lemma StartedOwn(clients: seq<Client>, i: nat)
    requires HasOwner(clients, i)
    ensures Owned(Mines(Started(clients)), i)
  {
    var k :| 0 <= k < |clients| && i in clients[k].mine;
    StartedAre(clients, clients[k]);
    hide Started;
    var j :| 0 <= j < |Started(clients)| && Started(clients)[j] == clients[k];
    assert i in Mines(Started(clients))[j];
  }

  /** So the ring buffer holds what oversized writers leave in it. */
  lemma SystemWritten(s: R.State, clients: seq<Client>, max: nat)
    requires SysOk(s, clients, max) && s.sh.tail <= Pow256(8)
    ensures var started := Started(clients);
      AllWritten(Slots(s.log), Mines(started), Jobs(s.log, started), max)
  {
    hide I.Inv, ClientsOk, OutsidersOk, Started, HasOwner, Owned, Writable, WritesJob, Id, Pow256;
    var started, slots := Started(clients), Slots(s.log);
    forall k | 0 <= k < |started|
      ensures
        && Writable(Jobs(s.log, started)[k], max)
        && WritesJob(slots, Mines(started)[k], Jobs(s.log, started)[k], max)
    {
      StartedWritable(s, clients, max, started[k]);
    }
    StartedApart(clients);
    forall i | 0 <= i < |slots| && slots[i].msg == FRAGMENT
      ensures Owned(Mines(started), i)
    {
      assert slots[i] == SlotOf(s.log[i]);
      StartedOwn(clients, i);
    }
  }

  /** The client has got a reservation for each of its fragments. */
  predicate Placed(log: seq<R.Entry>, c: Client, max: nat)
    requires max > HEADER_SIZE
  {
    c.mine != [] && |c.mine| == |Frags(c, Id(log, c), max)|
  }

  lemma {:induction false} AllStarted(clients: seq<Client>)
    requires forall k :: 0 <= k < |clients| ==> clients[k].mine != []
    ensures Started(clients) == clients
  {
    if clients != [] {
      AllStarted(clients[1..]);
    }
  }

  /**
  Over every run in which the clients keep to their programs, up to the end of the 64-bit positions: the reader, fed
  what the ring buffer hands over, has dispatched exactly the messages whose last fragment has been handed over.  When
  every fragment of every client has been handed over, each client's message has been dispatched once.
  */
  lemma SystemMessagesArrive(s: R.State, clients: seq<Client>, actions: seq<R.Action>, max: nat)
    returns (sents: seq<Sent>, order: seq<nat>)
    requires R.Init(s) && Fresh(clients, max) && IsSysRun(s, clients, actions, max)
    requires R.IsRun(s, actions) && R.Run(s, actions).sh.tail <= Pow256(8)
    ensures var t, after := R.Run(s, actions), RunClients(s, clients, actions, max);
      && AllSent(Jobs(t.log, Started(after)), sents, max) && Interleaving(sents, order)
      && Fed(t.delivered) == Reads(sents, order) && Right(sents, order)
    ensures var t, after := R.Run(s, actions), RunClients(s, clients, actions, max);
      (forall k :: 0 <= k < |after| ==> Placed(t.log, after[k], max)) && |t.delivered| == |t.log| ==>
        |sents| == |clients| && ArrivesRight(Jobs(t.log, after), sents, order)
  {
    hide AllWritten, AllSent, Interleaving, Right, Reads, Fed, Owners, AllArrive, ArrivesRight, Started, Placed, Fresh,
      RunClients, Disciplined, SysOk, R.Init, R.IsRun, R.Run;
    SysStart(s, clients, max);
    SysRun(s, clients, actions, max);
    var t, after := R.Run(s, actions), RunClients(s, clients, actions, max);
    SystemWritten(t, after, max);
    var started := Started(after);
    var mines, jobs := Mines(started), Jobs(t.log, started);
    sents, order := RingMessagesArrive(s, actions, mines, jobs, max);
    if (forall k :: 0 <= k < |after| ==> Placed(t.log, after[k], max)) && |t.delivered| == |t.log| {
      AllPlaced(t.log, after, max, sents);
      AllHandedOver(Slots(t.log), mines, jobs, max, sents);
    }
  }

  lemma PlacedSent(log: seq<R.Entry>, c: Client, max: nat, sent: Sent)
    requires max > HEADER_SIZE && Placed(log, c, max) && SentFor(JobOf(c, Id(log, c)), max, sent)
    ensures |c.mine| == |sent.pieces|
  {
    hide Job.Emitted, Sent.Fragment, Sent.Valid, Sent.Payload, Job.Payload;
  }

  /** Clients that have all their reservations have all started, each with as many as its message has pieces. */
  lemma AllPlaced(log: seq<R.Entry>, clients: seq<Client>, max: nat, sents: seq<Sent>)
    requires max > HEADER_SIZE && forall k :: 0 <= k < |clients| ==> Placed(log, clients[k], max)
    requires AllSent(Jobs(log, Started(clients)), sents, max)
    ensures Started(clients) == clients && |sents| == |clients|
    ensures forall k :: 0 <= k < |clients| ==> |clients[k].mine| == |sents[k].pieces|
  {
    hide Started, Placed, SentFor, Writable, Id, Frags;
    forall k | 0 <= k < |clients|
      ensures clients[k].mine != []
    {
      PlacedMine(log, clients[k], max);
    }
    AllStarted(clients);
    forall k | 0 <= k < |clients|
      ensures |clients[k].mine| == |sents[k].pieces|
    {
      PlacedSent(log, clients[k], max, sents[k]);
    }
  }

  lemma PlacedMine(log: seq<R.Entry>, c: Client, max: nat)
    requires max > HEADER_SIZE && Placed(log, c, max)
    ensures c.mine != []
  {
  }
}
