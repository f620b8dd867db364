/** From one node's ledger to another node: the messages sent, with the entries they announce, and what arrives. */
module NodeReplication {
  import opened Bytes
  import opened Options
  import opened Sequences
  import opened NodeConnections
  import opened NodeFraming
  import opened LedgerStore
  import opened LedgerRanges
  import opened LedgerRuns
  import opened LedgerReads

  /** Strict reads, without a cap, of a ledger. */
  ghost function Reader(s: Store): LedgerReader
    requires Sound(s)
  {
    (from: nat, upto: nat) => ReadResult(s, from, upto, false, true, None)
  }

  predicate IsAppendEntries(m: Message) {
    m.msgType == CONSENSUS_MSG && |m.payload| >= 24 && DecodeLE(m.payload[..8]) == RAFT_APPEND_ENTRIES
  }

  /** The message is long enough for what its type says it holds. */
  predicate Readable(m: Message) {
    m.msgType == CONSENSUS_MSG ==>
      |m.payload| >= 8 && (DecodeLE(m.payload[..8]) == RAFT_APPEND_ENTRIES ==> |m.payload| >= 24)
  }

  /** Sending fails exactly for messages that are not. */
  lemma AffixFailsIff(m: Message, ledger: LedgerReader)
    ensures Affix(m, ledger).None? <==> !Readable(m)
  {
    hide DecodeLE;
  }

  /** The entries of the plain log that the message announces, if the log holds all of them. */
  function Announced(m: Message, p: Plain): seq<byte> {
    if !IsAppendEntries(m) then []
    else
      var idx, prevIdx := DecodeLE(m.payload[8..16]), DecodeLE(m.payload[16..24]);
      if p.base < prevIdx + 1 <= idx <= p.LastIdx() then PlainRange(p, prevIdx + 1, idx) else []
  }

  lemma AffixAnnounced(base: nat, threshold: nat, ops: seq<Op>, s: Store, p: Plain, m: Message)
    requires After(base, threshold, ops, s, p) && Readable(m)
    ensures Sound(s) && Affix(m, Reader(s)) == Some(Announced(m, p))
  {
    hide Sound, DecodeLE, ReadResult, PlainRange, After;
    SoundAfter(base, threshold, ops, s, p);
    if IsAppendEntries(m) {
      var idx, prevIdx := DecodeLE(m.payload[8..16]), DecodeLE(m.payload[16..24]);
      ReadReturnsRange(base, threshold, ops, s, p, prevIdx + 1, idx, false);
    }
  }

  lemma SoundAfter(base: nat, threshold: nat, ops: seq<Op>, s: Store, p: Plain)
    requires After(base, threshold, ops, s, p)
    ensures Sound(s)
  {
    hide Sound, Run, PlainRun;
  }

  /** A message, and what the sender's ledger has been through when it is sent. */
  datatype Send = Send(m: Message, ops: seq<Op>)

  ghost function LedgerAt(base: nat, threshold: nat, ops: seq<Op>): (s: Store)
    ensures Sound(s)
  {
    EmptySound(base, threshold);
    Run(Empty(base, threshold), ops)
  }

  function LogAt(base: nat, ops: seq<Op>): Plain {
    PlainRun(Plain([], base, base), ops)
  }

  /** The message as the receiver is to get it. */
  function WithEntries(base: nat, send: Send): Message {
    send.m.(payload := send.m.payload + Announced(send.m, LogAt(base, send.ops)))
  }

  ghost predicate Sendable(base: nat, send: Send) {
    && send.m.Valid() && Readable(send.m)
    && |send.m.Body()| + |Announced(send.m, LogAt(base, send.ops))| < Pow256(FRAME_SIZE)
  }

  lemma SentFramed(base: nat, threshold: nat, send: Send)
    requires Sendable(base, send)
    ensures WithEntries(base, send).Valid()
    ensures Outbound(send.m.Body(), Reader(LedgerAt(base, threshold, send.ops))) ==
      Some(WithEntries(base, send).Frame())
  {
    hide Sound, Outbound, Affix, Announced, Message.Body, Message.Frame, Pow256, Run, PlainRun, Readable, Message.Valid;
    var s, p := LedgerAt(base, threshold, send.ops), LogAt(base, send.ops);
    EmptySound(base, threshold);
    assert After(base, threshold, send.ops, s, p);
    AffixAnnounced(base, threshold, send.ops, s, p, send.m);
    OutboundFramed(send.m, Reader(s));
  }

  ghost predicate AllSent(base: nat, threshold: nat, sends: seq<Send>, wires: seq<seq<byte>>) {
    && |wires| == |sends|
    && forall i :: 0 <= i < |sends| ==>
      && Sendable(base, sends[i])
      && Outbound(sends[i].m.Body(), Reader(LedgerAt(base, threshold, sends[i].ops))) == Some(wires[i])
  }

  function Expected(base: nat, sends: seq<Send>): (msgs: seq<Message>)
    ensures |msgs| == |sends|
    ensures forall i :: 0 <= i < |sends| ==> msgs[i] == WithEntries(base, sends[i])
  {
    seq(|sends|, i requires 0 <= i < |sends| => WithEntries(base, sends[i]))
  }

  lemma {:induction false} FramesAt(msgs: seq<Message>, i: nat)
    ensures |Frames(msgs)| == |msgs|
    ensures i < |msgs| ==> Frames(msgs)[i] == msgs[i].Frame()
    decreases |msgs|
  {
    hide Message.Frame;
    if msgs != [] {
      FramesAt(msgs[1..], if i > 0 then i - 1 else 0);
    }
  }

  lemma WiresAre(base: nat, threshold: nat, sends: seq<Send>, wires: seq<seq<byte>>)
    requires AllSent(base, threshold, sends, wires)
    ensures AllValid(Expected(base, sends)) && wires == Frames(Expected(base, sends))
  {
    hide Sendable, Outbound, Message.Frame, Message.Valid, WithEntries, LedgerAt, Frames;
    var msgs := Expected(base, sends);
    FramesAt(msgs, 0);
    forall i | 0 <= i < |sends|
      ensures msgs[i].Valid() && wires[i] == Frames(msgs)[i]
    {
      SentFramed(base, threshold, sends[i]);
      FramesAt(msgs, i);
    }
  }

  /**
  Messages sent one after another, the sender's ledger going on in between in any way, and the bytes cut into
  reads of any sizes: the receiver gets exactly these messages, in order, each append-entries message followed by
  the entries of the sender's log that it announces, and nothing is left over.
  */
  lemma EntriesReplicated(base: nat, threshold: nat, sends: seq<Send>, wires: seq<seq<byte>>, chunks: seq<seq<byte>>)
    requires AllSent(base, threshold, sends, wires) && Flatten(chunks) == Flatten(wires)
    ensures FedAll(Fresh(), chunks) == Parsed(Expected(base, sends), [], None, true)
  {
    hide AllSent, Flatten, FedAll, AllValid, Frames, Expected;
    WiresAre(base, threshold, sends, wires);
    var next := Message(0, [], []);
    EmptyMessage(next);
    assert next.Frame()[..0] == [];
    assert Stream(Expected(base, sends)) + [] == Stream(Expected(base, sends));
    FramesDelivered(Expected(base, sends), next, 0, chunks);
  }

  lemma EmptyMessage(m: Message)
    requires m == Message(0, [], [])
    ensures m.Valid() && |m.Frame()| > 0
  {
    Pow256Values();
  }
}
