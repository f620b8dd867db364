/** The receiver delivers what the sender framed, however the stream is cut into reads. */
module NodeFraming {
  import opened Bytes
  import opened Options
  import opened Sequences
  import opened NodeConnections

  // ----- Resuming

  lemma ReadBodyMore(p: seq<byte>, q: seq<byte>, frame: nat)
    requires frame <= |p|
    ensures ReadBody(p + q, frame) == ReadBody(p, frame)
  {
    hide DecodeLE;
    if frame >= TYPE_SIZE + LENGTH_SIZE {
      assert (p + q)[TYPE_SIZE..TYPE_SIZE + LENGTH_SIZE] == p[TYPE_SIZE..TYPE_SIZE + LENGTH_SIZE];
      assert (p + q)[..TYPE_SIZE] == p[..TYPE_SIZE];
      var length := DecodeLE(p[TYPE_SIZE..TYPE_SIZE + LENGTH_SIZE]);
      var start := TYPE_SIZE + LENGTH_SIZE + length;
      if start <= frame {
        assert (p + q)[TYPE_SIZE + LENGTH_SIZE..start] == p[TYPE_SIZE + LENGTH_SIZE..start];
        assert (p + q)[start..frame] == p[start..frame];
      }
    }
  }

  /** Parsing some bytes and then, with what is left of them, some more, is parsing them all. */
  lemma {:induction false} Resumes(p: seq<byte>, q: seq<byte>, size: Option<nat>)
    ensures var a := Parse(p, size);
      && (a.ok ==> Parse(p + q, size) == Continue(a.delivered, Parse(a.rest + q, a.msgSize)))
      && (!a.ok ==> !Parse(p + q, size).ok)
    decreases |p|, 2
  {
    match size {
      case None => ResumesLength(p, q);
      case Some(frame) => ResumesBody(p, q, frame);
    }
  }

  lemma {:induction false} ResumesLength(p: seq<byte>, q: seq<byte>)
    ensures var a := Parse(p, None);
      && (a.ok ==> Parse(p + q, None) == Continue(a.delivered, Parse(a.rest + q, a.msgSize)))
      && (!a.ok ==> !Parse(p + q, None).ok)
    decreases |p|, 1
  {
    hide Parse, DecodeLE;
    ParseLength(p);
    if |p| < FRAME_SIZE {
      assert Continue([], Parse(p + q, None)) == Parse(p + q, None);
    } else {
      ParseLength(p + q);
      assert (p + q)[..FRAME_SIZE] == p[..FRAME_SIZE] && (p + q)[FRAME_SIZE..] == p[FRAME_SIZE..] + q;
      Resumes(p[FRAME_SIZE..], q, Some(DecodeLE(p[..FRAME_SIZE])));
    }
  }

  lemma {:induction false} ResumesBody(p: seq<byte>, q: seq<byte>, frame: nat)
    ensures var a := Parse(p, Some(frame));
      && (a.ok ==> Parse(p + q, Some(frame)) == Continue(a.delivered, Parse(a.rest + q, a.msgSize)))
      && (!a.ok ==> !Parse(p + q, Some(frame)).ok)
    decreases |p|, 0
  {
    hide Parse, DecodeLE, ReadBody;
    ParseBody(p, frame);
    if |p| < frame {
      assert Continue([], Parse(p + q, Some(frame))) == Parse(p + q, Some(frame));
    } else {
      ParseBody(p + q, frame);
      ReadBodyMore(p, q, frame);
      assert (p + q)[frame..] == p[frame..] + q;
      match ReadBody(p, frame) {
        case None =>
        case Some(m) =>
          ResumesLength(p[frame..], q);
          var a := Parse(p[frame..], None);
          Joined(m, a.delivered, Parse(a.rest + q, a.msgSize));
      }
    }
  }

  lemma Joined(m: Message, delivered: seq<Message>, p: Parsed)
    ensures Continue(delivered, p).After(m) == Continue([m] + delivered, p)
  {
    assert [m] + (delivered + p.delivered) == [m] + delivered + p.delivered;
  }

  // ----- Reads

  /** One read, on top of what was delivered and left before; nothing more happens after a failure. */
  function Fed(state: Parsed, chunk: seq<byte>): Parsed {
    if state.ok then Continue(state.delivered, Parse(state.rest + chunk, state.msgSize)) else state
  }

  function FedAll(state: Parsed, chunks: seq<seq<byte>>): Parsed
    decreases |chunks|
  {
    if chunks == [] then state else FedAll(Fed(state, chunks[0]), chunks[1..])
  }

  function Fresh(): Parsed {
    Parsed([], [], None, true)
  }

  lemma {:induction false} Failed(state: Parsed, chunks: seq<seq<byte>>)
    requires !state.ok
    ensures FedAll(state, chunks) == state
    decreases |chunks|
  {
    if chunks != [] {
      Failed(state, chunks[1..]);
    }
  }

  lemma {:induction false} FedSoFar(seen: seq<byte>, chunks: seq<seq<byte>>)
    requires Parse(seen, None).ok
    ensures FedAll(Parse(seen, None), chunks).ok == Parse(seen + Flatten(chunks), None).ok
    ensures Parse(seen + Flatten(chunks), None).ok ==>
      FedAll(Parse(seen, None), chunks) == Parse(seen + Flatten(chunks), None)
    decreases |chunks|
  {
    hide Parse;
    if chunks == [] {
      assert seen + Flatten(chunks) == seen;
    } else {
      var now, rest := seen + chunks[0], Flatten(chunks[1..]);
      assert seen + (chunks[0] + rest) == now + rest;
      Resumes(seen, chunks[0], None);
      assert Fed(Parse(seen, None), chunks[0]).ok == Parse(now, None).ok by {
        FedOnce(seen, chunks[0]);
      }
      if Parse(now, None).ok {
        FedSoFar(now, chunks[1..]);
      } else {
        Failed(Fed(Parse(seen, None), chunks[0]), chunks[1..]);
        Resumes(now, rest, None);
      }
    }
  }

  lemma FedOnce(seen: seq<byte>, chunk: seq<byte>)
    requires Parse(seen, None).ok
    ensures Fed(Parse(seen, None), chunk) == Parse(seen + chunk, None)
  {
    hide Parse;
    Resumes(seen, chunk, None);
  }

  /**
  However a stream of bytes, any bytes, is cut into reads, the outcome is that of reading it at once: the
  same messages, the same bytes left over, and the same verdict on whether it is well formed.
  */
  lemma ChunkingIrrelevant(chunks: seq<seq<byte>>)
    ensures FedAll(Fresh(), chunks).ok == Parse(Flatten(chunks), None).ok
    ensures Parse(Flatten(chunks), None).ok ==> FedAll(Fresh(), chunks) == Parse(Flatten(chunks), None)
  {
    hide FedAll, Flatten;
    assert Parse([], None) == Fresh();
    FedSoFar([], chunks);
    assert [] + Flatten(chunks) == Flatten(chunks);
  }

  // ----- How it fails

  /** Where in the stream the body of the message that does not fit its frame begins. */
  function MisfitAt(data: seq<byte>, size: Option<nat>): int {
    |data| - |Parse(data, size).rest|
  }

  /** Of a stream on which parsing fails, the beginnings that include the whole frame fail, at the same place, and the
      others do not. */
  lemma {:induction false} FailsFrom(data: seq<byte>, size: Option<nat>, n: nat)
    requires !Parse(data, size).ok && n <= |data|
    ensures Parse(data, size).msgSize.Some? && MisfitAt(data, size) >= 0
    ensures Parse(data[..n], size).ok <==> n < MisfitAt(data, size) + Parse(data, size).msgSize.value
    ensures !Parse(data[..n], size).ok ==>
      MisfitAt(data[..n], size) == MisfitAt(data, size) && Parse(data[..n], size).msgSize == Parse(data, size).msgSize
    decreases |data|, if size.None? then 1 else 0
  {
    hide DecodeLE, ReadBody, Parse;
    var part := data[..n];
    match size {
      case None =>
        ParseLength(data);
        ParseLength(part);
        var rest := data[FRAME_SIZE..];
        var frame := DecodeLE(data[..FRAME_SIZE]);
        FailsFrom(rest, Some(frame), if n < FRAME_SIZE then 0 else n - FRAME_SIZE);
        if n >= FRAME_SIZE {
          assert part[..FRAME_SIZE] == data[..FRAME_SIZE] && part[FRAME_SIZE..] == rest[..n - FRAME_SIZE];
        }
      case Some(frame) =>
        ParseBody(data, frame);
        ParseBody(part, frame);
        if n >= frame {
          ReadBodyMore(part, data[n..], frame);
          assert part + data[n..] == data;
        }
        if ReadBody(data, frame).Some? {
          var rest := data[frame..];
          FailsFrom(rest, None, if n < frame then 0 else n - frame);
          if n >= frame {
            assert part[frame..] == rest[..n - frame];
          }
        }
    }
  }

  lemma {:induction false} FedInTwo(state: Parsed, a: seq<seq<byte>>, b: seq<seq<byte>>)
    ensures FedAll(state, a + b) == FedAll(FedAll(state, a), b)
    decreases |a|
  {
    if a == [] {
      assert a + b == b;
    } else {
      assert (a + b)[1..] == a[1..] + b;
      FedInTwo(Fed(state, a[0]), a[1..], b);
    }
  }

  /** The read after which parsing fails leaves things as they are. */
  lemma FailsAtRead(chunks: seq<seq<byte>>, n: nat)
    requires n < |chunks| && Parse(Flatten(chunks[..n]), None).ok && !Parse(Flatten(chunks[..n + 1]), None).ok
    ensures FedAll(Fresh(), chunks) == Parse(Flatten(chunks[..n + 1]), None)
  {
    hide Parse, FedAll, Flatten, Fed;
    var seen, rest := chunks[..n], chunks[n + 1..];
    ChunkingIrrelevant(seen);
    FedOnce(Flatten(seen), chunks[n]);
    FlattenAdded(chunks, n);
    FedSingle(FedAll(Fresh(), seen), chunks[n]);
    FedInTwo(Fresh(), seen, [chunks[n]]);
    assert seen + [chunks[n]] == chunks[..n + 1];
    FedInTwo(Fresh(), chunks[..n + 1], rest);
    assert chunks[..n + 1] + rest == chunks;
    Failed(Parse(Flatten(chunks[..n + 1]), None), rest);
  }

  lemma FlattenAdded(chunks: seq<seq<byte>>, n: nat)
    requires n < |chunks|
    ensures Flatten(chunks[..n + 1]) == Flatten(chunks[..n]) + chunks[n]
  {
    hide Flatten;
    assert chunks[..n + 1] == chunks[..n] + [chunks[n]];
    FlattenAppended(chunks[..n], chunks[n]);
  }

  lemma FedSingle(state: Parsed, chunk: seq<byte>)
    ensures FedAll(state, [chunk]) == Fed(state, chunk)
  {
    hide Fed;
    assert [chunk][1..] == [];
  }

  /** The first read with which `total` bytes have arrived. */
  lemma {:induction false} FirstWith(chunks: seq<seq<byte>>, total: nat) returns (n: nat)
    requires 0 < total <= |Flatten(chunks)|
    ensures n < |chunks| && |Flatten(chunks[..n])| < total <= |Flatten(chunks[..n + 1])|
    decreases |chunks|
  {
    if chunks == [] {
      assert false;
    }
    var last := |chunks| - 1;
    FlattenAdded(chunks, last);
    assert chunks[..last + 1] == chunks;
    if |Flatten(chunks[..last])| < total {
      n := last;
    } else {
      n := FirstWith(chunks[..last], total);
      assert chunks[..last][..n] == chunks[..n] && chunks[..last][..n + 1] == chunks[..n + 1];
    }
  }

  /**
  Take any stream on which parsing fails, cut into reads in any way, and the read with which the frame that its message
  does not fit is first complete.  Reading throws if and only if by then fewer bytes than a message's header have
  arrived after the frame's length; otherwise it reads past the frame.
  */
  lemma MisfitThrowsIff(chunks: seq<seq<byte>>) returns (n: nat)
    requires !Parse(Flatten(chunks), None).ok
    ensures var p, at := Parse(Flatten(chunks), None), MisfitAt(Flatten(chunks), None);
      && p.msgSize.Some? && at >= 0 && n < |chunks|
      && |Flatten(chunks[..n])| < at + p.msgSize.value <= |Flatten(chunks[..n + 1])|
      && !FedAll(Fresh(), chunks).ok
      && (FedAll(Fresh(), chunks).Throws() <==> |Flatten(chunks[..n + 1])| - at < TYPE_SIZE + LENGTH_SIZE)
  {
    var whole := Flatten(chunks);
    var p := Parse(whole, None);
    FailsFrom(whole, None, |whole|);
    FailsFrom(whole, None, 0);
    EmptyParses();
    assert whole[..|whole|] == whole && whole[..0] == [];
    hide Parse, FedAll, Flatten;
    n := FirstWith(chunks, MisfitAt(whole, None) + p.msgSize.value);
    FlattenDivided(chunks, n);
    FlattenDivided(chunks, n + 1);
    FailsFrom(whole, None, |Flatten(chunks[..n])|);
    FailsFrom(whole, None, |Flatten(chunks[..n + 1])|);
    FailsAtRead(chunks, n);
  }

  lemma EmptyParses()
    ensures Parse([], None).ok
  {
  }

  /**
  So it does depend on the cut: on a frame too short for a header reading throws if it gets to see the frame before the
  bytes after it, and reads past the frame if they are already there.
  */
  lemma MisfitDependsOnCut(body: seq<byte>, more: seq<byte>)
    requires |body| < TYPE_SIZE + LENGTH_SIZE <= |body| + |more|
    ensures var head := EncodeLE(|body|, FRAME_SIZE) + body;
      && FedAll(Fresh(), [head, more]).Throws()
      && !FedAll(Fresh(), [head + more]).ok && !FedAll(Fresh(), [head + more]).Throws()
  {
    hide EncodeLE, Pow256, Parse, FedAll;
    var head := EncodeLE(|body|, FRAME_SIZE) + body;
    assert |body| < Pow256(FRAME_SIZE) by { Pow256Values(); }
    MisfitFails(body, []);
    MisfitFails(body, more);
    assert body + [] == body;
    assert head + more == EncodeLE(|body|, FRAME_SIZE) + (body + more);
    TwoReads(head, more);
    OneRead(head + more);
  }

  lemma OneRead(chunk: seq<byte>)
    ensures FedAll(Fresh(), [chunk]) == Parse(chunk, None)
  {
    hide Parse;
    assert [] + chunk == chunk;
    assert Continue([], Parse(chunk, None)) == Parse(chunk, None);
    assert [chunk][1..] == [];
  }

  lemma TwoReads(a: seq<byte>, b: seq<byte>)
    ensures FedAll(Fresh(), [a, b]) == Fed(Parse(a, None), b)
  {
    hide Parse;
    assert [] + a == a;
    assert Continue([], Parse(a, None)) == Parse(a, None);
    assert [a, b][1..] == [b] && [b][1..] == [];
    assert FedAll(Parse(a, None), [b]) == FedAll(Fed(Parse(a, None), b), []);
  }

  lemma MisfitFails(body: seq<byte>, more: seq<byte>)
    requires |body| < TYPE_SIZE + LENGTH_SIZE && |body| < Pow256(FRAME_SIZE)
    ensures Parse(EncodeLE(|body|, FRAME_SIZE) + (body + more), None) == Parsed([], body + more, Some(|body|), false)
  {
    hide EncodeLE, DecodeLE, Pow256, Parse;
    LengthRead(|body|, body + more);
    ParseBody(body + more, |body|);
  }

  // ----- Frames

  function Frames(msgs: seq<Message>): seq<seq<byte>> {
    if msgs == [] then [] else [msgs[0].Frame()] + Frames(msgs[1..])
  }

  function Stream(msgs: seq<Message>): seq<byte> {
    Flatten(Frames(msgs))
  }

  lemma BodyRead(m: Message, tail: seq<byte>)
    requires m.Valid()
    ensures ReadBody(m.Body() + tail, |m.Body()|) == Some(m)
  {
    hide EncodeLE, DecodeLE, Pow256;
    var data, t, l := m.Body() + tail, EncodeLE(m.msgType, TYPE_SIZE), EncodeLE(|m.from|, LENGTH_SIZE);
    assert data == t + (l + (m.from + (m.payload + tail)));
    assert data[..TYPE_SIZE] == t;
    assert data[TYPE_SIZE..TYPE_SIZE + LENGTH_SIZE] == l;
    EncodeDecode(m.msgType, TYPE_SIZE);
    EncodeDecode(|m.from|, LENGTH_SIZE);
    var start := TYPE_SIZE + LENGTH_SIZE + |m.from|;
    assert data[TYPE_SIZE + LENGTH_SIZE..start] == m.from;
    assert data[start..|m.Body()|] == m.payload;
  }

  lemma LengthRead(n: nat, tail: seq<byte>)
    requires n < Pow256(FRAME_SIZE)
    ensures Parse(EncodeLE(n, FRAME_SIZE) + tail, None) == Parse(tail, Some(n))
  {
    hide EncodeLE, DecodeLE, Pow256, Parse;
    var data := EncodeLE(n, FRAME_SIZE) + tail;
    ParseLength(data);
    assert data[..FRAME_SIZE] == EncodeLE(n, FRAME_SIZE) && data[FRAME_SIZE..] == tail;
    EncodeDecode(n, FRAME_SIZE);
  }

  lemma FrameRead(m: Message, tail: seq<byte>)
    requires m.Valid()
    ensures Parse(m.Frame() + tail, None) == Parse(tail, None).After(m)
  {
    hide EncodeLE, Parse, ReadBody, Pow256, Message.Body;
    var body := m.Body();
    assert m.Frame() + tail == EncodeLE(|body|, FRAME_SIZE) + (body + tail);
    LengthRead(|body|, body + tail);
    ParseBody(body + tail, |body|);
    BodyRead(m, tail);
    assert (body + tail)[|body|..] == tail;
  }

  ghost predicate AllValid(msgs: seq<Message>) {
    forall i :: 0 <= i < |msgs| ==> msgs[i].Valid()
  }

  lemma {:induction false} StreamRead(msgs: seq<Message>, tail: seq<byte>)
    requires AllValid(msgs)
    ensures Parse(Stream(msgs) + tail, None) == Continue(msgs, Parse(tail, None))
    decreases |msgs|
  {
    hide Parse, Message.Frame, Message.Valid, Stream;
    StreamSplit(msgs, tail);
    if msgs == [] {
      assert Continue([], Parse(tail, None)) == Parse(tail, None);
    } else {
      var m, rest := msgs[0], msgs[1..];
      FrameRead(m, Stream(rest) + tail);
      StreamRead(rest, tail);
      Joined(m, rest, Parse(tail, None));
      assert [m] + rest == msgs;
    }
  }

  lemma StreamSplit(msgs: seq<Message>, tail: seq<byte>)
    ensures msgs == [] ==> Stream(msgs) + tail == tail
    ensures msgs != [] ==> Stream(msgs) + tail == msgs[0].Frame() + (Stream(msgs[1..]) + tail)
  {
    hide Message.Frame, Stream;
    StreamFirst(msgs);
    if msgs == [] {
      assert [] + tail == tail;
    } else {
      Associative(msgs[0].Frame(), Stream(msgs[1..]), tail);
    }
  }

  lemma StreamFirst(msgs: seq<Message>)
    ensures Stream(msgs) == if msgs == [] then [] else msgs[0].Frame() + Stream(msgs[1..])
  {
    hide Message.Frame;
    if msgs != [] {
      assert Frames(msgs)[0] == msgs[0].Frame() && Frames(msgs)[1..] == Frames(msgs[1..]);
    }
  }

  /** Of a frame that has not arrived whole, nothing is delivered, and everything after its length is kept. */
  lemma PartialRead(m: Message, n: nat)
    requires m.Valid() && n < |m.Frame()|
    ensures Parse(m.Frame()[..n], None) ==
      if n < FRAME_SIZE then Parsed([], m.Frame()[..n], None, true)
      else Parsed([], m.Frame()[FRAME_SIZE..n], Some(|m.Body()|), true)
  {
    hide EncodeLE, Parse, ReadBody, Pow256, Message.Body;
    var body, part := m.Body(), m.Frame()[..n];
    ParseLength(part);
    if n >= FRAME_SIZE {
      var tail := m.Frame()[FRAME_SIZE..n];
      assert part == EncodeLE(|body|, FRAME_SIZE) + tail;
      LengthRead(|body|, tail);
      ParseBody(tail, |body|);
    }
  }

  /**
  When the frames of some messages and part of the next frame have arrived, in reads of any sizes, exactly
  those messages have been delivered, in order, and exactly the unconsumed bytes are kept.
  */
  lemma FramesDelivered(msgs: seq<Message>, next: Message, n: nat, chunks: seq<seq<byte>>)
    requires AllValid(msgs) && next.Valid() && n < |next.Frame()|
    requires Flatten(chunks) == Stream(msgs) + next.Frame()[..n]
    ensures FedAll(Fresh(), chunks) ==
      if n < FRAME_SIZE then Parsed(msgs, next.Frame()[..n], None, true)
      else Parsed(msgs, next.Frame()[FRAME_SIZE..n], Some(|next.Body()|), true)
  {
    hide Parse, FedAll, Flatten, Stream, Message.Frame, Message.Body;
    ChunkingIrrelevant(chunks);
    StreamRead(msgs, next.Frame()[..n]);
    PartialRead(next, n);
    assert msgs + [] == msgs;
  }

  /** The node of a connection after some reads, each with what it delivered. */
  function NodeAfter(node: Option<seq<byte>>, deliveries: seq<seq<Message>>): Option<seq<byte>>
    decreases |deliveries|
  {
    if deliveries == [] then node else NodeAfter(Associated(node, deliveries[0]), deliveries[1..])
  }

  /** However the messages are spread over reads, the connection belongs to the node that the first of them names, and
      to that one from then on. */
  lemma {:induction false} NodeNamedOnce(node: Option<seq<byte>>, deliveries: seq<seq<Message>>)
    ensures NodeAfter(node, deliveries) ==
      if node.Some? then node
      else if Flatten(deliveries) == [] then None
      else Some(Flatten(deliveries)[0].from)
    decreases |deliveries|
  {
    if deliveries != [] {
      NodeNamedOnce(Associated(node, deliveries[0]), deliveries[1..]);
    }
  }

  // ----- Sending

  /** The entries of a range of the ledger, if it holds them all. */
  type LedgerReader = (nat, nat) -> Option<seq<byte>>

  /** The ledger entries to affix to a message: those an append-entries message announces. `None` where the source throws. */
  function Affix(m: Message, ledger: LedgerReader): Option<seq<byte>> {
    if m.msgType != CONSENSUS_MSG then Some([])
    else if |m.payload| < 8 then None
    else if DecodeLE(m.payload[..8]) != RAFT_APPEND_ENTRIES then Some([])
    else if |m.payload| < 24 then None
    else
      var idx, prevIdx := DecodeLE(m.payload[8..16]), DecodeLE(m.payload[16..24]);
      match ledger(prevIdx + 1, idx)
      case None => Some([])
      case Some(entries) => Some(entries)
  }

  /** The bytes written to the connection for a message the enclave sends; the length is that of message and entries. */
  function Outbound(data: seq<byte>, ledger: LedgerReader): Option<seq<byte>> {
    match ReadBody(data, |data|)
    case None => None
    case Some(m) =>
      match Affix(m, ledger)
      case None => None
      case Some(entries) =>
        var frame := (|data| + |entries|) % Pow256(FRAME_SIZE);
        Some(EncodeLE(frame, FRAME_SIZE) + data + entries)
  }

  /** What goes out is the frame of the same message with the ledger entries at the end of its payload. */
  lemma OutboundFramed(m: Message, ledger: LedgerReader)
    requires m.Valid() && Affix(m, ledger).Some?
    requires |m.Body()| + |Affix(m, ledger).value| < Pow256(FRAME_SIZE)
    ensures var sent := m.(payload := m.payload + Affix(m, ledger).value);
      sent.Valid() && Outbound(m.Body(), ledger) == Some(sent.Frame())
  {
    hide EncodeLE, Pow256, Affix, Message.Body, Outbound;
    var entries := Affix(m, ledger).value;
    BodyExtended(m, entries);
    OutboundIs(m, ledger);
    Associative(EncodeLE(|m.Body() + entries|, FRAME_SIZE), m.Body(), entries);
    SmallModulo(|m.Body() + entries|, Pow256(FRAME_SIZE));
  }

  lemma OutboundIs(m: Message, ledger: LedgerReader)
    requires m.Valid() && Affix(m, ledger).Some?
    ensures var entries := Affix(m, ledger).value;
      Outbound(m.Body(), ledger) ==
        Some(EncodeLE((|m.Body()| + |entries|) % Pow256(FRAME_SIZE), FRAME_SIZE) + m.Body() + entries)
  {
    hide EncodeLE, ReadBody, Pow256, Affix, Message.Body;
    BodyRead(m, []);
    assert m.Body() + [] == m.Body();
  }

  lemma BodyExtended(m: Message, entries: seq<byte>)
    ensures m.(payload := m.payload + entries).Body() == m.Body() + entries
  {
    hide EncodeLE;
  }

  /** The length that goes out is right exactly if it fits its field. */
  lemma OutboundLengthIff(m: Message, ledger: LedgerReader)
    requires m.Valid() && Affix(m, ledger).Some?
    ensures var body := m.(payload := m.payload + Affix(m, ledger).value).Body();
      var out := Outbound(m.Body(), ledger);
      && out.Some? && |out.value| == FRAME_SIZE + |body| && out.value[FRAME_SIZE..] == body
      && (DecodeLE(out.value[..FRAME_SIZE]) == |body| <==> |body| < Pow256(FRAME_SIZE))
  {
    hide EncodeLE, DecodeLE, Pow256, Affix, Message.Body, Outbound, Message.Valid;
    var entries := Affix(m, ledger).value;
    var body := m.Body() + entries;
    BodyExtended(m, entries);
    OutboundIs(m, ledger);
    var size := EncodeLE(|body| % Pow256(FRAME_SIZE), FRAME_SIZE);
    EncodeDecode(|body| % Pow256(FRAME_SIZE), FRAME_SIZE);
    var out := Outbound(m.Body(), ledger).value;
    assert out == size + body;
    assert out[..FRAME_SIZE] == size;
  }

  lemma SmallModulo(a: nat, b: nat)
    requires a < b
    ensures a % b == a
  {
  }
}
