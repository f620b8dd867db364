/**
Node-to-node messages on a byte stream.  Each is framed by its length; the receiver takes the stream in
whatever pieces the network delivers and resumes where it stopped.
*/
module NodeConnections {
  import opened Bytes
  import opened Options

  const FRAME_SIZE: nat := 4
  const TYPE_SIZE: nat := 8
  const LENGTH_SIZE: nat := 8

  const CONSENSUS_MSG: nat := 1
  const RAFT_APPEND_ENTRIES: nat := 0

  datatype Message = Message(msgType: nat, from: seq<byte>, payload: seq<byte>) {
    function Body(): seq<byte> {
      EncodeLE(msgType, TYPE_SIZE) + EncodeLE(|from|, LENGTH_SIZE) + from + payload
    }

    function Frame(): seq<byte> {
      EncodeLE(|Body()|, FRAME_SIZE) + Body()
    }

    predicate Valid() {
      msgType < Pow256(TYPE_SIZE) && |from| < Pow256(LENGTH_SIZE) && |Body()| < Pow256(FRAME_SIZE)
    }
  }

  // ----- Receiving

  /** A message read off the front of the data, given the length of its frame; `None` if it does not fit the frame. */
  function ReadBody(data: seq<byte>, frame: nat): Option<Message>
    requires frame <= |data|
  {
    if frame < TYPE_SIZE + LENGTH_SIZE then None
    else
      var length := DecodeLE(data[TYPE_SIZE..TYPE_SIZE + LENGTH_SIZE]);
      var start := TYPE_SIZE + LENGTH_SIZE + length;
      if start > frame then None
      else Some(Message(DecodeLE(data[..TYPE_SIZE]), data[TYPE_SIZE + LENGTH_SIZE..start], data[start..frame]))
  }

  /** What the loop delivers and leaves; not `ok` if it meets a frame that its message does not fit. */
  datatype Parsed = Parsed(delivered: seq<Message>, rest: seq<byte>, msgSize: Option<nat>, ok: bool) {
    function After(m: Message): Parsed {
      this.(delivered := [m] + delivered)
    }

    /** It throws where the header of such a message has not arrived whole; otherwise it reads past the frame, and
        what it does then is undefined. */
    predicate Throws() {
      !ok && |rest| < TYPE_SIZE + LENGTH_SIZE
    }
  }

  function Parse(data: seq<byte>, msgSize: Option<nat>): Parsed
    decreases |data|, if msgSize.Some? then 0 else 1
  {
    match msgSize
    case None =>
      if |data| < FRAME_SIZE then Parsed([], data, None, true)
      else Parse(data[FRAME_SIZE..], Some(DecodeLE(data[..FRAME_SIZE])))
    case Some(frame) =>
      if |data| < frame then Parsed([], data, Some(frame), true)
      else
        match ReadBody(data, frame)
        case None => Parsed([], data, Some(frame), false)
        case Some(m) => Parse(data[frame..], None).After(m)
  }

  class NodeConnection {
    var node: Option<seq<byte>>
    var msgSize: Option<nat>
    var pending: seq<byte>

    /** The messages passed on to the enclave. */
    var inbound: seq<Message>

    constructor ()
      ensures node == None && msgSize == None && pending == [] && inbound == []
    {
      node, msgSize, pending, inbound := None, None, [], [];
    }

    /** Passes on every message that is now complete and keeps the bytes after them. */
    method OnRead(incoming: seq<byte>) returns (ok: bool)
      modifies this
      ensures var p := Parse(old(pending) + incoming, old(msgSize));
        && ok == p.ok && msgSize == p.msgSize && inbound == old(inbound) + p.delivered
        && pending == (if ok then p.rest else old(pending) + incoming)
        && node == Associated(old(node), p.delivered)
    {
      hide DecodeLE, ReadBody, Parse;
      pending := pending + incoming;
      var data := pending;
      ghost var whole := Parse(data, msgSize);
      ghost var passed: seq<Message> := [];
      assert Continue([], whole) == whole;
      while true
        invariant pending == old(pending) + incoming && inbound == old(inbound) + passed
        invariant whole == Continue(passed, Parse(data, msgSize))
        invariant node == Associated(old(node), passed)
        decreases |data|, if msgSize.Some? then 0 else 1
      {
        if msgSize.None? {
          ParseLength(data);
          if |data| < FRAME_SIZE {
            break;
          }
          msgSize := Some(DecodeLE(data[..FRAME_SIZE]));
          data := data[FRAME_SIZE..];
        }
        ParseBody(data, msgSize.value);
        if |data| < msgSize.value {
          break;
        }
        var m := ReadBody(data, msgSize.value);
        if m.None? {
          return false;
        }
        if node.None? {
          node := Some(m.value.from);
        }
        Continued(passed, m.value, Parse(data[msgSize.value..], None));
        inbound := inbound + [m.value];
        passed := passed + [m.value];
        data := data[msgSize.value..];
        msgSize := None;
      }
      pending := data;
      ok := true;
    }
  }

  /** A connection belongs to the node that its first message names. */
  function Associated(node: Option<seq<byte>>, delivered: seq<Message>): Option<seq<byte>> {
    if node.None? && delivered != [] then Some(delivered[0].from) else node
  }

  function Continue(delivered: seq<Message>, p: Parsed): Parsed {
    p.(delivered := delivered + p.delivered)
  }

  lemma Continued(delivered: seq<Message>, m: Message, p: Parsed)
    ensures Continue(delivered, p.After(m)) == Continue(delivered + [m], p)
  {
    assert delivered + ([m] + p.delivered) == delivered + [m] + p.delivered;
  }

  lemma ParseLength(data: seq<byte>)
    ensures Parse(data, None) ==
      if |data| < FRAME_SIZE then Parsed([], data, None, true)
      else Parse(data[FRAME_SIZE..], Some(DecodeLE(data[..FRAME_SIZE])))
  {
  }

  lemma ParseBody(data: seq<byte>, frame: nat)
    ensures |data| < frame ==> Parse(data, Some(frame)) == Parsed([], data, Some(frame), true)
    ensures |data| >= frame ==>
      match ReadBody(data, frame)
      case None => Parse(data, Some(frame)) == Parsed([], data, Some(frame), false)
      case Some(m) =>
        frame >= TYPE_SIZE + LENGTH_SIZE && Parse(data, Some(frame)) == Parse(data[frame..], None).After(m)
  {
  }
}
