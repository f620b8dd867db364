/**
The tape that the log of reservations writes: every reservation has an image of bytes that its
stage determines, and the tape is the images one after another.
*/
module RingBufferTape {
  import opened Bytes
  import opened RingBuffer
  import opened Sequences
  import W = RingBufferWindow

  lemma HeaderFields(m: nat, size: nat, pending: bool)
    requires m < 0x1_0000_0000 && size < PENDING_WRITE_FLAG
    ensures var h := MakeHeader(m, size, pending);
      && Message(h) == m
      && Length(h) == size + (if pending then PENDING_WRITE_FLAG else 0)
      && (IsPending(Length(h)) <==> pending)
      && DecodeLE(EncodeLE(h, 8)) == h
  {
    var low := size + if pending then PENDING_WRITE_FLAG else 0;
    assert MakeHeader(m, size, pending) == m * 0x1_0000_0000 + low;
    Pow256Values();
    EncodeDecode(MakeHeader(m, size, pending), 8);
  }

  /** `finish` clears the pending flag and nothing else. */
  lemma FinishedHeader(m: nat, size: nat)
    requires m < 0x1_0000_0000 && size < PENDING_WRITE_FLAG
    ensures var h := MakeHeader(m, size, true);
      MakeHeader(Message(h), Length(h), false) == MakeHeader(m, size, false)
  {
    HeaderFields(m, size, true);
    assert (size + PENDING_WRITE_FLAG) % PENDING_WRITE_FLAG == size;
  }

  lemma EmptyHeader()
    ensures DecodeLE(Zeros(8)) == 0
    ensures Message(0) == MSG_NONE && !IsPending(Length(0))
  {
    DecodeZeros(8);
  }

  // ----- Entries

  predicate Imageable(e: Entry) {
    (e.pad == 0 || 8 <= e.pad) && 8 + |e.data| <= e.len
  }

  ghost predicate EntryOk(e: Entry, size: nat)
    requires size > 0
  {
    && Aligned(e.start)
    && Aligned(e.pad)
    && e.len == e.req.Reserved()
    && e.req.Acceptable(size)
    && |e.data| <= e.req.size
    && (e.stage.Claimed? || e.stage.Ready? ==> e.data == [])
    && (e.pad == 0 ==> !e.stage.Claimed? && Index(e.start, size) + e.len <= size)
    && (e.pad > 0 ==> e.pad == size - Index(e.start, size) && e.pad < PENDING_WRITE_FLAG)
  }

  function PadImage(e: Entry): (s: seq<byte>)
    requires Imageable(e)
    ensures |s| == e.pad
  {
    if e.pad == 0 || e.stage.Claimed? then Zeros(e.pad)
    else EncodeLE(MakeHeader(MSG_PAD, e.pad, false), 8) + Zeros(e.pad - 8)
  }

  function BodyImage(e: Entry): (s: seq<byte>)
    requires Imageable(e)
    ensures |s| == e.len
  {
    if e.stage.Claimed? || e.stage.Ready? then Zeros(e.len)
    else EncodeLE(MakeHeader(e.req.msg, e.req.size, e.stage.Pending?), 8) + e.data
         + Zeros(e.len - 8 - |e.data|)
  }

  function Image(e: Entry): (s: seq<byte>)
    requires Imageable(e)
    ensures |s| == e.End() - e.start
  {
    PadImage(e) + BodyImage(e)
  }

  /** What a delivery of the entry hands over: the bytes written, and zeros if `finish` came
      before as many bytes as `prepare` was asked for. */
  function Payload(e: Entry): (s: seq<byte>)
    requires |e.data| <= e.req.size
    ensures |s| == e.req.size
  {
    e.data + Zeros(e.req.size - |e.data|)
  }

  /** The body of an entry is contiguous in the buffer, whether or not it was padded. */
  lemma BodyContiguous(e: Entry, size: nat)
    requires size > 0 && EntryOk(e, size)
    ensures e.pad > 0 ==> Index(e.Body(), size) == 0 && Index(e.start, size) + e.pad == size
    ensures Index(e.Body(), size) + e.len <= size
  {
    hide EntrySize, Index, Aligned;
    if e.pad > 0 {
      W.IndexWrap(e.start, size);
      assert Index(e.Body(), size) == 0;
    } else {
      assert e.Body() == e.start;
    }
  }

  // ----- The log and its tape

  function StartOf(log: seq<Entry>, tail: nat, i: nat): nat
    requires i <= |log|
  {
    if i < |log| then log[i].start else tail
  }

  /** The entries lie one after another from offset 0 to `tail`. */
  ghost predicate Chained(log: seq<Entry>, tail: nat) {
    && StartOf(log, tail, 0) == 0
    && (forall i :: 0 <= i < |log| ==> Imageable(log[i]))
    && (forall i :: 0 < i <= |log| ==> StartOf(log, tail, i) == log[i - 1].End())
  }

  ghost predicate LogOk(log: seq<Entry>, tail: nat, size: nat)
    requires size > 0
  {
    && Chained(log, tail)
    && (forall i :: 0 <= i < |log| ==> EntryOk(log[i], size))
  }

  function Images(log: seq<Entry>): (r: seq<seq<byte>>)
    requires forall i :: 0 <= i < |log| ==> Imageable(log[i])
    ensures |r| == |log|
    ensures forall i :: 0 <= i < |log| ==> r[i] == Image(log[i])
  {
    seq(|log|, i requires 0 <= i < |log| => Image(log[i]))
  }

  function Tape(log: seq<Entry>): seq<byte>
    requires forall i :: 0 <= i < |log| ==> Imageable(log[i])
  {
    Flatten(Images(log))
  }

  lemma {:induction false} StartsIncrease(log: seq<Entry>, tail: nat, i: nat, j: nat)
    requires Chained(log, tail) && i <= j <= |log|
    ensures StartOf(log, tail, i) + 8 * (j - i) <= StartOf(log, tail, j)
    ensures i < j ==> log[i].End() <= StartOf(log, tail, j)
    decreases j - i
  {
    if i < j {
      assert StartOf(log, tail, i + 1) == log[i].End();
      StartsIncrease(log, tail, i + 1, j);
    }
  }

  /** Every entry's image begins on the tape where the entry starts. */
  lemma {:induction false} TapePosition(log: seq<Entry>, tail: nat, i: nat)
    requires Chained(log, tail) && i <= |log|
    ensures Position(Images(log), i) == StartOf(log, tail, i)
  {
    hide Image, Flatten;
    if i == 0 {
      FlattenNone<byte>();
      assert Images(log)[..0] == [];
    } else {
      TapePosition(log, tail, i - 1);
      FlattenAround(Images(log), i - 1);
      assert Images(log)[i - 1] == Image(log[i - 1]);
    }
  }

  lemma TapeLength(log: seq<Entry>, tail: nat)
    requires Chained(log, tail)
    ensures |Tape(log)| == tail
  {
    TapePosition(log, tail, |log|);
    assert Images(log)[..|log|] == Images(log);
  }

  predicate SamePlace(e: Entry, f: Entry) {
    e.start == f.start && e.pad == f.pad && e.len == f.len && e.req == f.req
  }

  lemma ChainUpdate(log: seq<Entry>, tail: nat, i: nat, e: Entry)
    requires Chained(log, tail) && i < |log| && Imageable(e) && SamePlace(e, log[i])
    ensures Chained(log[i := e], tail)
  {
    var log' := log[i := e];
    forall j | 0 < j <= |log'|
      ensures StartOf(log', tail, j) == log'[j - 1].End()
    {
      assert StartOf(log, tail, j) == log[j - 1].End();
    }
  }

  lemma ChainAppend(log: seq<Entry>, tail: nat, e: Entry)
    requires Chained(log, tail) && Imageable(e) && e.start == tail
    ensures Chained(log + [e], e.End())
  {
    var longer := log + [e];
    forall i | 0 < i <= |longer|
      ensures StartOf(longer, e.End(), i) == longer[i - 1].End()
    {
      if i <= |log| {
        assert StartOf(log, tail, i) == log[i - 1].End();
      }
    }
  }

  /** A reservation nobody has written to yet is a run of zeros on the tape. */
  lemma TapeAppend(log: seq<Entry>, tail: nat, e: Entry)
    requires Chained(log, tail) && Imageable(e)
    requires e.stage.Claimed? || (e.stage.Ready? && e.pad == 0)
    ensures Tape(log + [e]) == Tape(log) + Zeros(e.pad + e.len)
  {
    assert Image(e) == Zeros(e.pad + e.len) by {
      hide EncodeLE, MakeHeader;
    }
    assert Images(log + [e]) == Images(log) + [Image(e)];
    FlattenAppended(Images(log), Image(e));
  }

  // ----- The image after each kind of write

  lemma ImagePad(e: Entry)
    requires Imageable(e) && e.pad > 0 && e.stage.Claimed?
    ensures Image(e.(stage := Ready)) ==
            Splice(Image(e), 0, EncodeLE(MakeHeader(MSG_PAD, e.pad, false), 8))
  {
    hide EncodeLE, MakeHeader;
  }

  lemma ImageHeader(e: Entry)
    requires Imageable(e) && e.stage.Ready? && e.data == []
    ensures Image(e.(stage := Pending)) ==
            Splice(Image(e), e.pad, EncodeLE(MakeHeader(e.req.msg, e.req.size, true), 8))
  {
    hide EncodeLE, MakeHeader;
  }

  lemma ImageData(e: Entry, bytes: seq<byte>)
    requires Imageable(e) && e.stage.Pending? && 8 + |e.data| + |bytes| <= e.len
    ensures Image(e.(data := e.data + bytes)) ==
            Splice(Image(e), e.pad + 8 + |e.data|, bytes)
  {
    hide EncodeLE, MakeHeader;
  }

  lemma ImageFinish(e: Entry)
    requires Imageable(e) && e.stage.Pending?
    ensures Image(e.(stage := Finished)) ==
            Splice(Image(e), e.pad, EncodeLE(MakeHeader(e.req.msg, e.req.size, false), 8))
  {
    hide EncodeLE, MakeHeader;
  }
}
