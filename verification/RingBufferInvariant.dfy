/**
The invariant of the ring buffer, and what it says about the bytes each step reads and writes.
*/
module RingBufferInvariant {
  import opened RingBuffer
  import opened RingBufferTape
  import W = RingBufferWindow

  // ----- Writers before their reservation

  /** The head a writer goes by leaves room for `len` bytes behind its tail. */
  predicate Room(size: nat, hd: nat, tl: nat, len: nat) {
    hd <= tl && tl + len <= hd + size
  }

  /** A reservation at `tl` that stays clear of everything from `hd` on and is contiguous. */
  predicate ClaimOk(size: nat, hd: nat, tl: nat, padding: nat, len: nat)
    requires size > 0
  {
    && tl + padding + len <= hd + size
    && Aligned(padding)
    && (padding == 0 ==> Index(tl, size) + len <= size)
    && (padding > 0 ==> padding == size - Index(tl, size) && padding < PENDING_WRITE_FLAG)
  }

  ghost predicate ReservingOk(size: nat, head: nat, tail: nat, pc: WriterPc)
    requires size > 0 && !pc.Idle? && !pc.Owns()
  {
    var len := pc.req.Reserved();
    && pc.req.Acceptable(size)
    && (!pc.LoadCache? && !pc.LoadHeadForSpace? ==> pc.hd <= head)
    && (!pc.LoadCache? && !pc.LoadTail? ==> pc.tl <= tail && Aligned(pc.tl))
    && match pc
       case LoopTop(_, hd, tl, _) => hd <= tl
       case StoreCacheForSpace(_, hd, tl) => Room(size, hd, tl, len)
       case Fit(_, hd, tl) => Room(size, hd, tl, len)
       case LoadHeadForFront(_, hd, tl) => Room(size, hd, tl, len) && len > size - Index(tl, size)
       case StoreCacheForFront(_, hd, tl) =>
         hd <= tl ==> ClaimOk(size, hd, tl, size - Index(tl, size), len)
       case CompareExchange(_, hd, tl, padding) =>
         hd <= tl ==> ClaimOk(size, hd, tl, padding, len)
       case _ => true
  }

  // ----- Writers holding a reservation

  ghost predicate OwnerOk(size: nat, pc: WriterPc, e: Entry)
    requires size > 0 && pc.Owns()
  {
    && e.req == pc.req
    && match pc
       case WritePad(_, tl, padding, _) => e.stage.Claimed? && e.start == tl && e.pad == padding > 0
       case WriteHeader(_, index, _) => e.stage.Ready? && index == Index(e.Body(), size)
       case Writing(_, initial, next, _) =>
         && e.stage.Pending?
         && initial == Index(e.Body(), size) + HEADER_SIZE
         && next == initial + |e.data|
       case Finishing(req, index, header, _) =>
         && e.stage.Pending?
         && index == Index(e.Body(), size)
         && header == MakeHeader(req.msg, req.size, true)
  }

  ghost predicate WriterOk(size: nat, head: nat, tail: nat, log: seq<Entry>, pc: WriterPc)
    requires size > 0
  {
    if pc.Idle? then true
    else if pc.Owns() then pc.slot < |log| && OwnerOk(size, pc, log[pc.slot])
    else ReservingOk(size, head, tail, pc)
  }

  ghost predicate WritersOk(s: State)
    requires |s.sh.mem| > 0
  {
    && (forall w :: 0 <= w < |s.writers| ==>
          WriterOk(|s.sh.mem|, s.sh.head, s.sh.tail, s.log, s.writers[w]))
    && (forall v, w :: 0 <= v < w < |s.writers| && s.writers[v].Owns() && s.writers[w].Owns() ==>
          s.writers[v].slot != s.writers[w].slot)
  }

  // ----- The reader

  function Advance(r: ReaderPc): nat {
    if r.ReaderIdle? then 0 else r.advance
  }

  function Cleared(r: ReaderPc): nat {
    if r.Clearing? then r.cleared else 0
  }

  /** The reader stands before entry `c`, or behind the padding of entry `c`. */
  ghost predicate AtEntry(log: seq<Entry>, tail: nat, c: nat, p: nat) {
    && c <= |log|
    && (p == StartOf(log, tail, c) ||
        (c < |log| && !log[c].stage.Claimed? && p == log[c].Body()))
  }

  ghost predicate ReaderOk(s: State)
    requires |s.sh.mem| > 0
  {
    var r, c, size := s.reader, |s.delivered|, |s.sh.mem|;
    && (!r.ReaderIdle? ==> r.hd == s.sh.head)
    && Index(s.sh.head, size) + Advance(r) <= size
    && Cleared(r) <= Advance(r)
    && AtEntry(s.log, s.sh.tail, c, s.sh.head + Advance(r))
    && (r.CallHandler? ==>
          && c < |s.log|
          && s.log[c].stage.Finished?
          && s.sh.head + r.advance == s.log[c].Body()
          && Index(s.sh.head, size) + r.advance < size
          && r.msg == s.log[c].req.msg && r.size == s.log[c].req.size)
  }

  /** What the handler has been given: the first entries of the log, each finished, each once. */
  ghost predicate DeliveredOk(s: State) {
    && |s.delivered| <= |s.log|
    && (forall i :: 0 <= i < |s.delivered| ==>
          && s.log[i].stage.Finished?
          && |s.log[i].data| <= s.log[i].req.size
          && s.delivered[i] == Delivery(s.log[i].req.msg, Payload(s.log[i])))
  }

  ghost predicate OffsetsOk(sh: Shared) {
    && |sh.mem| >= 8 && Aligned(|sh.mem|)
    && sh.headCache <= sh.head <= sh.tail <= sh.head + |sh.mem|
    && Aligned(sh.head) && Aligned(sh.tail)
  }

  ghost predicate Inv(s: State) {
    && OffsetsOk(s.sh)
    && LogOk(s.log, s.sh.tail, |s.sh.mem|)
    && WritersOk(s)
    && ReaderOk(s)
    && DeliveredOk(s)
    && W.WindowOk(s.sh.mem, s.sh.head, Cleared(s.reader), Tape(s.log))
  }

  // ----- Arithmetic of reserving

  lemma EntrySizeBounds(n: nat)
    ensures n + 8 <= EntrySize(n) < n + 16 && Aligned(EntrySize(n))
  {
  }

  /** Padding is shorter than the message it makes way for, so its length needs no flag bit. */
  lemma PaddingFits(req: Request, size: nat, block: nat)
    requires req.Acceptable(size) && Aligned(block) && block < req.Reserved()
    ensures block < PENDING_WRITE_FLAG
  {
  }

  /** With room behind `tl` judged by an older head, a message too long for the back of the buffer
      that fits before a newer head `hd2` also stays clear of that head. */
  lemma FrontFits(size: nat, hd: nat, hd2: nat, tl: nat, len: nat)
    requires size > 0 && Room(size, hd, tl, len) && hd <= hd2 <= tl
    requires len > size - Index(tl, size) && len <= Index(hd2, size)
    ensures tl + (size - Index(tl, size)) + len <= hd2 + size
  {
    var d := tl / size - hd2 / size;
    assert size * d == (tl - Index(tl, size)) - (hd2 - Index(hd2, size));
    W.MulBounds(size, d);
  }

  /** In an empty buffer a reservation of the largest size always has a contiguous region. */
  lemma EmptyFits(size: nat, o: nat, len: nat)
    requires size > 0 && len <= MaxReservationSize(size)
    ensures len <= size - Index(o, size) || len <= Index(o, size)
  {
  }
}
