/**
The multiple-producer single-consumer ring buffer that carries messages between host and
enclave, as a step system.

Every access to memory that threads share is one step: a load or store of `head`, `tail` or
`head_cache`, a compare-exchange of `tail`, one 64-bit header read or write, a copy of some
payload bytes, a clearing of some bytes.  A run interleaves the steps of any number of writers
and of the one reader in any order.
*/
module RingBuffer {
  import opened Bytes
  import opened Options
  import opened Sequences

  const HEADER_SIZE: nat := 8
  const PENDING_WRITE_FLAG: nat := 0x8000_0000
  const MSG_NONE: nat := 0
  const MSG_MIN: nat := 1
  const MSG_MAX: nat := 0xFFFF_FFFE
  const MSG_PAD: nat := 0xFFFF_FFFF
  const MAX_SIZE: nat := 0x7FFF_FFFF - HEADER_SIZE

  function AlignSize(n: nat): nat {
    (n + (HEADER_SIZE - 1)) / HEADER_SIZE * HEADER_SIZE
  }

  predicate Aligned(n: nat) {
    n % HEADER_SIZE == 0
  }

  function EntrySize(n: nat): nat {
    AlignSize(n + HEADER_SIZE)
  }

  function MaxReservationSize(bufferSize: nat): nat {
    bufferSize / 2
  }

  /** An offset's place in the buffer: the buffer size is a power of two, so masking is a remainder. */
  function Index(o: nat, size: nat): (i: nat)
    requires size > 0
    ensures i < size && i <= o
  {
    o % size
  }

  predicate IsPowerOfTwo(n: nat)
    decreases n
  {
    n == 1 || (n > 0 && n % 2 == 0 && IsPowerOfTwo(n / 2))
  }

  // ----- Headers: message type in the high word, length and pending flag in the low word

  function MakeHeader(m: nat, size: nat, pending: bool): nat {
    m * 0x1_0000_0000 + size % PENDING_WRITE_FLAG + if pending then PENDING_WRITE_FLAG else 0
  }

  function Message(header: nat): nat {
    header / 0x1_0000_0000
  }

  function Length(header: nat): nat {
    header % 0x1_0000_0000
  }

  predicate IsPending(length: nat) {
    length / PENDING_WRITE_FLAG % 2 == 1
  }

  function Read64(mem: seq<byte>, index: nat): nat
    requires index + 8 <= |mem|
  {
    DecodeLE(mem[index..index + 8])
  }

  function Write64(mem: seq<byte>, index: nat, value: nat): (r: seq<byte>)
    requires index + 8 <= |mem|
    ensures |r| == |mem|
  {
    Splice(mem, index, EncodeLE(value, 8))
  }

  // ----- State

  datatype Shared = Shared(mem: seq<byte>, head: nat, tail: nat, headCache: nat)

  /** What a caller asks of `prepare`. */
  datatype Request = Request(msg: nat, size: nat, wait: bool) {
    function Reserved(): nat {
      EntrySize(size)
    }

    /** `prepare` throws exactly when this is false. */
    predicate Acceptable(bufferSize: nat) {
      && MSG_MIN <= msg <= MSG_MAX
      && size <= MAX_SIZE
      && Reserved() <= MaxReservationSize(bufferSize)
    }
  }

  /** Where a writer is.  The local variables that are live there are the arguments.
      `slot` is a history variable: the position of the writer's reservation in `State.log`. */
  datatype WriterPc =
    | Idle
    | LoadCache(req: Request)
    | LoadTail(req: Request, hd: nat)
    | LoopTop(req: Request, hd: nat, tl: nat, padding: nat)
    | LoadHeadForSpace(req: Request, hd: nat, tl: nat, padding: nat)
    | StoreCacheForSpace(req: Request, hd: nat, tl: nat)
    | Fit(req: Request, hd: nat, tl: nat)
    | LoadHeadForFront(req: Request, hd: nat, tl: nat)
    | StoreCacheForFront(req: Request, hd: nat, tl: nat)
    | CompareExchange(req: Request, hd: nat, tl: nat, padding: nat)
    | WritePad(req: Request, tl: nat, padding: nat, slot: nat)
    | WriteHeader(req: Request, index: nat, slot: nat)
    | Writing(req: Request, initial: nat, next: nat, slot: nat)
    | Finishing(req: Request, index: nat, header: nat, slot: nat)
  {
    predicate Owns() {
      WritePad? || WriteHeader? || Writing? || Finishing?
    }
  }

  datatype ReaderPc =
    | ReaderIdle
    | Scan(hd: nat, advance: nat, count: nat, limit: nat)
    | CallHandler(hd: nat, advance: nat, count: nat, limit: nat, msg: nat, size: nat)
    | Clearing(hd: nat, advance: nat, cleared: nat, count: nat)

  datatype Stage = Claimed | Ready | Pending | Finished

  /** History: one successful reservation, in the order in which `tail` was advanced, with what
      its writer has written so far.  It claims `pad` bytes to the end of the buffer, if the
      message goes to the front, and then `len` bytes for the message. */
  datatype Entry = Entry(start: nat, pad: nat, len: nat, req: Request, data: seq<byte>, stage: Stage) {
    function Body(): nat {
      start + pad
    }

    function End(): nat {
      start + pad + len
    }
  }

  datatype Delivery = Delivery(msg: nat, bytes: seq<byte>)

  datatype State = State(
    sh: Shared,
    writers: seq<WriterPc>,
    reader: ReaderPc,
    log: seq<Entry>,
    delivered: seq<Delivery>)

  predicate Init(s: State) {
    && |s.sh.mem| >= HEADER_SIZE && IsPowerOfTwo(|s.sh.mem|)
    && s.sh == Shared(Zeros(|s.sh.mem|), 0, 0, 0)
    && (forall w :: 0 <= w < |s.writers| ==> s.writers[w] == Idle)
    && s.reader == ReaderIdle
    && s.log == []
    && s.delivered == []
  }

  // ----- Steps

  datatype Action =
    | Prepare(w: nat, req: Request)
    | Step(w: nat)
    | TryExchange(w: nat, spurious: bool)
    | WriteBytes(w: nat, bytes: seq<byte>)
    | Finish(w: nat)
    | StartRead(limit: nat)
    | ReadHeader
    | Handle
    | Clear(n: nat)
    | StoreHead

  /** `reserve` found no room: a waiting caller starts again, any other gets no marker. */
  function OutOfSpace(req: Request): WriterPc {
    if req.wait then LoadCache(req) else Idle
  }

  predicate Internal(pc: WriterPc) {
    !pc.Idle? && !pc.CompareExchange? && !pc.Writing?
  }

  /** One step of `reserve`, `prepare` or the second half of `finish`, at any program point where
      the outcome depends on shared memory alone. */
  function StepWriter(sh: Shared, pc: WriterPc): (r: (Shared, WriterPc))
    requires |sh.mem| > 0 && Internal(pc)
    requires pc.LoopTop? || pc.StoreCacheForSpace? || pc.Fit? ==> pc.hd <= pc.tl
    requires pc.WriteHeader? || pc.Finishing? ==> pc.index + 8 <= |sh.mem|
    requires pc.WritePad? ==> Index(pc.tl, |sh.mem|) + 8 <= |sh.mem|
  {
    var size := |sh.mem|;
    match pc
    case LoadCache(req) => (sh, LoadTail(req, sh.headCache))
    case LoadTail(req, hd) => (sh, LoopTop(req, hd, sh.tail, 0))
    case LoopTop(req, hd, tl, padding) =>
      var gap := tl - hd;
      if gap > size || req.Reserved() > size - gap
      then (sh, LoadHeadForSpace(req, hd, tl, padding))
      else (sh, Fit(req, hd, tl))
    case LoadHeadForSpace(req, _, tl, padding) =>
      var hd := sh.head;
      if hd > tl then (sh, CompareExchange(req, hd, tl, padding))
      else if req.Reserved() > size - (tl - hd) then (sh, OutOfSpace(req))
      else (sh, StoreCacheForSpace(req, hd, tl))
    case StoreCacheForSpace(req, hd, tl) => (sh.(headCache := hd), Fit(req, hd, tl))
    case Fit(req, hd, tl) =>
      var block := size - Index(tl, size);
      if req.Reserved() <= block then (sh, CompareExchange(req, hd, tl, 0))
      else if req.Reserved() > Index(hd, size) then (sh, LoadHeadForFront(req, hd, tl))
      else (sh, CompareExchange(req, hd, tl, block))
    case LoadHeadForFront(req, _, tl) =>
      var hd := sh.head;
      if req.Reserved() > Index(hd, size) then (sh, OutOfSpace(req))
      else (sh, StoreCacheForFront(req, hd, tl))
    case StoreCacheForFront(req, hd, tl) =>
      (sh.(headCache := hd), CompareExchange(req, hd, tl, size - Index(tl, size)))
    case WritePad(req, tl, padding, slot) =>
      (sh.(mem := Write64(sh.mem, Index(tl, size), MakeHeader(MSG_PAD, padding, false))),
       WriteHeader(req, 0, slot))
    case WriteHeader(req, index, slot) =>
      (sh.(mem := Write64(sh.mem, index, MakeHeader(req.msg, req.size, true))),
       Writing(req, index + HEADER_SIZE, index + HEADER_SIZE, slot))
    case Finishing(req, index, header, slot) =>
      (sh.(mem := Write64(sh.mem, index, MakeHeader(Message(header), Length(header), false))), Idle)
  }

  /** The history after a `StepWriter`: which stage the writer's reservation has reached. */
  function StageLog(log: seq<Entry>, pc: WriterPc): (r: seq<Entry>)
    requires pc.Owns() ==> pc.slot < |log|
    ensures |r| == |log|
  {
    match pc
    case WritePad(_, _, _, slot) => log[slot := log[slot].(stage := Ready)]
    case WriteHeader(_, _, slot) => log[slot := log[slot].(stage := Pending)]
    case Finishing(_, _, _, slot) => log[slot := log[slot].(stage := Finished)]
    case _ => log
  }

  /** What one look at the header under the scan decides: stop, skip padding, or deliver. */
  function ScanHeader(sh: Shared, r: ReaderPc): ReaderPc
    requires |sh.mem| > 0 && r.Scan?
    requires Index(r.hd, |sh.mem|) + r.advance + 8 <= |sh.mem|
  {
    var header := Read64(sh.mem, Index(r.hd, |sh.mem|) + r.advance);
    var size := Length(header);
    var m := Message(header);
    if IsPending(size) || m == MSG_NONE then StopScan(r)
    else if m == MSG_PAD then Scan(r.hd, r.advance + size, r.count, r.limit)
    else CallHandler(r.hd, r.advance, r.count, r.limit, m, size)
  }

  function StopScan(r: ReaderPc): ReaderPc
    requires r.Scan?
  {
    if r.advance > 0 then Clearing(r.hd, r.advance, 0, r.count) else ReaderIdle
  }

  /** Control has reached the action, and the caller of a writer keeps to the protocol: no more
      bytes than were asked of `prepare`. */
  predicate AtPoint(s: State, a: Action) {
    && (a.Prepare? || a.Step? || a.TryExchange? || a.WriteBytes? || a.Finish? ==> a.w < |s.writers|)
    && match a
       case Prepare(w, req) => s.writers[w].Idle? && req.msg < 0x1_0000_0000
       case Step(w) => Internal(s.writers[w])
       case TryExchange(w, _) => s.writers[w].CompareExchange?
       case WriteBytes(w, bytes) =>
         var pc := s.writers[w];
         pc.Writing? && pc.next + |bytes| <= pc.initial + pc.req.size
       case Finish(w) => s.writers[w].Writing?
       case StartRead(_) => s.reader.ReaderIdle?
       case ReadHeader => s.reader.Scan?
       case Handle => s.reader.CallHandler?
       case Clear(n) => s.reader.Clearing? && s.reader.cleared + n <= s.reader.advance
       case StoreHead => s.reader.Clearing? && s.reader.cleared == s.reader.advance
  }

  /** The action stays inside the buffer and no unsigned subtraction in it wraps. */
  predicate InBounds(s: State, a: Action)
    requires AtPoint(s, a)
  {
    var size := |s.sh.mem|;
    && size > 0
    && match a
       case Step(w) =>
         var pc := s.writers[w];
         && (pc.LoopTop? || pc.StoreCacheForSpace? || pc.Fit? ==> pc.hd <= pc.tl)
         && (pc.WriteHeader? || pc.Finishing? ==> pc.index + 8 <= size)
         && (pc.WritePad? ==> Index(pc.tl, size) + 8 <= size)
         && (pc.Owns() ==> pc.slot < |s.log|)
       case WriteBytes(w, bytes) =>
         var pc := s.writers[w];
         pc.next + |bytes| <= size && pc.slot < |s.log|
       case Finish(w) => HEADER_SIZE <= s.writers[w].initial <= size
       case ReadHeader =>
         s.reader.advance < size - Index(s.reader.hd, size) && s.reader.count < s.reader.limit ==>
           Index(s.reader.hd, size) + s.reader.advance + 8 <= size
       case Handle => Index(s.reader.hd, size) + s.reader.advance + HEADER_SIZE + s.reader.size <= size
       case Clear(n) => Index(s.reader.hd, size) + s.reader.cleared + n <= size
       case _ => true
  }

  predicate Enabled(s: State, a: Action) {
    AtPoint(s, a) && InBounds(s, a)
  }

  function Apply(s: State, a: Action): State
    requires Enabled(s, a)
  {
    var size := |s.sh.mem|;
    match a
    case Prepare(w, req) =>
      if req.Acceptable(size) then s.(writers := s.writers[w := LoadCache(req)]) else s
    case Step(w) =>
      var pc := s.writers[w];
      var (sh, pc') := StepWriter(s.sh, pc);
      s.(sh := sh, writers := s.writers[w := pc'], log := StageLog(s.log, pc))
    case TryExchange(w, spurious) =>
      var pc := s.writers[w];
      if s.sh.tail == pc.tl && !spurious then
        var slot := |s.log|;
        var pc' := if pc.padding != 0 then WritePad(pc.req, pc.tl, pc.padding, slot)
                   else WriteHeader(pc.req, Index(pc.tl, size), slot);
        s.(sh := s.sh.(tail := pc.tl + pc.req.Reserved() + pc.padding),
           writers := s.writers[w := pc'],
           log := s.log + [Entry(pc.tl, pc.padding, pc.req.Reserved(), pc.req, [],
                                 if pc.padding != 0 then Claimed else Ready)])
      else
        s.(writers := s.writers[w := LoopTop(pc.req, pc.hd, s.sh.tail, pc.padding)])
    case WriteBytes(w, bytes) =>
      var pc := s.writers[w];
      var e := s.log[pc.slot];
      s.(sh := s.sh.(mem := Splice(s.sh.mem, pc.next, bytes)),
         writers := s.writers[w := pc.(next := pc.next + |bytes|)],
         log := s.log[pc.slot := e.(data := e.data + bytes)])
    case Finish(w) =>
      var pc := s.writers[w];
      var index := pc.initial - HEADER_SIZE;
      s.(writers := s.writers[w := Finishing(pc.req, index, Read64(s.sh.mem, index), pc.slot)])
    case StartRead(limit) => s.(reader := Scan(s.sh.head, 0, 0, limit))
    case ReadHeader =>
      var r := s.reader;
      if r.advance < size - Index(r.hd, size) && r.count < r.limit
      then s.(reader := ScanHeader(s.sh, r))
      else s.(reader := StopScan(r))
    case Handle =>
      var r := s.reader;
      var at := Index(r.hd, size) + r.advance + HEADER_SIZE;
      s.(reader := Scan(r.hd, r.advance + EntrySize(r.size), r.count + 1, r.limit),
         delivered := s.delivered + [Delivery(r.msg, s.sh.mem[at..at + r.size])])
    case Clear(n) =>
      var r := s.reader;
      s.(sh := s.sh.(mem := Splice(s.sh.mem, Index(r.hd, size) + r.cleared, Zeros(n))),
         reader := r.(cleared := r.cleared + n))
    case StoreHead =>
      s.(sh := s.sh.(head := s.reader.hd + s.reader.advance), reader := ReaderIdle)
  }

  /** The number that `read` returns, at the step with which it returns. */
  function Returned(s: State, a: Action): Option<nat>
    requires Enabled(s, a)
  {
    match a
    case ReadHeader => if Apply(s, a).reader.ReaderIdle? then Some(s.reader.count) else None
    case StoreHead => Some(s.reader.count)
    case _ => None
  }

  /** A run: the actions fire one after another, each of them enabled. */
  predicate IsRun(s: State, actions: seq<Action>)
    decreases |actions|
  {
    actions == [] || (Enabled(s, actions[0]) && IsRun(Apply(s, actions[0]), actions[1..]))
  }

  function Run(s: State, actions: seq<Action>): State
    requires IsRun(s, actions)
    decreases |actions|
  {
    if actions == [] then s else Run(Apply(s, actions[0]), actions[1..])
  }
}
