/** Every run of the ledger behaves as a plain log with a commit index, whose committed part never changes. */
module LedgerRuns {
  import opened LedgerChunks
  import opened LedgerTiles
  import opened LedgerStore

  datatype Op =
    | Write(data: Entry, committable: bool)
    | Truncate(idx: nat)
    | Commit(idx: nat)

  function Applied(s: Store, op: Op): Store
    requires s.Ready()
  {
    match op
    case Write(data, committable) => WroteEntry(s, data, committable).0
    case Truncate(idx) => TruncatedAt(s, idx)
    case Commit(idx) => CommittedAt(s, idx)
  }

  lemma AppliedKeeps(s: Store, op: Op)
    requires Sound(s)
    ensures s.Ready() && Sound(Applied(s, op)) && Applied(s, op).base == s.base
  {
    hide Sound, WroteEntry, TruncatedAt, CommittedAt;
    SoundReady(s);
    match op {
      case Write(data, committable) => WriteKeeps(s, data, committable);
      case Truncate(idx) => TruncateKeeps(s, idx);
      case Commit(idx) => CommitKeeps(s, idx);
    }
  }

  ghost function Run(s: Store, ops: seq<Op>): (r: Store)
    requires Sound(s)
    ensures Sound(r) && r.base == s.base
    decreases |ops|
  {
    if ops == [] then s
    else
      AppliedKeeps(s, ops[0]);
      Run(Applied(s, ops[0]), ops[1..])
  }

  // ----- The plain log

  datatype Plain = Plain(log: seq<Entry>, base: nat, committedIdx: nat) {
    function LastIdx(): nat {
      base + |log|
    }
  }

  function PlainApplied(p: Plain, op: Op): Plain {
    match op
    case Write(data, committable) =>
      if |data| < ENTRY_HEADER_SIZE || (ChunkAfter(data) && !committable) then p else p.(log := p.log + [data])
    case Truncate(idx) =>
      if p.committedIdx <= idx < p.LastIdx() && p.base <= idx then p.(log := p.log[..idx - p.base]) else p
    case Commit(idx) =>
      if p.committedIdx < idx <= p.LastIdx() then p.(committedIdx := idx) else p
  }

  function PlainRun(p: Plain, ops: seq<Op>): Plain
    decreases |ops|
  {
    if ops == [] then p else PlainRun(PlainApplied(p, ops[0]), ops[1..])
  }

  function Abstract(s: Store): Plain {
    Plain(s.Log(), s.base, s.committedIdx)
  }

  lemma AppliedRefines(s: Store, op: Op)
    requires Sound(s)
    ensures s.Ready() && Abstract(Applied(s, op)) == PlainApplied(Abstract(s), op)
    ensures Abstract(s).LastIdx() == s.lastIdx
  {
    SoundReady(s);
    LogLength(s);
    Bounds(s);
    hide Sound, WroteEntry, TruncatedAt, CommittedAt, Store.Log;
    match op {
      case Write(data, committable) => WriteKeeps(s, data, committable);
      case Truncate(idx) => TruncateKeeps(s, idx);
      case Commit(idx) => CommitKeeps(s, idx);
    }
  }

  lemma Bounds(s: Store)
    requires Sound(s)
    ensures s.base <= s.committedIdx <= s.lastIdx
  {
  }

  /** After any run the chunks hold exactly the plain log, and all the ledger's structure is in order. */
  lemma {:induction false} RunRefines(s: Store, ops: seq<Op>)
    requires Sound(s)
    ensures Abstract(Run(s, ops)) == PlainRun(Abstract(s), ops)
    decreases |ops|
  {
    if ops != [] {
      hide Sound, Applied, PlainApplied, Abstract;
      AppliedKeeps(s, ops[0]);
      AppliedRefines(s, ops[0]);
      RunRefines(Applied(s, ops[0]), ops[1..]);
    }
  }

  /** Starting from an empty ledger, at any base and with any chunk size. */
  lemma LedgerIsLog(base: nat, threshold: nat, ops: seq<Op>)
    ensures Sound(Empty(base, threshold))
    ensures Abstract(Run(Empty(base, threshold), ops)) == PlainRun(Plain([], base, base), ops)
  {
    EmptySound(base, threshold);
    RunRefines(Empty(base, threshold), ops);
  }

  /**
  After any run: the committed files and the open chunks tile the log without gap or overlap, every chunk but
  the latest is complete, and a new file is asked for exactly when the latest is not open.
  */
  lemma ChunksInOrder(base: nat, threshold: nat, ops: seq<Op>)
    ensures Sound(Empty(base, threshold))
    ensures var s := Run(Empty(base, threshold), ops);
      && Tiles(s.archive, base, s.archivedIdx) && Tiles(s.files, s.archivedIdx, s.lastIdx)
      && (forall i :: 0 <= i < |s.files| - 1 ==> s.files[i].completed)
      && (s.requireNewFile <==> s.files == [] || s.Latest().completed)
      && (forall i :: 0 <= i < |s.archive| ==> s.archive[i].completed && s.archive[i].committed)
      && s.archivedIdx <= s.committedIdx <= s.lastIdx
  {
    EmptySound(base, threshold);
    hide Tiles, Run;
  }

  // ----- Committed entries never change

  ghost predicate Extends(p: Plain, q: Plain) {
    && q.base == p.base
    && p.committedIdx <= q.committedIdx <= q.LastIdx()
    && p.base <= p.committedIdx <= p.LastIdx()
    && p.log[..p.committedIdx - p.base] <= q.log
  }

  lemma AppliedExtends(p: Plain, op: Op)
    requires p.base <= p.committedIdx <= p.LastIdx()
    ensures Extends(p, PlainApplied(p, op))
  {
  }

  lemma ExtendsTransitive(p: Plain, q: Plain, r: Plain)
    requires Extends(p, q) && Extends(q, r)
    ensures Extends(p, r)
  {
    var m, n := p.committedIdx - p.base, q.committedIdx - q.base;
    assert p.log[..m] == q.log[..m] == q.log[..n][..m] == r.log[..m];
  }

  lemma {:induction false} RunExtends(p: Plain, ops: seq<Op>)
    requires p.base <= p.committedIdx <= p.LastIdx()
    ensures Extends(p, PlainRun(p, ops))
    decreases |ops|
  {
    if ops != [] {
      var q := PlainApplied(p, ops[0]);
      AppliedExtends(p, ops[0]);
      hide PlainApplied;
      RunExtends(q, ops[1..]);
      ExtendsTransitive(p, q, PlainRun(q, ops[1..]));
    }
  }

  /** Whatever is done later, the entries up to the commit index stay as they are, and the commit index never recedes. */
  lemma CommittedEntriesKept(base: nat, threshold: nat, past: seq<Op>, future: seq<Op>)
    ensures Sound(Empty(base, threshold))
    ensures var s := Run(Empty(base, threshold), past);
      var t := Run(s, future);
      && base <= s.committedIdx <= t.committedIdx && s.committedIdx - base <= |s.Log()|
      && s.Log()[..s.committedIdx - base] <= t.Log()
  {
    EmptySound(base, threshold);
    var s := Run(Empty(base, threshold), past);
    Bounds(s);
    LogLength(s);
    RunRefines(s, future);
    RunExtends(Abstract(s), future);
  }
}
