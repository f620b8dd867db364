/**
The status a node reports for a transaction identifier, and how that status evolves while the node's log
grows, is rolled back and is committed.
*/
module TxStatuses {
  import opened Options
  import opened ViewHistories

  datatype TxStatus = Unknown | Pending | Committed | Invalid

  /** `None` where the source throws: a committed sequence number whose view is not known. */
  function Evaluate(targetView: nat, targetSeqno: nat, localView: nat, committedView: nat, committedSeqno: nat)
    : Option<TxStatus>
  {
    var isCommitted := committedSeqno >= targetSeqno;
    var viewsMatch := localView == targetView;
    var viewKnown := localView != UNKNOWN;
    if isCommitted && !viewKnown then None
    else if isCommitted then Some(if viewsMatch then Committed else Invalid)
    else if viewsMatch then Some(Pending)
    else if committedView > targetView then Some(Invalid)
    else Some(Unknown)
  }

  // ----- The consensus state behind it

  datatype Node = Node(views: seq<nat>, lastIdx: nat, commitIdx: nat) {
    function GetView(idx: nat): nat {
      if idx > lastIdx then UNKNOWN else ViewAt(views, idx)
    }

    function Status(view: nat, seqno: nat): Option<TxStatus> {
      Evaluate(view, seqno, GetView(seqno), GetView(commitIdx), commitIdx)
    }

    ghost predicate Valid() {
      Sorted(views) && commitIdx <= lastIdx
    }
  }

  datatype Step =
    | Extend(to: nat)
    | EnterView(idx: nat, view: nat)
    | Rollback(to: nat)
    | Commit(to: nat)

  /** What the protocol guarantees of each step: a new view never starts at or below the commit point. */
  ghost predicate Enabled(n: Node, step: Step) {
    match step
    case Extend(to) => n.lastIdx <= to
    case EnterView(idx, view) => n.commitIdx < idx || view <= |n.views|
    case Rollback(to) => true
    case Commit(to) => n.commitIdx <= to <= n.lastIdx
  }

  function Apply(n: Node, step: Step): Node {
    match step
    case Extend(to) => n.(lastIdx := to)
    case EnterView(idx, view) => if UpdateAllowed(n.views, idx) then n.(views := Updated(n.views, idx, view)) else n
    case Rollback(to) => if to < n.commitIdx then n else n.(lastIdx := to, views := RolledBack(n.views, to))
    case Commit(to) => n.(commitIdx := to)
  }

  function Run(n: Node, steps: seq<Step>): Node
    decreases |steps|
  {
    if steps == [] then n else Run(Apply(n, steps[0]), steps[1..])
  }

  ghost predicate IsRun(n: Node, steps: seq<Step>)
    decreases |steps|
  {
    steps != [] ==> Enabled(n, steps[0]) && IsRun(Apply(n, steps[0]), steps[1..])
  }

  /** A later state keeps the commit point or advances it, and keeps the view of everything committed. */
  ghost predicate Succeeds(n: Node, m: Node) {
    && n.commitIdx <= m.commitIdx
    && forall i :: 0 <= i <= n.commitIdx ==> ViewAt(m.views, i) == ViewAt(n.views, i)
  }

  lemma StepSucceeds(n: Node, step: Step)
    requires n.Valid() && Enabled(n, step)
    ensures Apply(n, step).Valid() && Succeeds(n, Apply(n, step))
  {
    hide ViewAt, Updated, RolledBack;
    var m := Apply(n, step);
    if step.EnterView? && UpdateAllowed(n.views, step.idx) {
      UpdatedViews(n.views, step.idx, step.view, 0);
      forall i | 0 <= i <= n.commitIdx
        ensures ViewAt(m.views, i) == ViewAt(n.views, i)
      {
        UpdateKeeps(n.views, step.idx, step.view, i);
      }
    } else if step.Rollback? {
      RolledBackViews(n.views, step.to, 0);
      forall i | 0 <= i <= n.commitIdx
        ensures ViewAt(m.views, i) == ViewAt(n.views, i)
      {
        RolledBackViews(n.views, step.to, i);
      }
    }
  }

  lemma UpdateKeeps(views: seq<nat>, idx: nat, view: nat, i: nat)
    requires Sorted(views) && UpdateAllowed(views, idx)
    requires i < idx || view <= |views|
    ensures ViewAt(Updated(views, idx, view), i) == ViewAt(views, i)
  {
    hide ViewAt;
    UpdatedViews(views, idx, view, i);
  }

  lemma {:induction false} RunSucceeds(n: Node, steps: seq<Step>)
    requires n.Valid() && IsRun(n, steps)
    ensures Run(n, steps).Valid() && Succeeds(n, Run(n, steps))
    decreases |steps|
  {
    if steps != [] {
      hide ViewAt, Apply, Enabled;
      StepSucceeds(n, steps[0]);
      RunSucceeds(Apply(n, steps[0]), steps[1..]);
    }
  }

  lemma {:induction false} RunConcat(n: Node, a: seq<Step>, b: seq<Step>)
    requires IsRun(n, a + b)
    ensures IsRun(n, a) && IsRun(Run(n, a), b) && Run(n, a + b) == Run(Run(n, a), b)
    decreases |a|
  {
    hide Apply, Enabled;
    if a == [] {
      assert a + b == b;
    } else {
      assert (a + b)[1..] == a[1..] + b;
      RunConcat(Apply(n, a[0]), a[1..], b);
    }
  }

  predicate Final(status: Option<TxStatus>) {
    status == Some(Committed) || status == Some(Invalid)
  }

  /** A final status survives any later state that keeps what was committed. */
  lemma FinalSurvives(n: Node, m: Node, view: nat, seqno: nat)
    requires n.Valid() && m.Valid() && Succeeds(n, m)
    requires view > 0 && Final(n.Status(view, seqno))
    ensures m.Status(view, seqno) == n.Status(view, seqno)
  {
    hide ViewAt;
    assert ViewAt(m.views, n.commitIdx) == ViewAt(n.views, n.commitIdx);
    ViewsGrow(m.views, n.commitIdx, m.commitIdx);
    if n.commitIdx < seqno {
      ViewsGrow(m.views, n.commitIdx, seqno);
    }
  }

  function Start(): Node {
    Node([], 0, 0)
  }

  /** Once a transaction is Committed or Invalid it stays so, whatever the node goes through afterwards. */
  lemma StatusIsFinal(past: seq<Step>, future: seq<Step>, view: nat, seqno: nat)
    requires IsRun(Start(), past + future)
    requires view > 0 && Final(Run(Start(), past).Status(view, seqno))
    ensures Run(Start(), past + future).Status(view, seqno) == Run(Start(), past).Status(view, seqno)
  {
    hide *;
    RunConcat(Start(), past, future);
    StartValid();
    RunSucceeds(Start(), past);
    RunSucceeds(Run(Start(), past), future);
    FinalSurvives(Run(Start(), past), Run(Start(), past + future), view, seqno);
  }

  lemma StartValid()
    ensures Start().Valid()
  {
  }

  /** At most one view ever commits at a sequence number. */
  lemma OneViewCommits(past: seq<Step>, future: seq<Step>, v: nat, w: nat, seqno: nat)
    requires IsRun(Start(), past + future)
    requires Run(Start(), past).Status(v, seqno) == Some(Committed)
    requires Run(Start(), past + future).Status(w, seqno) == Some(Committed)
    ensures v == w
  {
    assert v > 0;
    hide Run, IsRun, ViewAt;
    StatusIsFinal(past, future, v, seqno);
  }

  /**
  What has been committed stays answerable: once the first version has a view and is committed, the status
  of every transaction identifier with a sequence number is defined.
  */
  lemma StatusAlwaysDefined(past: seq<Step>, future: seq<Step>, view: nat, seqno: nat)
    requires IsRun(Start(), past + future) && seqno > 0
    requires Run(Start(), past).commitIdx > 0 && Run(Start(), past).GetView(1) != UNKNOWN
    ensures Run(Start(), past + future).Status(view, seqno).Some?
  {
    hide Run, IsRun, ViewAt, Start;
    var n, m := Run(Start(), past), Run(Start(), past + future);
    RunConcat(Start(), past, future);
    StartValid();
    RunSucceeds(Start(), past);
    RunSucceeds(n, future);
    assert ViewAt(m.views, 1) == ViewAt(n.views, 1);
    ViewsGrow(m.views, 1, seqno);
  }

  /** Pending means that the node holds the transaction: committing up to it, and nothing less, would make it Committed. */
  lemma PendingIsHeld(n: Node, view: nat, seqno: nat)
    requires n.Valid() && view > 0
    ensures n.Status(view, seqno) == Some(Pending) <==>
      && n.commitIdx < seqno && Enabled(n, Commit(seqno))
      && Apply(n, Commit(seqno)).Status(view, seqno) == Some(Committed)
  {
    hide ViewAt;
  }

  lemma Unfold(n: Node, step: Step, rest: seq<Step>)
    ensures Run(n, [step] + rest) == Run(Apply(n, step), rest)
    ensures IsRun(n, [step] + rest) <==> Enabled(n, step) && IsRun(Apply(n, step), rest)
  {
    assert ([step] + rest)[1..] == rest;
  }

  // ----- What a status says about what is still possible

  ghost predicate CommittedAfter(n: Node, steps: seq<Step>, view: nat, seqno: nat) {
    IsRun(n, steps) && Run(n, steps).Status(view, seqno) == Some(Committed)
  }

  /** Some continuation commits the transaction. */
  ghost predicate CanCommit(n: Node, view: nat, seqno: nat) {
    exists steps :: CommittedAfter(n, steps, view, seqno)
  }

  /** The node has the sequence number in that view. */
  predicate Holds(n: Node, view: nat, seqno: nat) {
    n.GetView(seqno) == view
  }

  lemma CommittedCommits(n: Node, view: nat, seqno: nat)
    requires n.Status(view, seqno) == Some(Committed)
    ensures CanCommit(n, view, seqno)
  {
    hide ViewAt, Node.Status;
    NoSteps(n);
    assert CommittedAfter(n, [], view, seqno);
  }

  lemma StepCommits(n: Node, step: Step, view: nat, seqno: nat)
    requires Enabled(n, step) && CanCommit(Apply(n, step), view, seqno)
    ensures CanCommit(n, view, seqno)
  {
    hide Apply, Enabled, Node.Status, Run, IsRun;
    var rest :| CommittedAfter(Apply(n, step), rest, view, seqno);
    Unfold(n, step, rest);
    assert CommittedAfter(n, [step] + rest, view, seqno);
  }

  /** A log that goes on in the view can be extended to the sequence number and committed. */
  lemma ExtendedCommits(n: Node, view: nat, seqno: nat)
    requires n.commitIdx == n.lastIdx < seqno && view > 0 && ViewAt(n.views, seqno) == view
    ensures CanCommit(n, view, seqno)
  {
    hide ViewAt, CanCommit;
    var held := Apply(n, Extend(seqno));
    CommittedCommits(Apply(held, Commit(seqno)), view, seqno);
    StepCommits(held, Commit(seqno), view, seqno);
    StepCommits(n, Extend(seqno), view, seqno);
  }

  /** Unless the committed log has passed the view: roll back to the commit point, enter the view, and go on. */
  lemma RolledBackCommits(n: Node, view: nat, seqno: nat)
    requires n.Valid() && view > 0 && n.commitIdx < seqno && ViewAt(n.views, n.commitIdx) <= view
    ensures CanCommit(n, view, seqno)
  {
    hide ViewAt, CanCommit, Updated, UpdateAllowed;
    var cut := Apply(n, Rollback(n.commitIdx));
    RolledBackViews(n.views, n.commitIdx, seqno);
    CutShort(n.views, n.commitIdx, seqno);
    UpdatedViews(cut.views, seqno, view, seqno);
    ExtendedCommits(Apply(cut, EnterView(seqno, view)), view, seqno);
    StepCommits(cut, EnterView(seqno, view), view, seqno);
    StepCommits(n, Rollback(n.commitIdx), view, seqno);
  }

  lemma CutShort(views: seq<nat>, idx: nat, later: nat)
    requires Sorted(views) && idx <= later
    ensures |RolledBack(views, idx)| == ViewAt(views, idx) && UpdateAllowed(RolledBack(views, idx), later)
  {
    hide UpperBound;
  }

  /** A transaction that is Invalid, or of which the node cannot tell, never commits. */
  lemma InvalidNeverCommits(n: Node, steps: seq<Step>, view: nat, seqno: nat)
    requires n.Valid() && view > 0 && IsRun(n, steps)
    requires n.Status(view, seqno) in [None, Some(Invalid)]
    ensures Run(n, steps).Status(view, seqno) != Some(Committed)
  {
    hide ViewAt, Run, IsRun;
    RunSucceeds(n, steps);
    var m := Run(n, steps);
    if n.Status(view, seqno) == None {
      assert ViewAt(m.views, seqno) == ViewAt(n.views, seqno);
    } else {
      FinalSurvives(n, m, view, seqno);
    }
  }

  lemma CommitsUnlessPassed(n: Node, view: nat, seqno: nat)
    requires n.Valid() && view > 0
    ensures CanCommit(n, view, seqno) <==> n.Status(view, seqno) !in [None, Some(Invalid)]
  {
    hide ViewAt, Run, IsRun;
    if n.Status(view, seqno) in [None, Some(Invalid)] {
      forall steps | IsRun(n, steps)
        ensures !CommittedAfter(n, steps, view, seqno)
      {
        InvalidNeverCommits(n, steps, view, seqno);
      }
    } else if n.Status(view, seqno) == Some(Committed) {
      CommittedCommits(n, view, seqno);
    } else {
      if n.Status(view, seqno) == Some(Pending) {
        ViewsGrow(n.views, n.commitIdx, seqno);
      }
      RolledBackCommits(n, view, seqno);
    }
  }

  /**
  What each status means, whatever the node has gone through: a committed transaction is held at or below the commit
  point and a pending one above; an unknown one is not held but may still commit; and an invalid one cannot, whatever
  happens.  No status is given exactly if the sequence number is committed in no view.
  */
  lemma StatusMeans(n: Node, view: nat, seqno: nat)
    requires n.Valid() && view > 0
    ensures var status, held, lost := n.Status(view, seqno), Holds(n, view, seqno),
        seqno <= n.commitIdx && n.GetView(seqno) == UNKNOWN;
      && (status == Some(Committed) <==> held && seqno <= n.commitIdx)
      && (status == Some(Pending) <==> held && n.commitIdx < seqno)
      && (status == Some(Unknown) <==> !held && CanCommit(n, view, seqno))
      && (status == Some(Invalid) <==> !lost && !CanCommit(n, view, seqno))
      && (status == None <==> lost)
  {
    hide ViewAt, CanCommit;
    CommitsUnlessPassed(n, view, seqno);
  }

  /** View 0 is not a view: an identifier in it can turn from Invalid back to Pending when the log is rolled back. */
  lemma ViewZeroNotFinal(past: seq<Step>, future: seq<Step>)
    requires past == [EnterView(1, 1), Extend(2), Commit(1)] && future == [Rollback(1)]
    ensures IsRun(Start(), past + future)
    ensures Run(Start(), past).Status(0, 2) == Some(Invalid)
    ensures Run(Start(), past + future).Status(0, 2) == Some(Pending)
  {
    hide Run, IsRun, UpperBound;
    assert Updated([], 1, 1) == [1];
    BoundUnique([1], 2, 1);
    BoundUnique([1], 1, 1);
    assert RolledBack([1], 1) == [1];
    assert past == [past[0]] + ([past[1]] + ([past[2]] + []));
    assert past + future == [past[0]] + ([past[1]] + ([past[2]] + ([future[0]] + [])));
    Unfold(Start(), past[0], [past[1]] + ([past[2]] + []));
    Unfold(Start(), past[0], [past[1]] + ([past[2]] + ([future[0]] + [])));
    Unfold(Node([1], 0, 0), past[1], [past[2]] + []);
    Unfold(Node([1], 0, 0), past[1], [past[2]] + ([future[0]] + []));
    Unfold(Node([1], 2, 0), past[2], []);
    Unfold(Node([1], 2, 0), past[2], [future[0]] + []);
    Unfold(Node([1], 2, 1), future[0], []);
    NoSteps(Node([1], 2, 1));
    NoSteps(Node([1], 1, 1));
  }

  lemma NoSteps(n: Node)
    ensures Run(n, []) == n && IsRun(n, [])
  {
  }
}
