/**
The view history of a node: which sequence numbers were written in which view. Entry `i` is the first
version of view `i + 1`; views without transactions share their successor's first version.
*/
module ViewHistories {

  /** Stands for "no view" and for "no version" alike. */
  const UNKNOWN := 0

  ghost predicate Sorted(views: seq<nat>) {
    forall i, j :: 0 <= i <= j < |views| ==> views[i] <= views[j]
  }

  /** How many leading entries are at most `idx`. */
  function UpperBound(views: seq<nat>, idx: nat): (n: nat)
    ensures n <= |views|
    ensures forall i :: 0 <= i < n ==> views[i] <= idx
    ensures n < |views| ==> views[n] > idx
  {
    if views == [] || views[0] > idx then 0
    else
      var n := UpperBound(views[1..], idx);
      assert forall i :: 0 < i < n + 1 ==> views[i] == views[1..][i - 1];
      n + 1
  }

  function ViewAt(views: seq<nat>, idx: nat): nat {
    UpperBound(views, idx)
  }

  /** The entries that `n` splits off are the ones at most `idx`, wherever `n` came from. */
  lemma BoundUnique(views: seq<nat>, idx: nat, n: nat)
    requires Sorted(views) && n <= |views|
    requires n > 0 ==> views[n - 1] <= idx
    requires n < |views| ==> views[n] > idx
    ensures UpperBound(views, idx) == n
  {
    hide UpperBound;
  }

  /** Views never decrease along the log. */
  lemma ViewsGrow(views: seq<nat>, i: nat, j: nat)
    requires Sorted(views) && i <= j
    ensures ViewAt(views, i) <= ViewAt(views, j)
  {
    hide UpperBound;
  }

  // ----- Updates

  function Updated(views: seq<nat>, idx: nat, view: nat): seq<nat> {
    if view <= |views| then views else views + seq(view - |views|, _ => idx)
  }

  predicate UpdateAllowed(views: seq<nat>, idx: nat) {
    views == [] || views[|views| - 1] <= idx
  }

  /** An update gives its view to `idx` and everything above, and no other version another view. */
  lemma UpdatedViews(views: seq<nat>, idx: nat, view: nat, i: nat)
    requires Sorted(views) && UpdateAllowed(views, idx)
    ensures Sorted(Updated(views, idx, view))
    ensures i < idx ==> ViewAt(Updated(views, idx, view), i) == ViewAt(views, i)
    ensures i >= idx && view >= |views| ==> ViewAt(Updated(views, idx, view), i) == view
    ensures i >= idx && view <= |views| ==> ViewAt(Updated(views, idx, view), i) == |views|
  {
    hide UpperBound;
    var next, n := Updated(views, idx, view), UpperBound(views, i);
    assert forall k :: 0 <= k < |next| ==> next[k] == if k < |views| then views[k] else idx;
    if i < idx {
      BoundUnique(next, i, n);
    } else {
      BoundUnique(next, i, |next|);
    }
  }

  function RolledBack(views: seq<nat>, idx: nat): seq<nat> {
    views[..UpperBound(views, idx)]
  }

  /** Rolling back to `idx` leaves the views up to `idx` and gives everything above the view of `idx`. */
  lemma RolledBackViews(views: seq<nat>, idx: nat, i: nat)
    requires Sorted(views)
    ensures Sorted(RolledBack(views, idx))
    ensures ViewAt(RolledBack(views, idx), i) == ViewAt(views, if i <= idx then i else idx)
  {
    hide UpperBound;
    var u, n := UpperBound(views, idx), UpperBound(views, i);
    if i <= idx {
      ViewsGrow(views, i, idx);
      BoundUnique(RolledBack(views, idx), i, n);
    } else {
      BoundUnique(RolledBack(views, idx), i, u);
    }
  }

  // ----- Where views begin and end

  function StartOfView(views: seq<nat>, view: nat): nat {
    if view > |views| || view == UNKNOWN then UNKNOWN
    else if view + 1 <= |views| && views[view] == views[view - 1] then UNKNOWN
    else views[view - 1]
  }

  function EndOfView(views: seq<nat>, view: nat): nat
    requires Sorted(views)
  {
    if StartOfView(views, view) == UNKNOWN then UNKNOWN
    else if view >= |views| || view == UNKNOWN then UNKNOWN
    else views[view] - 1
  }

  /** The versions of a view are exactly those from its start to its end, the latest view having no end.  The view
      of version 0, if it has one, is the exception: its start reads as unknown. */
  lemma ViewExtent(views: seq<nat>, view: nat, i: nat)
    requires Sorted(views) && view > 0
    ensures (ViewAt(views, i) == view <==>
      && StartOfView(views, view) != UNKNOWN
      && StartOfView(views, view) <= i
      && (EndOfView(views, view) != UNKNOWN ==> i <= EndOfView(views, view)))
      <==> view != ViewAt(views, 0) || ViewAt(views, i) != view
  {
    hide UpperBound;
    var n := UpperBound(views, i);
    if view <= |views| {
      if view < |views| {
        assert views[view - 1] <= views[view];
      }
      if views[view - 1] <= i && (view < |views| ==> i < views[view]) {
        BoundUnique(views, i, view);
      }
    }
  }

  // ----- Searching backwards, one view at a time

  /** The end of the view before that of `probe`, as far as its start is known. */
  function Previous(views: seq<nat>, probe: nat): nat {
    var start := StartOfView(views, ViewAt(views, probe));
    if start > 0 then start - 1 else start
  }

  function Probes(views: seq<nat>, probe: nat, steps: nat): nat {
    if steps == 0 then probe else Probes(views, Previous(views, probe), steps - 1)
  }

  /** A step back from a view above that of version 0 passes over exactly the versions of that view. */
  lemma StepBack(views: seq<nat>, probe: nat)
    requires Sorted(views) && ViewAt(views, probe) > ViewAt(views, 0)
    ensures Previous(views, probe) < probe
    ensures forall i :: Previous(views, probe) < i <= probe ==> ViewAt(views, i) == ViewAt(views, probe)
  {
    hide UpperBound, StartOfView, EndOfView;
    var term := ViewAt(views, probe);
    ViewExtent(views, term, probe);
    forall i | Previous(views, probe) < i <= probe
      ensures ViewAt(views, i) == term
    {
      ViewExtent(views, term, i);
    }
  }

  lemma {:induction false} NeverLower(views: seq<nat>, view: nat, probe: nat, steps: nat)
    requires Sorted(views) && ViewAt(views, 0) > view
    ensures ViewAt(views, Probes(views, probe, steps)) > view
    decreases steps
  {
    hide UpperBound, Previous;
    if steps == 0 {
      ViewsGrow(views, 0, probe);
    } else {
      NeverLower(views, view, Previous(views, probe), steps - 1);
    }
  }

  lemma {:induction false} LowerInTheEnd(views: seq<nat>, view: nat, probe: nat)
    requires Sorted(views) && ViewAt(views, 0) <= view
    ensures exists steps: nat :: ViewAt(views, Probes(views, probe, steps)) <= view
    decreases probe
  {
    hide UpperBound, Previous;
    if ViewAt(views, probe) <= view {
      assert ViewAt(views, Probes(views, probe, 0)) <= view;
    } else {
      StepBack(views, probe);
      LowerInTheEnd(views, view, Previous(views, probe));
      var steps: nat :| ViewAt(views, Probes(views, Previous(views, probe), steps)) <= view;
      assert Probes(views, probe, steps + 1) == Probes(views, Previous(views, probe), steps);
    }
  }

  /** The search for a view no higher than `view` comes to an end, from whatever version, if and only if the view of
      version 0 is no higher. */
  lemma SearchEndsIff(views: seq<nat>, view: nat, probe: nat)
    requires Sorted(views)
    ensures (exists steps: nat :: ViewAt(views, Probes(views, probe, steps)) <= view) <==> ViewAt(views, 0) <= view
  {
    hide UpperBound, Probes;
    if ViewAt(views, 0) <= view {
      LowerInTheEnd(views, view, probe);
    } else {
      forall steps: nat
        ensures ViewAt(views, Probes(views, probe, steps)) > view
      {
        NeverLower(views, view, probe, steps);
      }
    }
  }

  class ViewHistory {
    var views: seq<nat>

    ghost predicate Valid()
      reads this
    {
      Sorted(views)
    }

    constructor ()
      ensures Valid() && views == []
    {
      views := [];
    }

    /** Refuses to move backwards; otherwise enters `view` and the views skipped over at `idx`. */
    method Update(idx: nat, view: nat) returns (ok: bool)
      requires Valid()
      modifies this
      ensures Valid()
      ensures ok == UpdateAllowed(old(views), idx)
      ensures views == if ok then Updated(old(views), idx, view) else old(views)
    {
      if |views| > 0 {
        var latest := views[|views| - 1];
        if idx < latest {
          return false;
        }
      }
      UpdatedViews(views, idx, view, 0);
      var i := |views|;
      while i < view
        invariant |old(views)| <= i
        invariant |views| == i
        invariant views == old(views) + seq(i - |old(views)|, _ => idx)
        invariant i > |old(views)| ==> i <= view
      {
        views := views + [idx];
        i := i + 1;
      }
      return true;
    }

    /** Takes over a history exactly when it is in order, and otherwise stops before the first entry out of order. */
    method Initialise(terms: seq<nat>) returns (ok: bool)
      modifies this
      ensures Valid() && views <= terms
      ensures ok <==> Sorted(terms)
      ensures ok ==> views == terms
      ensures !ok ==> 0 < |views| < |terms| && terms[|views|] < terms[|views| - 1]
    {
      views := [];
      var i := 0;
      while i < |terms|
        invariant 0 <= i <= |terms|
        invariant Valid() && views == terms[..i]
      {
        ok := Update(terms[i], i + 1);
        if !ok {
          assert terms[i] < terms[i - 1];
          return;
        }
        assert terms[..i + 1] == terms[..i] + [terms[i]];
        assert views == terms[..i] + seq(1, _ => terms[i]);
        i := i + 1;
      }
      ok := true;
    }

    method Rollback(idx: nat)
      requires Valid()
      modifies this
      ensures Valid() && views == RolledBack(old(views), idx)
    {
      RolledBackViews(views, idx, 0);
      views := views[..UpperBound(views, idx)];
    }

    /**
    The highest version, no higher than `seqno` and the end of the log, whose view is at most `view`: what
    a follower offers a leader that rejected `view.seqno`.
    */
    method FindHighestPossibleMatch(lastIdx: nat, view: nat, seqno: nat) returns (probe: nat)
      requires Valid() && ViewAt(views, 0) <= view
      ensures probe <= seqno && probe <= lastIdx
      ensures ViewAt(views, probe) <= view
      ensures forall i :: probe < i <= seqno && i <= lastIdx ==> ViewAt(views, i) > view
    {
      hide UpperBound, StartOfView, Previous;
      probe := if seqno <= lastIdx then seqno else lastIdx;
      var term := ViewAt(views, probe);
      while term > view
        invariant probe <= seqno && probe <= lastIdx
        invariant term == ViewAt(views, probe)
        invariant forall i :: probe < i <= seqno && i <= lastIdx ==> ViewAt(views, i) > view
        decreases probe
      {
        StepBack(views, probe);
        PreviousIs(views, probe);
        probe := StartOfView(views, term);
        if probe > 0 {
          probe := probe - 1;
        }
        term := ViewAt(views, probe);
      }
    }
  }

  lemma PreviousIs(views: seq<nat>, probe: nat)
    ensures var start := StartOfView(views, ViewAt(views, probe));
      Previous(views, probe) == if start > 0 then start - 1 else start
  {
  }
}
