/**
 * The observable effect of the auditor's loops, and how the effects of
 * successive iterations combine: each iteration appends to the report, adds
 * to the listings, requests and sleeps, and may end the process, after which
 * nothing more happens.
 */
module Runs {
  import opened Seqs

  /**
   * The observable effect of (part of) a scan: the report lines written, the
   * accounts whose repository listing was requested, the wiki URLs requested,
   * the 15-second sleeps taken, and whether the process ended with exit status 1.
   */
  datatype Run = Run(report: seq<string>, listed: seq<string>, probed: seq<string>, sleeps: nat, aborted: bool)
  {
    /** This stretch of the scan followed by `next`, unless this stretch already ended the process. */
    function Then(next: Run): Run
    {
      if aborted then this else Run(report + next.report, listed + next.listed, probed + next.probed, sleeps + next.sleeps, next.aborted)
    }
  }

  const Nothing := Run([], [], [], 0, false)

  lemma ThenAssoc(a: Run, b: Run, c: Run)
    ensures a.Then(b).Then(c) == a.Then(b.Then(c))
  {
  }

  /** The first `n` of the stretches, one after the other. */
  function Chain(runs: seq<Run>, n: nat): Run
    requires n <= |runs|
  {
    if n == 0 then Nothing else Chain(runs, n - 1).Then(runs[n - 1])
  }

  /** Once a stretch ends the process, the later ones add nothing. */
  lemma {:induction false} ChainStaysAborted(runs: seq<Run>, k: nat, m: nat)
    requires k <= m <= |runs| && Chain(runs, k).aborted
    ensures Chain(runs, m) == Chain(runs, k)
    decreases m
  {
    if k < m {
      ChainStaysAborted(runs, k, m - 1);
    }
  }

  /** A chain whose first `f + 1` stretches have ended the process has its final effect already. */
  lemma ChainEndsWith(runs: seq<Run>, f: nat, r: Run)
    requires f < |runs| && Chain(runs, f + 1) == r && r.aborted
    ensures Chain(runs, |runs|) == r
  {
    ChainStaysAborted(runs, f + 1, |runs|);
  }

  /**
   * One more iteration after a `start` and `i` iterations: the loop has then
   * done `i + 1` iterations, and when that ends the process it has done all it
   * ever will.
   */
  lemma ChainStep(start: Run, runs: seq<Run>, i: nat)
    requires i < |runs|
    ensures start.Then(Chain(runs, i)).Then(runs[i]) == start.Then(Chain(runs, i + 1))
    ensures start.Then(Chain(runs, i + 1)).aborted ==> start.Then(Chain(runs, i + 1)) == start.Then(Chain(runs, |runs|))
  {
    ThenAssoc(start, Chain(runs, i), runs[i]);
    if Chain(runs, i + 1).aborted {
      ChainStaysAborted(runs, i + 1, |runs|);
    }
  }

  /** The report lines of the first `n` stretches, stretch by stretch. */
  function Reports(runs: seq<Run>, n: nat): seq<string>
    requires n <= |runs|
  {
    Flatten(seq(n, i requires 0 <= i < n => runs[i].report))
  }

  /** The accounts listed by the first `n` stretches. */
  function Listings(runs: seq<Run>, n: nat): seq<string>
    requires n <= |runs|
  {
    Flatten(seq(n, i requires 0 <= i < n => runs[i].listed))
  }

  /** The wiki requests of the first `n` stretches. */
  function Requests(runs: seq<Run>, n: nat): seq<string>
    requires n <= |runs|
  {
    Flatten(seq(n, i requires 0 <= i < n => runs[i].probed))
  }

  /** The sleeps of the first `n` stretches. */
  function Sleeps(runs: seq<Run>, n: nat): nat
    requires n <= |runs|
  {
    Sum(seq(n, i requires 0 <= i < n => runs[i].sleeps))
  }

  /** None of the first `n` stretches ends the process. */
  predicate Completes(runs: seq<Run>, n: nat)
    requires n <= |runs|
  {
    forall i :: 0 <= i < n ==> !runs[i].aborted
  }

  lemma RunsSnoc(runs: seq<Run>, n: nat)
    requires n < |runs|
    ensures Reports(runs, n + 1) == Reports(runs, n) + runs[n].report
    ensures Listings(runs, n + 1) == Listings(runs, n) + runs[n].listed
    ensures Requests(runs, n + 1) == Requests(runs, n) + runs[n].probed
    ensures Sleeps(runs, n + 1) == Sleeps(runs, n) + runs[n].sleeps
  {
    var rs := seq(n, i requires 0 <= i < n => runs[i].report);
    assert seq(n + 1, i requires 0 <= i < n + 1 => runs[i].report) == rs + [runs[n].report];
    FlattenSnoc(rs, runs[n].report);
    var ls := seq(n, i requires 0 <= i < n => runs[i].listed);
    assert seq(n + 1, i requires 0 <= i < n + 1 => runs[i].listed) == ls + [runs[n].listed];
    FlattenSnoc(ls, runs[n].listed);
    var ps := seq(n, i requires 0 <= i < n => runs[i].probed);
    assert seq(n + 1, i requires 0 <= i < n + 1 => runs[i].probed) == ps + [runs[n].probed];
    FlattenSnoc(ps, runs[n].probed);
    var ss := seq(n, i requires 0 <= i < n => runs[i].sleeps);
    assert seq(n + 1, i requires 0 <= i < n + 1 => runs[i].sleeps) == ss + [runs[n].sleeps];
    SumSnoc(ss, runs[n].sleeps);
  }

  /** While no stretch ends the process, the chain's effect is every stretch's effect, in order. */
  lemma {:induction false} ChainCompleted(runs: seq<Run>, n: nat)
    requires n <= |runs| && Completes(runs, n)
    ensures Chain(runs, n) == Run(Reports(runs, n), Listings(runs, n), Requests(runs, n), Sleeps(runs, n), false)
  {
    if n > 0 {
      ChainCompleted(runs, n - 1);
      RunsSnoc(runs, n - 1);
    }
  }

  /** When one of the first `n` stretches ends the process, one of them is the first to. */
  lemma {:induction false} FirstAbort(runs: seq<Run>, n: nat) returns (f: nat)
    requires n <= |runs| && !Completes(runs, n)
    ensures f < n && Completes(runs, f) && runs[f].aborted
  {
    if Completes(runs, n - 1) {
      f := n - 1;
    } else {
      f := FirstAbort(runs, n - 1);
    }
  }

  /**
   * The first stretch that ends the process ends the chain: what it and the
   * stretches before it did stands, and no later stretch has any effect.
   */
  lemma ChainStopsAt(runs: seq<Run>, f: nat)
    requires f < |runs| && Completes(runs, f) && runs[f].aborted
    ensures Chain(runs, |runs|) == Run(Reports(runs, f + 1), Listings(runs, f + 1), Requests(runs, f + 1), Sleeps(runs, f + 1), true)
  {
    ChainCompleted(runs, f);
    RunsSnoc(runs, f);
    ChainStaysAborted(runs, f + 1, |runs|);
  }

  /** The chain ends the process exactly when one of its stretches does. */
  lemma ChainAborts(runs: seq<Run>)
    ensures Chain(runs, |runs|).aborted <==> !Completes(runs, |runs|)
  {
    if Completes(runs, |runs|) {
      ChainCompleted(runs, |runs|);
    } else {
      var f := FirstAbort(runs, |runs|);
      ChainStopsAt(runs, f);
    }
  }

  /** The report is only appended to: what the first `k` stretches wrote stays at its head. */
  lemma {:induction false} ReportAppendOnly(runs: seq<Run>, k: nat, m: nat)
    requires k <= m <= |runs|
    ensures Chain(runs, k).report <= Chain(runs, m).report
    decreases m
  {
    if k < m {
      ReportAppendOnly(runs, k, m - 1);
    }
  }
}
