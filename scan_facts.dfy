/**
 * What the scan loop of `main` does, stated element by element: which report
 * lines each account and each repository contributes, which wiki pages are
 * requested, how many 15-second sleeps are taken, and when the process ends.
 */
module ScanFacts {
  import opened Wrappers
  import opened Seqs
  import opened Text
  import opened Repos
  import opened Runs
  import opened Audit

  lemma FindingsSnoc(repos: seq<string>, probes: seq<Probe>, n: nat)
    requires n < |repos|
    ensures Findings(repos, probes, n + 1) == Findings(repos, probes, n) + FindingOf(repos[n], ProbeOf(probes, n))
    ensures WikiUrls(repos, n + 1) == WikiUrls(repos, n) + [repos[n] + WikiNewPath]
    ensures Throttles(probes, n + 1) == Throttles(probes, n) + if Throttled(ProbeOf(probes, n)) then 1 else 0
  {
    var xss := seq(n, k requires 0 <= k < n => FindingOf(repos[k], ProbeOf(probes, k)));
    assert seq(n + 1, k requires 0 <= k < n + 1 => FindingOf(repos[k], ProbeOf(probes, k))) == xss + [FindingOf(repos[n], ProbeOf(probes, n))];
    FlattenSnoc(xss, FindingOf(repos[n], ProbeOf(probes, n)));
    var bs := seq(n, k requires 0 <= k < n => Throttled(ProbeOf(probes, k)));
    assert seq(n + 1, k requires 0 <= k < n + 1 => Throttled(ProbeOf(probes, k))) == bs + [Throttled(ProbeOf(probes, n))];
    CountSnoc(bs, Throttled(ProbeOf(probes, n)));
  }

  /**
   * While every request is answered, the repository loop writes the line of each
   * flagged repository in list order, requests every wiki page once in list
   * order, and sleeps once per 429.
   */
  lemma {:induction false} ProbeLoopAnswered(repos: seq<string>, probes: seq<Probe>, n: nat)
    requires n <= |repos| && AnsweredUpTo(probes, n)
    ensures Chain(ProbeSteps(repos, probes), n) == Run(Findings(repos, probes, n), [], WikiUrls(repos, n), Throttles(probes, n), false)
  {
    if n > 0 {
      ProbeLoopAnswered(repos, probes, n - 1);
      FindingsSnoc(repos, probes, n - 1);
    }
  }

  lemma ProbeLoopFails(repos: seq<string>, probes: seq<Probe>, f: nat)
    requires f < |repos| && AnsweredUpTo(probes, f) && ProbeOf(probes, f).Failed?
    ensures Chain(ProbeSteps(repos, probes), f + 1) == Run(Findings(repos, probes, f), [], WikiUrls(repos, f + 1), Throttles(probes, f + 1), true)
  {
    ProbeLoopAnswered(repos, probes, f);
    FindingsSnoc(repos, probes, f);
  }

  /**
   * At the first failed request the loop ends the process: the lines of the
   * repositories before it stand, its own page was requested, the sleeps taken
   * include its own when it was answered with a 429, and no later repository is
   * probed.
   */
  lemma ProbeLoopFailsAt(repos: seq<string>, probes: seq<Probe>, f: nat)
    requires f < |repos| && AnsweredUpTo(probes, f) && ProbeOf(probes, f).Failed?
    ensures Chain(ProbeSteps(repos, probes), |repos|) == Run(Findings(repos, probes, f), [], WikiUrls(repos, f + 1), Throttles(probes, f + 1), true)
  {
    ProbeLoopFails(repos, probes, f);
    ChainEndsWith(ProbeSteps(repos, probes), f, Run(Findings(repos, probes, f), [], WikiUrls(repos, f + 1), Throttles(probes, f + 1), true));
  }

  /** The repository loop ends the process exactly when one of its requests fails. */
  lemma {:induction false} ProbeLoopAborts(repos: seq<string>, probes: seq<Probe>, n: nat)
    requires n <= |repos|
    ensures Chain(ProbeSteps(repos, probes), n).aborted <==> !AnsweredUpTo(probes, n)
  {
    if n > 0 {
      ProbeLoopAborts(repos, probes, n - 1);
      if !AnsweredUpTo(probes, n - 1) {
        ChainStaysAborted(ProbeSteps(repos, probes), n - 1, n);
      }
    }
  }

  /** One report line per flagged repository: at most one line per probe, and a line exactly for a public wiki. */
  lemma FindingsCount(repos: seq<string>, probes: seq<Probe>, n: nat)
    requires n <= |repos|
    ensures |Findings(repos, probes, n)| == Publics(probes, n)
  {
    var xss := seq(n, k requires 0 <= k < n => FindingOf(repos[k], ProbeOf(probes, k)));
    FlattenAtMostOne(xss);
    assert seq(|xss|, k requires 0 <= k < |xss| => |xss[k]| == 1) == seq(n, k requires 0 <= k < n => Public(ProbeOf(probes, k)));
  }

  /** The report line of repository `k`, when flagged, follows the lines of the repositories before it. */
  lemma FindingAt(repos: seq<string>, probes: seq<Probe>, k: nat)
    requires k < |repos| && Public(ProbeOf(probes, k))
    ensures |Findings(repos, probes, k)| < |Findings(repos, probes, |repos|)|
    ensures Findings(repos, probes, |repos|)[|Findings(repos, probes, k)|] == FoundLine(repos[k])
  {
    var n := |repos|;
    var xss := seq(n, j requires 0 <= j < n => FindingOf(repos[j], ProbeOf(probes, j)));
    assert xss[..k] == seq(k, j requires 0 <= j < k => FindingOf(repos[j], ProbeOf(probes, j)));
    FlattenAt(xss, k, 0);
  }

  /** A title holding "Create New Page" anywhere flags the repository, whatever the status, 429 included. */
  lemma MarkerFlags(status: int, before: string, after: string)
    ensures Public(Answered(status, Some(before + PublicMarker + after)))
  {
    var t := before + PublicMarker + after;
    assert t[|before|..|before| + |PublicMarker|] == PublicMarker;
    assert OccursAt(t, PublicMarker, |before|);
  }

  /** A title without the letter the marker starts with cannot contain the marker. */
  lemma NoMarkerLetter(title: string)
    requires PublicMarker[0] !in title
    ensures !Flags(Some(title))
  {
    forall j: nat | OccursAt(title, PublicMarker, j)
      ensures false
    {
    }
  }

  /** A sign-in page, titled "Sign in to GitHub · GitHub", is not flagged. */
  lemma SignInPageNotFlagged()
    ensures !Public(Answered(200, Some("Sign in to GitHub \U{00B7} GitHub")))
  {
    NoMarkerLetter("Sign in to GitHub \U{00B7} GitHub");
  }

  /**
   * A 429 answer is not re-requested: the repository costs one request and one
   * sleep, and its line is decided by the 429 answer's own title.
   */
  lemma ThrottledProbe(repo: string, title: Option<string>)
    ensures var step := ProbeStep(repo, Answered(TooManyRequests, title));
      step.probed == [repo + WikiNewPath] && step.sleeps == 1 && !step.aborted
      && (step.report == [FoundLine(repo)] <==> Flags(title))
      && (step.report == [] <==> !Flags(title))
  {
  }

  /** A 429 answer whose body the HTML parser rejects still costs its sleep before the process ends. */
  lemma ThrottledUnparsed(repo: string)
    ensures ProbeStep(repo, Failed(Some(TooManyRequests))) == Run([], [], [repo + WikiNewPath], 1, true)
  {
  }

  // The effect of one account, and of the account loop, element by element.

  /** An account ends the process exactly when its enumeration fails or one of its probe requests fails. */
  lemma SectionAborts(a: AccountScan)
    ensures Section(a).aborted <==>
      Enumerate(a.server).Aborted? || !AnsweredUpTo(a.probes, |Enumerate(a.server).urls|)
  {
    if Enumerate(a.server).Listed? {
      var repos := Enumerate(a.server).urls;
      ProbeLoopAborts(repos, a.probes, |repos|);
    }
  }

  /**
   * A listed account whose probes are all answered writes its header, carrying
   * the number of repositories, then exactly the lines of its flagged
   * repositories in list order.
   */
  lemma SectionReport(a: AccountScan)
    requires Enumerate(a.server).Listed?
    requires AnsweredUpTo(a.probes, |Enumerate(a.server).urls|)
    ensures var repos := Enumerate(a.server).urls;
      Section(a) == Run(HeaderLines(a.handle, |repos|) + Findings(repos, a.probes, |repos|), [a.handle], WikiUrls(repos, |repos|), Throttles(a.probes, |repos|), false)
  {
    var repos := Enumerate(a.server).urls;
    ProbeLoopAnswered(repos, a.probes, |repos|);
  }

  /** The header of a listed account counts every entry of every fetched page, an account without repositories included. */
  lemma SectionHeader(a: AccountScan, pages: seq<Page>)
    requires FetchedFrom(a.server, 0) == Some(pages) && Enumerate(a.server).Listed?
    ensures |Section(a).report| >= 2
    ensures Section(a).report[..2] == HeaderLines(a.handle, |AllEntries(pages)|)
  {
    var repos := Enumerate(a.server).urls;
    assert |repos| == |AllEntries(pages)|;
    assert Section(a).report == HeaderLines(a.handle, |repos|) + Chain(ProbeSteps(repos, a.probes), |repos|).report;
  }

  /** The repository loop requests no listing. */
  lemma {:induction false} ProbeLoopListsNothing(repos: seq<string>, probes: seq<Probe>, n: nat)
    requires n <= |repos|
    ensures Chain(ProbeSteps(repos, probes), n).listed == []
  {
    if n > 0 {
      ProbeLoopListsNothing(repos, probes, n - 1);
    }
  }

  /** An account's iteration requests its own listing and no other, whether it completes or ends the process. */
  lemma SectionListed(a: AccountScan)
    ensures Section(a).listed == [a.handle]
  {
    if Enumerate(a.server).Listed? {
      ProbeLoopListsNothing(Enumerate(a.server).urls, a.probes, |Enumerate(a.server).urls|);
    }
  }

  /** Every account the loop reaches has its repository listing requested once, in input order, whether or not it then ends the process. */
  lemma {:induction false} SectionsListed(scans: seq<AccountScan>, n: nat)
    requires n <= |scans|
    ensures Listings(Sections(scans), n) == AccountHandles(scans, n)
  {
    if n > 0 {
      SectionsListed(scans, n - 1);
      RunsSnoc(Sections(scans), n - 1);
      SectionListed(scans[n - 1]);
      assert AccountHandles(scans, n) == AccountHandles(scans, n - 1) + [scans[n - 1].handle];
    }
  }

  /** A scan in which no account ends the process writes the date line, then every account's lines in input order. */
  lemma ScanCompletes(date: string, scans: seq<AccountScan>)
    requires forall i :: 0 <= i < |scans| ==> !Section(scans[i]).aborted
    ensures var sections := Sections(scans);
      Scanned(date, scans) == Run([DateLine(date)] + Reports(sections, |scans|), AccountHandles(scans, |scans|), Requests(sections, |scans|), Sleeps(sections, |scans|), false)
  {
    var sections := Sections(scans);
    ChainCompleted(sections, |scans|);
    SectionsListed(scans, |scans|);
    assert [] + Listings(sections, |scans|) == Listings(sections, |scans|);
    assert [] + Requests(sections, |scans|) == Requests(sections, |scans|);
  }

  /**
   * The first account that ends the process ends the scan: the report keeps the
   * date line and every line written up to that point, the listings requested
   * are those of the accounts up to and including it, and no later account is
   * enumerated or probed.
   */
  lemma ScanStopsAt(date: string, scans: seq<AccountScan>, f: nat)
    requires f < |scans| && Section(scans[f]).aborted
    requires forall i :: 0 <= i < f ==> !Section(scans[i]).aborted
    ensures var sections := Sections(scans);
      Scanned(date, scans) == Run([DateLine(date)] + Reports(sections, f + 1), AccountHandles(scans, f + 1), Requests(sections, f + 1), Sleeps(sections, f + 1), true)
  {
    var sections := Sections(scans);
    ChainStopsAt(sections, f);
    SectionsListed(scans, f + 1);
    assert [] + Listings(sections, f + 1) == Listings(sections, f + 1);
    assert [] + Requests(sections, f + 1) == Requests(sections, f + 1);
  }

  /** The scan ends with exit status 1 exactly when some account ends the process. */
  lemma ScanAborts(date: string, scans: seq<AccountScan>)
    ensures Scanned(date, scans).aborted <==> exists i :: 0 <= i < |scans| && Section(scans[i]).aborted
  {
    var sections := Sections(scans);
    ChainAborts(sections);
    assert forall i :: 0 <= i < |scans| ==> sections[i] == Section(scans[i]);
    if !Completes(sections, |scans|) {
      var i :| 0 <= i < |scans| && sections[i].aborted;
      assert Section(scans[i]).aborted;
    }
  }

  /** The report file is only appended to: what the first `k` accounts wrote stays at the head of the final report. */
  lemma ScanAppendOnly(date: string, scans: seq<AccountScan>, k: nat)
    requires k <= |scans|
    ensures Run([DateLine(date)], [], [], 0, false).Then(Chain(Sections(scans), k)).report <= Scanned(date, scans).report
  {
    ReportAppendOnly(Sections(scans), k, |scans|);
  }

  /** The report opens with the date line. */
  lemma ScanDateFirst(date: string, scans: seq<AccountScan>)
    ensures |Scanned(date, scans).report| >= 1 && Scanned(date, scans).report[0] == "Date: " + date
  {
  }
}
