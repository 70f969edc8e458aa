/**
 * The scan loop of `main`: write the date line, then for every account
 * enumerate its repositories, write the account's header and probe each
 * repository's `/wiki/_new` page, writing one line per repository whose page
 * title contains "Create New Page". A 429 answer costs a 15-second sleep and
 * is then judged by its own title. A failed enumeration or a failed probe
 * request ends the process with exit status 1, leaving the lines written so far.
 */
module Audit {
  import opened Wrappers
  import opened Seqs
  import opened Text
  import opened Repos
  import opened Runs

  const TooManyRequests := 429
  const PublicMarker := "Create New Page"
  const WikiNewPath := "/wiki/_new"

  /**
   * The answer to one wiki probe. `Answered` carries the status and the page
   * title, None when the page has no `<title>` or its `.string` is None.
   * `Failed` is a request that raised (`received` is None) or an answer whose
   * body the HTML parser rejected (`received` is its status).
   */
  datatype Probe = Answered(status: int, title: Option<string>) | Failed(received: Option<int>)

  /** What the scan is given for one account: its handle, its listing server and its probe answers, in request order. */
  datatype AccountScan = AccountScan(handle: string, server: seq<Fetch>, probes: seq<Probe>)

  /** The probe answer used for the `j`th repository; a request beyond the scripted answers fails. */
  function ProbeOf(probes: seq<Probe>, j: nat): Probe
  {
    if j < |probes| then probes[j] else Failed(None)
  }

  /** `"Create New Page" in wikiTitle`, with a missing title caught and left unflagged. */
  predicate Flags(title: Option<string>)
  {
    title.Some? && Contains(title.value, PublicMarker)
  }

  function FoundLine(repo: string): string
  {
    "\t\t " + repo
  }

  /** The lines of the header write: the account, its repository count, and the findings heading. */
  function HeaderLines(handle: string, count: nat): seq<string>
  {
    ["GitHub account " + handle + " [" + Decimal(count) + "] repositories.", " \t Public wiki found: "]
  }

  /** The answer marks a publicly creatable wiki. */
  predicate Public(probe: Probe)
  {
    probe.Answered? && Flags(probe.title)
  }

  /** The report lines a probe answer adds; a failed request adds none. */
  function FindingOf(repo: string, probe: Probe): seq<string>
  {
    if Public(probe) then [FoundLine(repo)] else []
  }

  /** The answer makes the probe sleep: status 429, checked before the body is parsed. */
  predicate Throttled(probe: Probe)
  {
    match probe
    case Answered(status, _) => status == TooManyRequests
    case Failed(received) => received == Some(TooManyRequests)
  }

  /** One iteration of the repository loop: one request, the sleep after a 429, then either the abort or the title check. */
  function ProbeStep(repo: string, probe: Probe): Run
  {
    Run(FindingOf(repo, probe), [], [repo + WikiNewPath], if Throttled(probe) then 1 else 0, probe.Failed?)
  }

  /** The iterations of the repository loop, one per repository, each with its own answer. */
  function ProbeSteps(repos: seq<string>, probes: seq<Probe>): (steps: seq<Run>)
    ensures |steps| == |repos|
  {
    seq(|repos|, j requires 0 <= j < |repos| => ProbeStep(repos[j], ProbeOf(probes, j)))
  }

  /** One account: enumerate, write the header, probe every repository. */
  function Section(a: AccountScan): Run
  {
    match Enumerate(a.server)
    case Aborted => Run([], [a.handle], [], 0, true)
    case Listed(repos) => Run(HeaderLines(a.handle, |repos|), [a.handle], [], 0, false).Then(Chain(ProbeSteps(repos, a.probes), |repos|))
  }

  /** The iterations of the account loop, one per account, in input order. */
  function Sections(scans: seq<AccountScan>): (sections: seq<Run>)
    ensures |sections| == |scans|
  {
    seq(|scans|, i requires 0 <= i < |scans| => Section(scans[i]))
  }

  function DateLine(date: string): string
  {
    "Date: " + date
  }

  /** The whole scan: the date line, then the account loop. */
  function Scanned(date: string, scans: seq<AccountScan>): Run
  {
    Run([DateLine(date)], [], [], 0, false).Then(Chain(Sections(scans), |scans|))
  }

  /**
   * The repository loop of `main` for one account, appending to the report
   * buffer `report0`: one request per repository, a sleep after each 429, a
   * line for each flagged repository, and an abort at the first failed request.
   */
  method ProbeRepos(repos: seq<string>, probes: seq<Probe>, report0: seq<string>, listed0: seq<string>, probed0: seq<string>, sleeps0: nat)
    returns (run: Run)
    ensures run == Run(report0, listed0, probed0, sleeps0, false).Then(Chain(ProbeSteps(repos, probes), |repos|))
  {
    ghost var start := Run(report0, listed0, probed0, sleeps0, false);
    ghost var steps := ProbeSteps(repos, probes);
    var report, probed, sleeps := report0, probed0, sleeps0;
    for j := 0 to |repos|
      invariant !Chain(steps, j).aborted
      invariant Run(report, listed0, probed, sleeps, false) == start.Then(Chain(steps, j))
    {
      ChainStep(start, steps, j);
      var url := repos[j] + WikiNewPath;
      probed := probed + [url];
      var response := ProbeOf(probes, j);
      if Throttled(response) {
        sleeps := sleeps + 1;
      }
      if response.Failed? {
        return Run(report, listed0, probed, sleeps, true);
      }
      if Flags(response.title) {
        report := report + [FoundLine(repos[j])];
      }
    }
    return Run(report, listed0, probed, sleeps, false);
  }

  /** One iteration of the account loop of `main`, appending to the report buffer `report0`. */
  method ScanAccount(a: AccountScan, report0: seq<string>, listed0: seq<string>, probed0: seq<string>, sleeps0: nat) returns (run: Run)
    ensures run == Run(report0, listed0, probed0, sleeps0, false).Then(Section(a))
  {
    var listed := listed0 + [a.handle];
    var listing := GetRepo(a.server);
    if listing.Aborted? {
      return Run(report0, listed, probed0, sleeps0, true);
    }
    var repos := listing.urls;
    ghost var before := Run(report0, listed0, probed0, sleeps0, false);
    ghost var header := Run(HeaderLines(a.handle, |repos|), [a.handle], [], 0, false);
    ThenAssoc(before, header, Chain(ProbeSteps(repos, a.probes), |repos|));
    assert before.Then(header) == Run(report0 + HeaderLines(a.handle, |repos|), listed, probed0, sleeps0, false);
    var report := report0 + HeaderLines(a.handle, |repos|);
    run := ProbeRepos(repos, a.probes, report, listed, probed0, sleeps0);
  }

  /** The scan loop of `main`, with the report file as a buffer of lines. */
  method Scan(date: string, scans: seq<AccountScan>) returns (run: Run)
    ensures run == Scanned(date, scans)
  {
    ghost var start := Run([DateLine(date)], [], [], 0, false);
    ghost var sections := Sections(scans);
    var report, listed, probed, sleeps := [DateLine(date)], [], [], 0;
    for i := 0 to |scans|
      invariant !Chain(sections, i).aborted
      invariant Run(report, listed, probed, sleeps, false) == start.Then(Chain(sections, i))
    {
      run := ScanAccount(scans[i], report, listed, probed, sleeps);
      ChainStep(start, sections, i);
      if run.aborted {
        return;
      }
      report, listed, probed, sleeps := run.report, run.listed, run.probed, run.sleeps;
    }
    return Run(report, listed, probed, sleeps, false);
  }

  // Reference definitions of the repository loop's effect, element by element.

  /** The lines the first `n` answers contribute, repository by repository. */
  function Findings(repos: seq<string>, probes: seq<Probe>, n: nat): seq<string>
    requires n <= |repos|
  {
    Flatten(seq(n, k requires 0 <= k < n => FindingOf(repos[k], ProbeOf(probes, k))))
  }

  /** The wiki pages of the first `n` repositories. */
  function WikiUrls(repos: seq<string>, n: nat): seq<string>
    requires n <= |repos|
  {
    seq(n, k requires 0 <= k < n => repos[k] + WikiNewPath)
  }

  /** The handles of the first `n` accounts, in input order. */
  function AccountHandles(scans: seq<AccountScan>, n: nat): seq<string>
    requires n <= |scans|
  {
    seq(n, i requires 0 <= i < n => scans[i].handle)
  }

  /** How many of the first `n` answers are 429s. */
  function Throttles(probes: seq<Probe>, n: nat): nat
  {
    Count(seq(n, k requires 0 <= k < n => Throttled(ProbeOf(probes, k))))
  }

  /** How many of the first `n` answers mark a public wiki. */
  function Publics(probes: seq<Probe>, n: nat): nat
  {
    Count(seq(n, k requires 0 <= k < n => Public(ProbeOf(probes, k))))
  }

  /** None of the first `n` probe requests failed. */
  predicate AnsweredUpTo(probes: seq<Probe>, n: nat)
  {
    forall k :: 0 <= k < n ==> ProbeOf(probes, k).Answered?
  }
}
