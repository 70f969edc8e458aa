# GitHub Wiki Auditor, modelled in Dafny

The auditor reads a file of GitHub profile URLs and turns each line into an
account handle. For every account it pages through the repository listing API
and collects each repository's `html_url`. It then requests
`<repo>/wiki/_new` for every repository. A repository whose page title contains
`Create New Page` has a wiki that anyone can create, and it is written to the
report `publicwiki.txt`. The report opens with a `Date:` line. Each account gets
a header with its repository count, then one indented line per flagged
repository. A failed listing or a failed probe request ends the whole run with
exit status 1.

This project models the three computations under the HTTP and file plumbing.
Network answers, the file text and the date are inputs:

- `Accounts` (`accounts.dfy`): `getAccounts` on the file's text. Lines are
  split on `'\n'` the way Python's `str.splitlines` does, so a final newline
  adds no empty line. Each line is stripped with Python's full `str.isspace`
  set, and the handle is the text after the first `https://github.com/`. The
  first line without that prefix, an empty line included, makes the parse fail.
- `Repos` (`repos.dfy`): `getRepo` against a scripted server. Each answer is a
  page (entries, a `next` flag, and `ok`, the truth value of the response) or
  an exception. More pages are requested only while the latest page is `ok`
  and has `next`. The entries of all pages are concatenated, and then each
  entry's `html_url` is taken. Any exception, or an entry without `html_url`,
  gives `Aborted`, which stands for `sys.exit(1)`.
- `Audit` (`audit.dfy`) and `ScanFacts` (`scan_facts.dfy`): the loop in `main`.
  The report file is an in-memory buffer of lines. The model also records the
  accounts whose repository listing was requested, the wiki URLs requested,
  the 15-second sleeps taken, and whether the process ended with exit status 1.
- `Runs` (`runs.dfy`): the effect of a stretch of the scan, and how the effects
  of loop iterations combine. Once an iteration ends the process, nothing later
  happens.
- `Text` (`text.dfy`): the Python string built-ins the script uses: `strip()`,
  `in`, `split(sep, 1)`, `splitlines()` and `str(int)`.
  `Seqs` (`seqs.dfy`) and `Wrappers` (`wrappers.dfy`) are small helpers.

The methods `GetAccounts`, `GetRepo`, `ProbeRepos` and `Scan` keep the
source's loops, and `ScanAccount` is the body of the account loop.
`GetAccounts` is specified element by element: one handle per line, or the
first line without one. The others are proved equal to a specification
function (`Enumerate`, a chain of `ProbeStep`s, `Section`, `Scanned`). The
lemmas then state what the source promises in terms of those functions.

## Model

| member | source | states |
|---|---|---|
| `Accounts.Handle` | github-wiki-auditor.py:105 | Definition: the handle of a line is the text after the first `https://github.com/` in the stripped line, and None where `split(...)[1]` raises an IndexError. |
| `Accounts.GetAccounts` | github-wiki-auditor.py:99-109 | The parse succeeds iff every line has a handle. On success it gives exactly one handle per line, in file order, each the handle of its line. On failure it reports the first line without the prefix, and every line before it has a handle. |
| `Accounts.HandleSpec` | github-wiki-auditor.py:105 | A line has a handle iff its stripped text contains `https://github.com/`. The stripped line is then the text before the first occurrence, the prefix, and the handle, and no earlier occurrence exists. |
| `Accounts.BlankLineFails` | github-wiki-auditor.py:105 | An empty or all-whitespace line has no handle, so it fails the parse instead of being skipped. |
| `Accounts.ProfileUrlRoundTrip` | github-wiki-auditor.py:105 | A profile URL built from a handle, with any whitespace around it, yields that handle back. |
| `Accounts.ParsedLinesNonEmpty` | github-wiki-auditor.py:101-105 | In a file that parses, every line is non-empty, so the number of handles equals the number of non-empty lines. |
| `Text.Strip` | github-wiki-auditor.py:105 | Definition of `str.strip()`: drop the leading and then the trailing characters that Python's `str.isspace` accepts. |
| `Text.AfterFirst` | github-wiki-auditor.py:105 | Definition of `split(sep, 1)[1]`: the text after the first occurrence of `sep`, and None when `sep` does not occur. |
| `Text.Decimal` | github-wiki-auditor.py:37 | `str(n)` for the repository count: at least one digit, all decimal digits, and a leading `0` only for 0. |
| `Text.SplitJoin` | github-wiki-auditor.py:101 | `splitlines` undoes joining lines with `'\n'` terminators, so a final newline adds no extra empty line. |
| `Text.JoinSplit` | github-wiki-auditor.py:101 | Joining the lines of a text gives the text back, with a final `'\n'` added only when the last line lacked one. |
| `Text.SplitLines` | github-wiki-auditor.py:101 | No line returned by `splitlines` holds a `'\n'`. |
| `Text.StripPiece` | github-wiki-auditor.py:105 | `strip()` keeps a contiguous piece of the line that neither starts nor ends with whitespace, and everything it drops is whitespace at the two ends. |
| `Text.StripUnique` | github-wiki-auditor.py:105 | Whitespace around a word that neither starts nor ends with whitespace is exactly what `strip()` removes. |
| `Text.StripIdempotent` | github-wiki-auditor.py:105 | Stripping twice is stripping once. |
| `Text.AfterFirstSpec` | github-wiki-auditor.py:105 | `split(sep, 1)` has a second piece iff `sep` occurs. That piece is the whole rest of the string after the first occurrence. |
| `Text.IndexFromSpec` | github-wiki-auditor.py:105 | The search finds the first occurrence at or after its start index, and finds nothing only when there is none. |
| `Text.DecimalRoundTrip` | github-wiki-auditor.py:37 | The repository count written with `str()` reads back as the same number. |
| `Repos.Enumerate` | github-wiki-auditor.py:69-97 | Definition of `getRepo` against scripted answers: the pages `FetchedFrom` requests, their entries concatenated, each entry's `html_url` taken; `Aborted` (exit status 1) when a request fails or an entry has no `html_url`. |
| `Repos.GetRepo` | github-wiki-auditor.py:69-97 | The pagination loop and the projection loop together compute `Enumerate` of the scripted server. |
| `Repos.FetchedFrom` | github-wiki-auditor.py:73-82 | The requested pages are consecutive server answers. Every page but the last is `ok` with a `next` link, and the last one is not. |
| `Repos.FetchedWhenStops` | github-wiki-auditor.py:77-82 | When the answers continue up to a page that stops, exactly those pages are fetched, one request per `next` link. |
| `Repos.FetchedFails` | github-wiki-auditor.py:72-82 | Fetching the pages (`FetchedFrom`) fails iff some request before the stopping page raises or finds no answer. |
| `Repos.EnumerateAborts` | github-wiki-auditor.py:72-95 | `getRepo` ends the process iff fetching the pages fails or some entry of the fetched pages has no `html_url` (the KeyError at :88). |
| `Repos.ListingLength` | github-wiki-auditor.py:84-89 | A listing has exactly one URL per entry of the fetched pages, zero entries included. |
| `Repos.ListingOrder` | github-wiki-auditor.py:80-89 | A listing has one URL per entry. Entry j of page i sits right after all entries of the earlier pages: page order first, then entry order, with nothing dropped or merged. |
| `Repos.MissingUrlAborts` | github-wiki-auditor.py:88-95 | An entry without `html_url` on any fetched page aborts the run, and no partial list is returned. |
| `Repos.EnumerateIgnoresLater` | github-wiki-auditor.py:77-82 | Answers after the stopping page are never requested and cannot change the result. |
| `Repos.TwoPages` | github-wiki-auditor.py:77-89 | A first page with `next` and a second page without it give the two pages' URLs concatenated in order. |
| `Audit.DateLine` | github-wiki-auditor.py:33 | Definition of the report's first line: `Date: ` followed by the date. |
| `Audit.HeaderLines` | github-wiki-auditor.py:37 | Definition of an account's header: `GitHub account <handle> [<count>] repositories.`, then ` \t Public wiki found: `, as two lines. |
| `Audit.FoundLine` | github-wiki-auditor.py:56 | Definition of a flagged repository's line: two tabs and a space, then its URL. |
| `Audit.Flags` | github-wiki-auditor.py:52-58 | Definition of the title check: the title exists and contains `Create New Page`; a missing title is caught and leaves the repository unflagged. |
| `Audit.ProbeStep` | github-wiki-auditor.py:40-58 | Definition of one repository iteration: one wiki request, a sleep when the status is 429 (also when the body then fails to parse), then the end of the process on a failed request, or else the repository's line when its title is flagged. |
| `Audit.Section` | github-wiki-auditor.py:35-64 | Definition of one account iteration: its listing is requested; a failed enumeration ends the process; otherwise the header, then the repository iterations chained. |
| `Audit.Scanned` | github-wiki-auditor.py:33-64 | Definition of the whole scan: the date line, then the account iterations chained, stopping at the first that ends the process. |
| `Audit.ProbeRepos` | github-wiki-auditor.py:40-64 | The repository loop, on an in-memory report buffer, has exactly the effect of its iterations chained. |
| `Audit.ScanAccount` | github-wiki-auditor.py:35-64 | One account iteration equals the buffer before it followed by the account's `Section`: enumeration, header, then probes. |
| `Audit.Scan` | github-wiki-auditor.py:33-64 | The whole scan loop computes `Scanned(date, scans)`. |
| `ScanFacts.ProbeLoopAnswered` | github-wiki-auditor.py:40-58 | While every request is answered, the loop writes the lines of the flagged repositories in list order. It requests each wiki page once, in list order, and sleeps once per 429. |
| `ScanFacts.ProbeLoopFailsAt` | github-wiki-auditor.py:40-64 | At the first failed request the process ends. The lines before it stand, its own page was requested, its own sleep is taken when its status was 429, and no later repository is probed. |
| `ScanFacts.ProbeLoopAborts` | github-wiki-auditor.py:39-64 | The repository loop ends the process iff one of its requests fails. |
| `ScanFacts.FindingsCount` | github-wiki-auditor.py:52-56 | The number of lines listed is the number of probes whose title contains `Create New Page`. |
| `ScanFacts.FindingAt` | github-wiki-auditor.py:54-56 | A flagged repository's line comes right after the lines of the flagged repositories before it in the list. |
| `ScanFacts.MarkerFlags` | github-wiki-auditor.py:44-56 | A title containing `Create New Page` anywhere flags the repository, whatever the status code, 429 included. |
| `ScanFacts.NoMarkerLetter` | github-wiki-auditor.py:54 | A title without a `C` cannot be flagged. |
| `ScanFacts.SignInPageNotFlagged` | github-wiki-auditor.py:54 | The sign-in page title `Sign in to GitHub · GitHub` is not flagged. |
| `ScanFacts.ThrottledUnparsed` | github-wiki-auditor.py:44-48 | A 429 answer whose body the HTML parser rejects still costs its sleep, and then the process ends. |
| `ScanFacts.ThrottledProbe` | github-wiki-auditor.py:44-56 | A 429 answer costs one request and one sleep and is not re-requested. Its line is decided by the 429 answer's own title. |
| `ScanFacts.SectionAborts` | github-wiki-auditor.py:36-64 | An account ends the process iff its enumeration fails or one of its probe requests fails. |
| `ScanFacts.SectionListed` | github-wiki-auditor.py:36 | An account's iteration requests its own listing and no other, whether or not it ends the process. |
| `ScanFacts.SectionReport` | github-wiki-auditor.py:36-58 | A completed account requests its own listing, writes its header, carrying its repository count, then exactly the lines of its flagged repositories in list order. |
| `ScanFacts.SectionHeader` | github-wiki-auditor.py:37 | The header's count is the total number of entries over all fetched pages, and 0 for an account without repositories. |
| `ScanFacts.SectionsListed` | github-wiki-auditor.py:34-36 | The listings requested by the first n account iterations are those of the first n accounts, once each, in input order. |
| `ScanFacts.ScanCompletes` | github-wiki-auditor.py:33-58 | A scan in which no account ends the process writes the date line, then every account's lines in input order, and requests every account's listing once, in input order. |
| `ScanFacts.ScanStopsAt` | github-wiki-auditor.py:34-64 | The first account that ends the process ends the scan. Everything written up to then stays. The listings requested are exactly those of the accounts up to and including it, so no later account is enumerated, and no later account's wiki pages are probed. |
| `ScanFacts.ScanAborts` | github-wiki-auditor.py:34-64 | The run exits with status 1 iff some account's iteration ends the process. |
| `ScanFacts.ScanAppendOnly` | github-wiki-auditor.py:33-56 | The report is only appended to: what the first k accounts wrote stays at the head of the final report. |
| `ScanFacts.ScanDateFirst` | github-wiki-auditor.py:33 | The report's first line is `Date: ` followed by the date. |

## Left out

- Command-line parsing, the `os.path.isfile` check and the password prompt (github-wiki-auditor.py:13-25) are terminal I/O. The file's text is an input.
- `login` (github-wiki-auditor.py:111-129) is HTML form scraping plus an HTTP POST, and is not part of this model. The scan starts after a successful login.
- A listing request is recorded by the account it belongs to, not page by page. The URLs of the listing pages and the number of pages requested for an account are not part of the recorded effect; `Repos.FetchedFrom` states which answers are consumed.
- Every listing and wiki request is replaced by scripted answers. A request beyond the scripted answers counts as a failed request.
- The rate-limit lookup made before `sys.exit(1)` (github-wiki-auditor.py:61-63, 92-94) is not modelled; its result is only printed. An exception inside that handler would still end the run with exit status 1, so the recorded effect of an abort is the same either way.
- JSON decoding and HTML parsing are foreign calls. A page is given as its decoded entries. An entry is given as its `html_url` or as missing it. A probe is given as its status code and its title, where `None` covers both a missing `<title>` and a `.string` of `None`. A body that is not a JSON list is modelled as an exception on that request. HTML that the parser rejects is a failed probe that keeps its status, so a 429 still costs its sleep first.
- `Text.SplitLines` splits on `'\n'` only. Python's `splitlines` also splits on `'\r'`, `'\r\n'` and the other Unicode line boundaries. For `'\r\n'` files the handles come out the same, because `strip()` removes the `'\r'`.
- `time.sleep(15)` is recorded as a count of sleeps. The date from `datetime.today()` is an input string.
- Console output from `print` is not modelled. The report file is a buffer of lines, and its opening, truncation and closing are not modelled. On an abort the model keeps the lines written so far.
