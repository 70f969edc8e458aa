/**
 * The repository enumerator (`getRepo`): fetch the first page of an account's
 * repository listing, follow `next` links while the latest response is truthy,
 * concatenate the pages' JSON entries, then project each entry's `html_url`.
 * Any exception aborts the whole run (exit status 1) and returns nothing.
 */
module Repos {
  import opened Wrappers
  import opened Seqs

  /** One JSON object of a listing page; `htmlUrl` is None when the object has no "html_url" key. */
  datatype Entry = Entry(htmlUrl: Option<string>)

  /**
   * One fetched page: its decoded entries, whether its Link header has a
   * `next` relation, and `ok`, the truth value of the response (status below 400).
   */
  datatype Page = Page(entries: seq<Entry>, hasNext: bool, ok: bool)

  /** The server's answer to one request: a page, or an exception from the request or from decoding its body. */
  datatype Fetch = Fetched(page: Page) | Raised

  /** What `getRepo` hands back: the repository URLs, or the exit that ends the process. */
  datatype Listing = Listed(urls: seq<string>) | Aborted

  /** After this page the loop requests another one. */
  predicate Continues(p: Page)
  {
    p.ok && p.hasNext
  }

  /**
   * The pages requested when the first request is answered by `server[i]`, the
   * second by `server[i + 1]`, and so on; None when a request raises or when
   * the server has no answer left for a request.
   */
  function FetchedFrom(server: seq<Fetch>, i: nat): (r: Option<seq<Page>>)
    ensures r.Some? ==> 1 <= |r.value| && i + |r.value| <= |server|
    ensures r.Some? ==> forall k :: 0 <= k < |r.value| ==> server[i + k] == Fetched(r.value[k])
    ensures r.Some? ==> forall k :: 0 <= k < |r.value| - 1 ==> Continues(r.value[k])
    ensures r.Some? ==> !Continues(r.value[|r.value| - 1])
    decreases |server| - i
  {
    if i >= |server| || server[i].Raised? then None
    else if !Continues(server[i].page) then Some([server[i].page])
    else match FetchedFrom(server, i + 1)
      case None => None
      case Some(rest) => Some([server[i].page] + rest)
  }

  /** The pages of the answers `server[i..n]`. */
  function PagesOf(server: seq<Fetch>, i: nat, n: nat): seq<Page>
    requires i <= n <= |server|
    requires forall k :: i <= k < n ==> server[k].Fetched?
  {
    seq(n - i, k requires 0 <= k < n - i => server[i + k].page)
  }

  /** When the answers from `i` on continue up to one that stops at `n - 1`, exactly those pages are fetched. */
  lemma {:induction false} FetchedWhenStops(server: seq<Fetch>, i: nat, n: nat)
    requires i < n <= |server|
    requires forall k :: i <= k < n ==> server[k].Fetched?
    requires forall k :: i <= k < n - 1 ==> Continues(server[k].page)
    requires !Continues(server[n - 1].page)
    ensures FetchedFrom(server, i) == Some(PagesOf(server, i, n))
    decreases n - i
  {
    if i < n - 1 {
      FetchedWhenStops(server, i + 1, n);
      assert PagesOf(server, i, n) == [server[i].page] + PagesOf(server, i + 1, n);
    } else {
      assert PagesOf(server, i, n) == [server[i].page];
    }
  }

  /** The answers from `i` on continue up to `n`, where a request raises or finds the server out of answers. */
  predicate FailsAt(server: seq<Fetch>, i: nat, n: nat)
  {
    i <= n <= |server|
    && (forall k :: i <= k < n ==> server[k].Fetched? && Continues(server[k].page))
    && (n == |server| || server[n].Raised?)
  }

  /** Fetching the pages fails exactly when some request before the stopping page raises or finds no answer. */
  lemma {:induction false} FetchedFails(server: seq<Fetch>, i: nat)
    requires i <= |server|
    ensures FetchedFrom(server, i).None? <==> exists n :: FailsAt(server, i, n)
    decreases |server| - i
  {
    if i == |server| {
      assert FailsAt(server, i, i);
    } else if server[i].Raised? {
      assert FailsAt(server, i, i);
    } else if !Continues(server[i].page) {
      forall n: nat ensures !FailsAt(server, i, n) {
      }
    } else {
      FetchedFails(server, i + 1);
      if FetchedFrom(server, i).None? {
        var n :| FailsAt(server, i + 1, n);
        assert FailsAt(server, i, n);
      } else {
        forall n: nat ensures !FailsAt(server, i, n) {
          if FailsAt(server, i, n) {
            assert n > i;
            assert FailsAt(server, i + 1, n);
          }
        }
      }
    }
  }

  /** Answers after the stopping page are never requested: appending to the server changes nothing. */
  lemma {:induction false} FetchedIgnoresLater(server: seq<Fetch>, extra: seq<Fetch>, i: nat)
    requires FetchedFrom(server, i).Some?
    ensures FetchedFrom(server + extra, i) == FetchedFrom(server, i)
    decreases |server| - i
  {
    assert (server + extra)[i] == server[i];
    if Continues(server[i].page) {
      FetchedIgnoresLater(server, extra, i + 1);
    }
  }

  /** The entries of all the pages, page by page, each page's in its own order (`repoJSON.extend`). */
  function AllEntries(pages: seq<Page>): seq<Entry>
  {
    Flatten(seq(|pages|, k requires 0 <= k < |pages| => pages[k].entries))
  }

  lemma AllEntriesSnoc(pages: seq<Page>, p: Page)
    ensures AllEntries(pages + [p]) == AllEntries(pages) + p.entries
  {
    var xss := seq(|pages|, k requires 0 <= k < |pages| => pages[k].entries);
    assert seq(|pages + [p]|, k requires 0 <= k < |pages + [p]| => (pages + [p])[k].entries) == xss + [p.entries];
    FlattenSnoc(xss, p.entries);
  }

  lemma OnePage(p: Page)
    ensures AllEntries([p]) == p.entries
  {
    assert seq(1, k requires 0 <= k < 1 => [p][k].entries) == [p.entries];
    assert Flatten([p.entries]) == p.entries + Flatten([p.entries][1..]);
  }

  /** The `html_url` of every entry, in order; None when some entry lacks one (a KeyError). */
  function Urls(entries: seq<Entry>): Option<seq<string>>
  {
    if forall k :: 0 <= k < |entries| ==> entries[k].htmlUrl.Some?
    then Some(seq(|entries|, k requires 0 <= k < |entries| && entries[k].htmlUrl.Some? => entries[k].htmlUrl.value))
    else None
  }

  /** `getRepo` against a server that answers successive requests with `server[0]`, `server[1]`, and so on. */
  function Enumerate(server: seq<Fetch>): Listing
  {
    match FetchedFrom(server, 0)
    case None => Aborted
    case Some(pages) =>
      match Urls(AllEntries(pages))
      case None => Aborted
      case Some(urls) => Listed(urls)
  }

  /** `getRepo`: the pagination loop, then the projection loop. */
  method GetRepo(server: seq<Fetch>) returns (listing: Listing)
    ensures listing == Enumerate(server)
  {
    if |server| == 0 || server[0].Raised? {
      return Aborted;
    }
    var request := server[0].page;
    var entries := request.entries;
    var served := 1;
    ghost var pages := [request];
    OnePage(request);
    while request.ok
      invariant 1 <= served <= |server| && |pages| == served
      invariant forall k :: 0 <= k < served ==> server[k] == Fetched(pages[k])
      invariant forall k :: 0 <= k < served - 1 ==> Continues(pages[k])
      invariant request == pages[served - 1]
      invariant entries == AllEntries(pages)
      decreases |server| - served
    {
      if !request.hasNext {
        break;
      }
      if served == |server| || server[served].Raised? {
        assert FailsAt(server, 0, served);
        FetchedFails(server, 0);
        return Aborted;
      }
      request := server[served].page;
      AllEntriesSnoc(pages, request);
      entries := entries + request.entries;
      pages := pages + [request];
      served := served + 1;
    }
    FetchedWhenStops(server, 0, served);
    assert PagesOf(server, 0, served) == pages;

    var repos := [];
    for i := 0 to |entries|
      invariant |repos| == i
      invariant forall k :: 0 <= k < i ==> entries[k].htmlUrl == Some(repos[k])
    {
      if entries[i].htmlUrl.None? {
        return Aborted;
      }
      repos := repos + [entries[i].htmlUrl.value];
    }
    assert seq(|entries|, k requires 0 <= k < |entries| && entries[k].htmlUrl.Some? => entries[k].htmlUrl.value) == repos;
    return Listed(repos);
  }

  /**
   * A listing holds the `html_url` of every entry of every fetched page: one URL
   * per entry, page order first and entry order within a page, nothing dropped
   * and nothing merged.
   */
  lemma ListingOrder(server: seq<Fetch>, pages: seq<Page>, i: nat, j: nat)
    requires FetchedFrom(server, 0) == Some(pages) && Enumerate(server).Listed?
    requires i < |pages| && j < |pages[i].entries|
    ensures |Enumerate(server).urls| == |AllEntries(pages)|
    ensures |AllEntries(pages[..i])| + j < |AllEntries(pages)|
    ensures pages[i].entries[j].htmlUrl == Some(Enumerate(server).urls[|AllEntries(pages[..i])| + j])
  {
    var xss := seq(|pages|, k requires 0 <= k < |pages| => pages[k].entries);
    assert seq(i, k requires 0 <= k < i => pages[..i][k].entries) == xss[..i];
    FlattenAt(xss, i, j);
  }

  /** A listing holds one URL per entry of the fetched pages, an account without repositories included. */
  lemma ListingLength(server: seq<Fetch>, pages: seq<Page>)
    requires FetchedFrom(server, 0) == Some(pages) && Enumerate(server).Listed?
    ensures |Enumerate(server).urls| == |AllEntries(pages)|
  {
  }

  /**
   * `getRepo` ends the process exactly when fetching the pages fails or some
   * entry of the fetched pages has no `html_url`.
   */
  lemma EnumerateAborts(server: seq<Fetch>)
    ensures Enumerate(server).Aborted? <==>
      FetchedFrom(server, 0).None?
      || exists k :: 0 <= k < |AllEntries(FetchedFrom(server, 0).value)| && AllEntries(FetchedFrom(server, 0).value)[k].htmlUrl.None?
  {
  }

  /** An entry without `html_url` on any fetched page aborts the enumeration. */
  lemma MissingUrlAborts(server: seq<Fetch>, pages: seq<Page>, i: nat, j: nat)
    requires FetchedFrom(server, 0) == Some(pages)
    requires i < |pages| && j < |pages[i].entries| && pages[i].entries[j].htmlUrl.None?
    ensures Enumerate(server) == Aborted
  {
    var xss := seq(|pages|, k requires 0 <= k < |pages| => pages[k].entries);
    assert seq(i, k requires 0 <= k < i => pages[..i][k].entries) == xss[..i];
    FlattenAt(xss, i, j);
  }

  /** Once the stopping page is reached, whatever the server would have answered next has no effect. */
  lemma EnumerateIgnoresLater(server: seq<Fetch>, extra: seq<Fetch>)
    requires FetchedFrom(server, 0).Some?
    ensures Enumerate(server + extra) == Enumerate(server)
  {
    FetchedIgnoresLater(server, extra, 0);
  }

  /** A first page with a `next` link and a second without one: both pages' entries, in order, and nothing more is requested. */
  lemma TwoPages(first: Page, second: Page, later: seq<Fetch>)
    requires Continues(first) && !second.hasNext
    ensures Enumerate([Fetched(first), Fetched(second)] + later)
         == match Urls(first.entries + second.entries)
            case None => Aborted
            case Some(urls) => Listed(urls)
  {
    var server := [Fetched(first), Fetched(second)];
    FetchedWhenStops(server, 0, 2);
    assert PagesOf(server, 0, 2) == [first, second];
    AllEntriesSnoc([first], second);
    OnePage(first);
    EnumerateIgnoresLater(server, later);
  }
}
