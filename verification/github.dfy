/**
 pkg/git/github.go: listing an organisation's repositories page by page.
 The HTTP exchange is a `Server`: the reply `getRequest` gets for each URL,
 with the `Link` header already parsed into a list of links (section 3 of
 RFC 8288). A URL without a reply is a transport failure. `fuel` bounds
 the number of pages, standing for a chain of next links that never ends.
 */
module GitHub {
  import opened Errors

  datatype Repo = Repo(fullName: string, pushedAt: string, ownerLogin: string)

  datatype Link = Link(url: string, rel: string)

  /** Index `i` holds the first link whose relation is `next`. */
  ghost predicate IsFirstNext(links: seq<Link>, i: int) {
    0 <= i < |links| && links[i].rel == "next"
    && forall j :: 0 <= j < i ==> links[j].rel != "next"
  }

  /** `nextUrl(linkHeader)`: the target of the first `next` link, or "". */
  function NextUrl(links: seq<Link>): (next: string)
    ensures forall i :: IsFirstNext(links, i) ==> next == links[i].url
    ensures (forall i :: 0 <= i < |links| ==> links[i].rel != "next") ==> next == ""
    decreases |links|
  {
    if |links| == 0 then ""
    else if links[0].rel == "next" then links[0].url
    else
      assert forall i :: IsFirstNext(links, i) ==> IsFirstNext(links[1..], i - 1);
      NextUrl(links[1..])
  }

  datatype Request = Request(verb: string, url: string, headers: map<string, string>)

  /** The request `getRequest(rawUrl, authToken)` sends. */
  function GetRequest(url: string, token: string): Request {
    Request("GET", url, map[
      "Accept" := "application/vnd.github.v3+json",
      "User-Agent" := "Backup",
      "Authorization" := "Bearer " + token])
  }

  /** A response body: reading it failed, decoding its JSON failed, or it
      decoded into one page of repositories. */
  datatype Body = Unreadable(err: Error) | Undecodable(err: Error) | Decoded(repos: seq<Repo>)

  /** What `getRequest` yields for one URL: an error and no response, or a response. */
  datatype Reply =
    | TransportFailed(err: Error)
    | Response(status: int, body: Body, links: seq<Link>)

  type Server = map<string, Reply>

  function Fetch(server: Server, url: string): Reply {
    if url in server then server[url] else TransportFailed(Io("no response from " + url))
  }

  /** How `ReposFor` ends: returning the list with a nil error, returning a
      nil list with `err` (which may itself be nil), dereferencing the nil
      response of a failed request, or still paging when the fuel ran out. */
  datatype Returned = Listed(repos: seq<Repo>) | Bailed(err: Option<Error>) | Panicked | Exhausted

  /** The end of discovery, the requests `getRequest` was asked to send, in
      order, and how much was added to the organisation's repository
      counter. A URL that `url.Parse` or `http.NewRequest` rejects is
      recorded too, although nothing goes out for it. */
  datatype Discovery = Discovery(result: Returned, requests: seq<Request>, counted: nat)

  function OrgUrl(org: string): string {
    "https://api.github.com/orgs/" + org + "/repos"
  }

  /** A reply after which the loop appends a page and follows the next link. */
  predicate Continues(r: Reply) {
    r.Response? && r.status == 200 && r.body.Decoded?
  }

  /** Earlier pages are kept only when the whole listing succeeds. */
  function Prepend(page: seq<Repo>, r: Returned): Returned {
    match r
    case Listed(more) => Listed(page + more)
    case _ => r
  }

  /** How the loop ends on a reply it does not continue after: a failed
      request leaves a nil response that is then dereferenced; a non-200
      status returns a nil error; an unreadable or undecodable body returns
      that error. */
  function Stopped(reply: Reply): Returned
    requires !Continues(reply)
  {
    if reply.TransportFailed? then Panicked
    else if reply.status != 200 then Bailed(None)
    else Bailed(Some(reply.body.err))
  }

  /** Reference definition of the loop of `ReposFor`, from page `url` on. */
  function Crawl(server: Server, token: string, url: string, fuel: nat): Discovery
    decreases fuel
  {
    if url == "" then Discovery(Listed([]), [], 0)
    else if fuel == 0 then Discovery(Exhausted, [], 0)
    else
      var req := GetRequest(url, token);
      var reply := Fetch(server, url);
      if !Continues(reply) then Discovery(Stopped(reply), [req], 0)
      else
        var page := reply.body.repos;
        var rest := Crawl(server, token, NextUrl(reply.links), fuel - 1);
        Discovery(Prepend(page, rest.result), [req] + rest.requests, |page| + rest.counted)
  }

  /** Discovery state after some pages: what was accumulated, followed by the rest. */
  function Resume(acc: seq<Repo>, requests: seq<Request>, counted: nat, rest: Discovery): Discovery {
    Discovery(Prepend(acc, rest.result), requests + rest.requests, counted + rest.counted)
  }

  /** Nothing accumulated yet: resuming is the crawl itself. */
  lemma ResumeFromStart(rest: Discovery)
    ensures Resume([], [], 0, rest) == rest
  {
    assert [] + rest.requests == rest.requests;
    match rest.result
    case Listed(more) =>
      assert [] + more == more;
    case _ =>
  }

  /** Appending one decoded page moves it from the rest of the crawl to what was accumulated. */
  lemma ResumeAfterPage(acc: seq<Repo>, requests: seq<Request>, counted: nat, page: seq<Repo>,
                        req: Request, rest: Discovery)
    ensures Resume(acc, requests, counted, Discovery(Prepend(page, rest.result), [req] + rest.requests, |page| + rest.counted))
         == Resume(acc + page, requests + [req], counted + |page|, rest)
  {
    assert requests + ([req] + rest.requests) == (requests + [req]) + rest.requests;
    match rest.result
    case Listed(more) =>
      assert acc + (page + more) == (acc + page) + more;
    case _ =>
  }

  /** After a full page, the crawl from `url` is that page followed by the
      crawl from its next link. */
  lemma ResumeNextPage(server: Server, token: string, url: string, fuel: nat,
                       acc: seq<Repo>, requests: seq<Request>, counted: nat)
    requires url != "" && fuel > 0 && Continues(Fetch(server, url))
    ensures var reply := Fetch(server, url);
      Resume(acc, requests, counted, Crawl(server, token, url, fuel))
      == Resume(acc + reply.body.repos, requests + [GetRequest(url, token)], counted + |reply.body.repos|,
                Crawl(server, token, NextUrl(reply.links), fuel - 1))
  {
    var reply := Fetch(server, url);
    var rest := Crawl(server, token, NextUrl(reply.links), fuel - 1);
    ResumeAfterPage(acc, requests, counted, reply.body.repos, GetRequest(url, token), rest);
  }

  /** `ReposFor(org, authToken)`: the loop over pages as the source writes it. */
  method ReposFor(org: string, token: string, server: Server, fuel: nat) returns (d: Discovery)
    ensures d == Crawl(server, token, OrgUrl(org), fuel)
  {
    var url := OrgUrl(org);
    var all: seq<Repo> := [];
    var requests: seq<Request> := [];
    var counted: nat := 0;
    var budget := fuel;
    ResumeFromStart(Crawl(server, token, url, budget));
    while url != ""
      invariant Resume(all, requests, counted, Crawl(server, token, url, budget)) == Crawl(server, token, OrgUrl(org), fuel)
      decreases budget
    {
      if budget == 0 {
        assert requests + [] == requests;
        return Discovery(Exhausted, requests, counted);
      }
      var req := GetRequest(url, token);
      var reply := Fetch(server, url);
      if reply.TransportFailed? {
        assert Crawl(server, token, url, budget) == Discovery(Panicked, [req], 0);
        return Discovery(Panicked, requests + [req], counted);
      }
      if reply.status != 200 {
        assert Crawl(server, token, url, budget) == Discovery(Bailed(None), [req], 0);
        return Discovery(Bailed(None), requests + [req], counted);
      }
      match reply.body
      case Unreadable(e) =>
        assert Crawl(server, token, url, budget) == Discovery(Bailed(Some(e)), [req], 0);
        return Discovery(Bailed(Some(e)), requests + [req], counted);
      case Undecodable(e) =>
        assert Crawl(server, token, url, budget) == Discovery(Bailed(Some(e)), [req], 0);
        return Discovery(Bailed(Some(e)), requests + [req], counted);
      case Decoded(page) =>
        var next := NextUrl(reply.links);
        ResumeNextPage(server, token, url, budget, all, requests, counted);
        all := all + page;
        requests := requests + [req];
        counted := counted + |page|;
        url := next;
        budget := budget - 1;
    }
    d := Discovery(Listed(all), requests, counted);
  }

  /** The items of the successful pages among `requests`, in request order. */
  ghost function ItemsAlong(server: Server, requests: seq<Request>): seq<Repo>
    decreases |requests|
  {
    if |requests| == 0 then []
    else
      var reply := Fetch(server, requests[0].url);
      (if Continues(reply) then reply.body.repos else []) + ItemsAlong(server, requests[1..])
  }

  /** Each request but the last got a full page whose next link is the following request. */
  ghost predicate Chained(server: Server, requests: seq<Request>) {
    forall i :: 0 <= i < |requests| - 1 ==>
      Continues(Fetch(server, requests[i].url))
      && requests[i + 1].url == NextUrl(Fetch(server, requests[i].url).links)
  }

  lemma ChainedCons(server: Server, req: Request, rest: seq<Request>)
    requires Chained(server, rest)
    requires |rest| > 0 ==> Continues(Fetch(server, req.url)) && rest[0].url == NextUrl(Fetch(server, req.url).links)
    ensures Chained(server, [req] + rest)
  {
    var all := [req] + rest;
    forall i | 0 <= i < |all| - 1
      ensures Continues(Fetch(server, all[i].url)) && all[i + 1].url == NextUrl(Fetch(server, all[i].url).links)
    {
      if i > 0 {
        assert all[i] == rest[i - 1] && all[i + 1] == rest[i];
      }
    }
  }

  /** Discovery starts at `url`, follows next links and nothing else, sends
      every request with the same three headers, spends at most one unit of
      fuel per request, and adds to the counter the size of every page it
      decoded, whether or not the listing later fails. */
  lemma {:induction false} CrawlTrace(server: Server, token: string, url: string, fuel: nat)
    ensures var d := Crawl(server, token, url, fuel);
      && |d.requests| <= fuel
      && (url == "" ==> d == Discovery(Listed([]), [], 0))
      && (url != "" && fuel > 0 ==> |d.requests| > 0 && d.requests[0].url == url)
      && (forall i :: 0 <= i < |d.requests| ==>
            d.requests[i].verb == "GET"
            && d.requests[i].headers == map[
                 "Accept" := "application/vnd.github.v3+json",
                 "User-Agent" := "Backup",
                 "Authorization" := "Bearer " + token])
      && Chained(server, d.requests)
      && d.counted == |ItemsAlong(server, d.requests)|
    decreases fuel
  {
    if url != "" && fuel > 0 {
      var req := GetRequest(url, token);
      var reply := Fetch(server, url);
      var d := Crawl(server, token, url, fuel);
      if Continues(reply) {
        var next := NextUrl(reply.links);
        var rest := Crawl(server, token, next, fuel - 1);
        assert d == Discovery(Prepend(reply.body.repos, rest.result), [req] + rest.requests, |reply.body.repos| + rest.counted);
        CrawlTrace(server, token, next, fuel - 1);
        ChainedCons(server, req, rest.requests);
        assert d.requests[1..] == rest.requests;
      } else {
        assert d == Discovery(Stopped(reply), [req], 0);
        assert ItemsAlong(server, [req]) == [];
      }
    }
  }

  /** A listing that succeeds is the concatenation of the pages fetched, in
      fetch order; every fetch got a 200 page; the last page had no next
      link; and the counter grew by exactly the number of repositories listed. */
  lemma {:induction false} CrawlListed(server: Server, token: string, url: string, fuel: nat)
    requires Crawl(server, token, url, fuel).result.Listed?
    ensures var d := Crawl(server, token, url, fuel);
      && d.result.repos == ItemsAlong(server, d.requests)
      && d.counted == |d.result.repos|
      && (forall i :: 0 <= i < |d.requests| ==> Continues(Fetch(server, d.requests[i].url)))
      && (|d.requests| > 0 ==> NextUrl(Fetch(server, d.requests[|d.requests| - 1].url).links) == "")
    decreases fuel
  {
    CrawlTrace(server, token, url, fuel);
    if url != "" {
      var req := GetRequest(url, token);
      var reply := Fetch(server, url);
      var next := NextUrl(reply.links);
      var rest := Crawl(server, token, next, fuel - 1);
      assert Continues(reply);
      assert Crawl(server, token, url, fuel)
          == Discovery(Prepend(reply.body.repos, rest.result), [req] + rest.requests, |reply.body.repos| + rest.counted);
      CrawlListed(server, token, next, fuel - 1);
      CrawlTrace(server, token, next, fuel - 1);
      var all := [req] + rest.requests;
      assert all[1..] == rest.requests;
      forall i | 0 <= i < |all| ensures Continues(Fetch(server, all[i].url)) {
        if i > 0 { assert all[i] == rest.requests[i - 1]; }
      }
      if |rest.requests| == 0 {
        assert next == "";
      } else {
        assert all[|all| - 1] == rest.requests[|rest.requests| - 1];
      }
    }
  }

  /** What the reply the loop stopped at says about how it stopped: a
      panic exactly when there was no response; a nil error exactly when
      the status was not 200; otherwise the body's own error. */
  lemma StoppedMeans(reply: Reply)
    requires !Continues(reply)
    ensures var r := Stopped(reply);
      && (r.Panicked? <==> reply.TransportFailed?)
      && (r == Bailed(None) <==> reply.Response? && reply.status != 200)
      && (r.Bailed? && r.err.Some? ==>
            reply.Response? && reply.status == 200 && reply.body in {Unreadable(r.err.value), Undecodable(r.err.value)})
  {
  }

  /** A failed listing ended at the reply to its last request. */
  lemma {:induction false} CrawlStopsAtLast(server: Server, token: string, url: string, fuel: nat)
    ensures var d := Crawl(server, token, url, fuel);
      && (d.result.Exhausted? ==> |d.requests| == fuel)
      && (d.result.Bailed? || d.result.Panicked? ==>
            |d.requests| > 0
            && !Continues(Fetch(server, d.requests[|d.requests| - 1].url))
            && d.result == Stopped(Fetch(server, d.requests[|d.requests| - 1].url)))
    decreases fuel
  {
    if url != "" && fuel > 0 {
      var req := GetRequest(url, token);
      var reply := Fetch(server, url);
      if Continues(reply) {
        var next := NextUrl(reply.links);
        var rest := Crawl(server, token, next, fuel - 1);
        var d := Crawl(server, token, url, fuel);
        assert d == Discovery(Prepend(reply.body.repos, rest.result), [req] + rest.requests, |reply.body.repos| + rest.counted);
        CrawlStopsAtLast(server, token, next, fuel - 1);
        if |rest.requests| > 0 {
          assert d.requests[|d.requests| - 1] == rest.requests[|rest.requests| - 1];
        }
      }
    }
  }

  /** How a failed listing ended, read off the last request sent: a panic
      exactly when that request got no response; a nil error exactly when it
      got a non-200 status; the body's own error when reading or decoding
      it failed. A listing out of fuel sent one request per unit of fuel. */
  lemma CrawlStops(server: Server, token: string, url: string, fuel: nat)
    ensures var d := Crawl(server, token, url, fuel);
      && (d.result.Exhausted? ==> |d.requests| == fuel)
      && (d.result.Bailed? || d.result.Panicked? ==>
            |d.requests| > 0
            && var last := Fetch(server, d.requests[|d.requests| - 1].url);
            && (d.result.Panicked? <==> last.TransportFailed?)
            && (d.result == Bailed(None) <==> last.Response? && last.status != 200)
            && (d.result.Bailed? && d.result.err.Some? ==>
                  last.Response? && last.status == 200
                  && last.body in {Unreadable(d.result.err.value), Undecodable(d.result.err.value)}))
  {
    var d := Crawl(server, token, url, fuel);
    CrawlStopsAtLast(server, token, url, fuel);
    if d.result.Bailed? || d.result.Panicked? {
      StoppedMeans(Fetch(server, d.requests[|d.requests| - 1].url));
    }
  }

  /** The end of the loop as evidently intended: a failed request returns
      its error and a non-200 status returns an error naming the status. */
  function StoppedChecked(reply: Reply): Returned
    requires !Continues(reply)
  {
    if reply.TransportFailed? then Bailed(Some(reply.err))
    else if reply.status != 200 then Bailed(Some(BadStatus(reply.status)))
    else Bailed(Some(reply.body.err))
  }

  /** The loop as evidently intended: a failed request and a non-200
      status end discovery with an error instead of a panic or a nil error. */
  function CrawlChecked(server: Server, token: string, url: string, fuel: nat): Discovery
    decreases fuel
  {
    if url == "" then Discovery(Listed([]), [], 0)
    else if fuel == 0 then Discovery(Exhausted, [], 0)
    else
      var req := GetRequest(url, token);
      var reply := Fetch(server, url);
      if !Continues(reply) then Discovery(StoppedChecked(reply), [req], 0)
      else
        var page := reply.body.repos;
        var rest := CrawlChecked(server, token, NextUrl(reply.links), fuel - 1);
        Discovery(Prepend(page, rest.result), [req] + rest.requests, |page| + rest.counted)
  }

  lemma {:induction false} CheckedNeverSilent(server: Server, token: string, url: string, fuel: nat)
    ensures var r := CrawlChecked(server, token, url, fuel).result;
      !r.Panicked? && (r.Bailed? ==> r.err.Some?)
    decreases fuel
  {
    if url != "" && fuel > 0 {
      var reply := Fetch(server, url);
      if Continues(reply) {
        var rest := CrawlChecked(server, token, NextUrl(reply.links), fuel - 1);
        assert CrawlChecked(server, token, url, fuel).result == Prepend(reply.body.repos, rest.result);
        CheckedNeverSilent(server, token, NextUrl(reply.links), fuel - 1);
      } else {
        assert CrawlChecked(server, token, url, fuel).result == StoppedChecked(reply);
      }
    }
  }

  /** The corrected `ReposFor`: it never panics, and whenever it returns no
      list it returns an error; it sends the same requests, counts the same
      pages, and lists the same repositories whenever the original lists any. */
  function ReposForChecked(org: string, token: string, server: Server, fuel: nat): (d: Discovery)
    ensures !d.result.Panicked? && (d.result.Bailed? ==> d.result.err.Some?)
    ensures d.requests == Crawl(server, token, OrgUrl(org), fuel).requests
    ensures d.counted == Crawl(server, token, OrgUrl(org), fuel).counted
    ensures d.result.Listed? <==> Crawl(server, token, OrgUrl(org), fuel).result.Listed?
    ensures d.result.Listed? ==> d.result == Crawl(server, token, OrgUrl(org), fuel).result
  {
    CheckedNeverSilent(server, token, OrgUrl(org), fuel);
    CheckedAgrees(server, token, OrgUrl(org), fuel);
    CrawlChecked(server, token, OrgUrl(org), fuel)
  }

  /** The corrected loop differs from the original only in how a failure is reported. */
  lemma {:induction false} CheckedAgrees(server: Server, token: string, url: string, fuel: nat)
    ensures var d, c := Crawl(server, token, url, fuel), CrawlChecked(server, token, url, fuel);
      && c.requests == d.requests && c.counted == d.counted
      && (c.result.Listed? <==> d.result.Listed?)
      && (d.result.Listed? ==> c.result == d.result)
      && (d.result.Exhausted? <==> c.result.Exhausted?)
    decreases fuel
  {
    if url != "" && fuel > 0 {
      var reply := Fetch(server, url);
      var req := GetRequest(url, token);
      var d, c := Crawl(server, token, url, fuel), CrawlChecked(server, token, url, fuel);
      if Continues(reply) {
        var page, next := reply.body.repos, NextUrl(reply.links);
        var dr, cr := Crawl(server, token, next, fuel - 1), CrawlChecked(server, token, next, fuel - 1);
        assert d == Discovery(Prepend(page, dr.result), [req] + dr.requests, |page| + dr.counted);
        assert c == Discovery(Prepend(page, cr.result), [req] + cr.requests, |page| + cr.counted);
        CheckedAgrees(server, token, next, fuel - 1);
      } else {
        assert d == Discovery(Stopped(reply), [req], 0);
        assert c == Discovery(StoppedChecked(reply), [req], 0);
      }
    }
  }

  /** As written, a non-200 first page ends discovery with a nil list and a
      nil error, which a caller cannot tell from an organisation without
      repositories; the corrected loop reports the status. */
  lemma NonOkStatusIsSilent(org: string, token: string, server: Server, fuel: nat)
    requires fuel > 0
    requires Fetch(server, OrgUrl(org)).Response? && Fetch(server, OrgUrl(org)).status != 200
    ensures Crawl(server, token, OrgUrl(org), fuel).result == Bailed(None)
    ensures ReposForChecked(org, token, server, fuel).result == Bailed(Some(BadStatus(Fetch(server, OrgUrl(org)).status)))
  {
  }

  /** As written, a request that gets no response dereferences the nil
      response and panics; the corrected loop returns the request's error. */
  lemma TransportFailurePanics(org: string, token: string, server: Server, fuel: nat)
    requires fuel > 0
    requires Fetch(server, OrgUrl(org)).TransportFailed?
    ensures Crawl(server, token, OrgUrl(org), fuel).result == Panicked
    ensures ReposForChecked(org, token, server, fuel).result == Bailed(Some(Fetch(server, OrgUrl(org)).err))
  {
  }
}
