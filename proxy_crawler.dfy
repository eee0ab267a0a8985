/** The multi-method crawler (scripts/proxy-scholar-crawler.js): the same run
    as the profile crawler, except that the page is fetched directly, then
    through free HTTP proxies downloaded from three public lists (with five
    hard-coded backups), then directly again three times. Downloads and
    requests are oracles; the three list URLs are identified by position. */
module ProxyCrawler {
  import opened Common
  import opened Catalog
  import opened ScholarCrawler

  // ---------------------------------------------------------------------------
  // Proxy lists
  // ---------------------------------------------------------------------------

  datatype Proxy = Proxy(host: string, port: int)

  /** The filter `proxy.host && proxy.port && !isNaN(proxy.port)`. */
  predicate Usable(p: Proxy) { p.host != "" && p.port != 0 }

  /** One line of a downloaded list: `const [ip, port] = line.trim().split(':')`
      and `{ host: ip, port: parseInt(port) }`, kept only when usable (a
      missing port is `undefined`, which parses to NaN). */
  function ParseProxyLine(line: string): (r: Option<Proxy>)
    ensures r.Some? ==> Usable(r.value) && ':' !in r.value.host
    ensures r.Some? ==> r.value.host == Split(TrimJs(line), ':')[0]
  {
    var parts := Split(TrimJs(line), ':');
    var port := if |parts| > 1 then ParseIntJs(parts[1]) else None;
    if parts[0] != "" && port.Some? && port.value != 0 then Some(Proxy(parts[0], port.value)) else None
  }

  /** A line without ':' has no port and is dropped. */
  lemma LineWithoutPortDropped(line: string)
    requires ':' !in TrimJs(line)
    ensures ParseProxyLine(line).None?
  {
    SplitNoSep(TrimJs(line), ':');
  }

  /** The `ip:port` text of a proxy. */
  function Render(p: Proxy): string
    requires p.port >= 0
  {
    p.host + ":" + NatToString(p.port)
  }

  /** A proxy that a list line can carry: a host without ':' and line breaks
      that does not start with a space, and a positive port. */
  predicate WellFormed(p: Proxy) {
    p.host != "" && ':' !in p.host && '\n' !in p.host && !IsJsSpace(p.host[0]) && p.port > 0
  }

  /** Parsing reads back a rendered proxy. */
  lemma ParseRenderedLine(p: Proxy)
    requires WellFormed(p)
    ensures ParseProxyLine(Render(p)) == Some(p)
  {
    RenderedLineSplits(p);
    ParseIntOfNatToString(p.port);
    ParseHostAndPort(Render(p), p.host, NatToString(p.port), p.port);
  }

  /** A line that trims and splits into a host and a port text parses to them. */
  lemma ParseHostAndPort(line: string, host: string, portText: string, port: int)
    requires Split(TrimJs(line), ':') == [host, portText]
    requires host != "" && ParseIntJs(portText) == Some(port) && port != 0
    ensures ParseProxyLine(line) == Some(Proxy(host, port))
  {
  }

  /** A rendered line is already trimmed and splits at its one ':'. */
  lemma RenderedLineSplits(p: Proxy)
    requires WellFormed(p)
    ensures Split(TrimJs(Render(p)), ':') == [p.host, NatToString(p.port)]
  {
    var digits := NatToString(p.port);
    var line := Render(p);
    assert line[0] == p.host[0];
    assert line[|line| - 1] == digits[|digits| - 1];
    assert IsDigit(digits[|digits| - 1]);
    TrimJsUnchanged(line);
    assert ':' !in digits by {
      forall k | 0 <= k < |digits| ensures digits[k] != ':' { assert IsDigit(digits[k]); }
    }
    assert Join([p.host, digits], [':']) == line by {
      assert [p.host, digits][1..] == [digits];
    }
    SplitJoin([p.host, digits], ':');
  }

  /** parseInt is called without a radix, so a hexadecimal port is read as
      such: `host:0x50` is kept with port 80. */
  lemma HexPortKept(host: string)
    requires WellFormed(Proxy(host, 80))
    ensures ParseProxyLine(host + ":0x50") == Some(Proxy(host, 80))
  {
    var portText := "0x50";
    var line := host + ":" + portText;
    assert host + ":0x50" == line;
    assert line[0] == host[0];
    assert line[|line| - 1] == '0';
    TrimJsUnchanged(line);
    assert ':' !in portText;
    assert Join([host, portText], [':']) == line by {
      assert [host, portText][1..] == [portText];
    }
    SplitJoin([host, portText], ':');
    ParseIntHex();
    ParseHostAndPort(line, host, portText, 80);
  }

  /** `line => line.trim()` as a filter. */
  predicate NonBlank(line: string) { TrimJs(line) != "" }

  /** The usable proxies of the non-blank lines, in order. */
  function ProxiesOfLines(lines: seq<string>): (r: seq<Proxy>)
    ensures |r| <= |lines|
    ensures forall k :: 0 <= k < |r| ==> Usable(r[k])
  {
    if lines == [] then []
    else
      (match ParseProxyLine(lines[0]) case Some(p) => [p] case None => []) + ProxiesOfLines(lines[1..])
  }

  /** The list a download yields: `data.split('\n')`, blank lines dropped,
      each line parsed, unusable proxies dropped. */
  function ParseProxyList(data: string): seq<Proxy> {
    ProxiesOfLines(Filter(Split(data, '\n'), NonBlank))
  }

  lemma ProxiesOfRenderedLines(ps: seq<Proxy>)
    requires forall k :: 0 <= k < |ps| ==> WellFormed(ps[k])
    ensures ProxiesOfLines(MapSeq(ps, RenderWellFormed)) == ps
  {
    var lines := MapSeq(ps, RenderWellFormed);
    forall k | 0 <= k < |lines| ensures ParseProxyLine(lines[k]) == Some(ps[k]) {
      ParseRenderedLine(ps[k]);
    }
    ProxiesOfParsedLines(lines, ps);
  }

  /** Lines that each parse to a proxy give those proxies, in order. */
  lemma {:induction false} ProxiesOfParsedLines(lines: seq<string>, ps: seq<Proxy>)
    requires |lines| == |ps| && forall k :: 0 <= k < |lines| ==> ParseProxyLine(lines[k]) == Some(ps[k])
    ensures ProxiesOfLines(lines) == ps
    decreases |lines|
  {
    if lines != [] {
      ProxiesOfParsedLines(lines[1..], ps[1..]);
      assert ps == [ps[0]] + ps[1..];
    }
  }

  /** Render on the proxies list lines can carry. */
  function RenderWellFormed(p: Proxy): string {
    if p.port >= 0 then Render(p) else ""
  }

  /** A list written one `ip:port` per line parses back to the same proxies. */
  lemma ParseRenderedList(ps: seq<Proxy>)
    requires forall k :: 0 <= k < |ps| ==> WellFormed(ps[k])
    ensures ParseProxyList(Join(MapSeq(ps, RenderWellFormed), "\n")) == ps
  {
    if ps == [] {
      EmptyListParsesEmpty();
    } else {
      var lines := MapSeq(ps, RenderWellFormed);
      forall k | 0 <= k < |lines| ensures '\n' !in lines[k] && NonBlank(lines[k]) {
        RenderedLineShape(ps[k]);
      }
      SplitJoin(lines, '\n');
      FilterAll(lines, NonBlank);
      ProxiesOfRenderedLines(ps);
    }
  }

  /** An empty download yields no proxies. */
  lemma EmptyListParsesEmpty()
    ensures ParseProxyList("") == []
  {
    assert Split("", '\n') == [""];
    assert TrimJs("") == "";
    assert Filter([""], NonBlank) == [];
  }

  /** A rendered proxy is one non-blank line. */
  lemma RenderedLineShape(p: Proxy)
    requires WellFormed(p)
    ensures '\n' !in RenderWellFormed(p) && NonBlank(RenderWellFormed(p))
  {
    ParseRenderedLine(p);
    var digits := NatToString(p.port);
    assert RenderWellFormed(p) == p.host + ":" + digits;
    assert '\n' !in digits by {
      forall j | 0 <= j < |digits| ensures digits[j] != '\n' { assert IsDigit(digits[j]); }
    }
  }

  // ---------------------------------------------------------------------------
  // getFreeProxies
  // ---------------------------------------------------------------------------

  /** The number of proxy list URLs. */
  const SourceCount: nat := 3

  /** The backups used when no list yields a proxy. */
  const BackupProxies: seq<Proxy> := [
    Proxy("8.208.84.236", 3128),
    Proxy("20.111.54.16", 8123),
    Proxy("103.117.192.14", 80),
    Proxy("167.172.173.210", 37849),
    Proxy("185.82.96.51", 9091)
  ]

  /** `xs.slice(0, n)`. */
  function Take<T>(xs: seq<T>, n: nat): (r: seq<T>)
    ensures |r| == Min(n, |xs|) && r == xs[..|r|]
  {
    xs[..Min(n, |xs|)]
  }

  /** The proxies of list `i`, read by `parse`: none when the download fails
      or times out. */
  function SourceProxies(download: nat -> Option<string>, parse: string -> seq<Proxy>, i: nat): seq<Proxy> {
    match download(i)
    case Some(data) => parse(data)
    case None => []
  }

  /** `allProxies` after the first `n` lists: at most five from each. */
  function Gathered(download: nat -> Option<string>, parse: string -> seq<Proxy>, n: nat): (r: seq<Proxy>)
    ensures |r| <= 5 * n
  {
    if n == 0 then []
    else Gathered(download, parse, n - 1) + Take(SourceProxies(download, parse, n - 1), 5)
  }

  /** Every gathered proxy passed the usability filter. */
  lemma {:induction false} GatheredUsable(download: nat -> Option<string>, n: nat)
    ensures forall k :: 0 <= k < |Gathered(download, ParseProxyList, n)| ==> Usable(Gathered(download, ParseProxyList, n)[k])
  {
    if n > 0 {
      GatheredUsable(download, n - 1);
    }
  }

  /** What getFreeProxies returns when each download is read by `parse`. */
  function FreeProxiesBy(download: nat -> Option<string>, parse: string -> seq<Proxy>): seq<Proxy> {
    var found := Gathered(download, parse, SourceCount);
    Take(if found == [] then BackupProxies else found, 15)
  }

  /** What getFreeProxies returns. */
  function FreeProxies(download: nat -> Option<string>): seq<Proxy> {
    FreeProxiesBy(download, ParseProxyList)
  }

  /** The request to list `i`: its parsed lines, or `[]` on an error or the
      10-second timeout. */
  method DownloadList(download: nat -> Option<string>, parse: string -> seq<Proxy>, i: nat) returns (listed: seq<Proxy>)
    ensures listed == SourceProxies(download, parse, i)
  {
    listed := [];
    var data := download(i);
    if data.Some? {
      listed := parse(data.value);
    }
  }

  /** The three list downloads, five proxies kept from each. */
  method GatherProxies(download: nat -> Option<string>, parse: string -> seq<Proxy>) returns (allProxies: seq<Proxy>)
    ensures allProxies == Gathered(download, parse, SourceCount)
  {
    allProxies := [];
    var i := 0;
    while i < SourceCount
      invariant 0 <= i <= SourceCount
      invariant allProxies == Gathered(download, parse, i)
    {
      var listed := DownloadList(download, parse, i);
      allProxies := allProxies + Take(listed, 5);
      i := i + 1;
    }
  }

  /** getFreeProxies: the gathered proxies, the backups when there are none,
      capped at 15. */
  method GetFreeProxies(download: nat -> Option<string>, parse: string -> seq<Proxy>) returns (proxies: seq<Proxy>)
    ensures proxies == FreeProxiesBy(download, parse)
  {
    var allProxies := GatherProxies(download, parse);
    if |allProxies| == 0 {
      allProxies := allProxies + BackupProxies;
    }
    return Take(allProxies, 15);
  }

  /** The list is never empty and never over 15; the backups appear only
      when the downloads yielded nothing, and the cap of 15 never cuts the
      at most 3 x 5 downloaded proxies. Every proxy is usable. */
  lemma FreeProxiesShape(download: nat -> Option<string>)
    ensures 1 <= |FreeProxies(download)| <= 15
    ensures Gathered(download, ParseProxyList, SourceCount) != [] ==>
      FreeProxies(download) == Gathered(download, ParseProxyList, SourceCount)
    ensures Gathered(download, ParseProxyList, SourceCount) == [] ==> FreeProxies(download) == BackupProxies
    ensures forall k :: 0 <= k < |FreeProxies(download)| ==> Usable(FreeProxies(download)[k])
  {
    var found := Gathered(download, ParseProxyList, SourceCount);
    if found == [] {
      BackupsUsable();
    } else {
      GatheredUsable(download, SourceCount);
      assert |found| <= 15;
      assert found[..|found|] == found;
    }
  }

  /** The five backups are usable. */
  lemma BackupsUsable()
    ensures |BackupProxies| == 5
    ensures forall k :: 0 <= k < |BackupProxies| ==> Usable(BackupProxies[k])
  {
  }

  // ---------------------------------------------------------------------------
  // fetchScholarProfileMultiMethod
  // ---------------------------------------------------------------------------

  datatype Route = Direct | ViaProxy(proxy: Proxy)

  /** The request order: direct, the first ten proxies, three more direct
      requests. */
  function Plan(proxies: seq<Proxy>): (routes: seq<Route>)
    ensures |routes| == 4 + Min(10, |proxies|)
  {
    var m := Min(10, |proxies|);
    seq(4 + m, k requires 0 <= k < 4 + m => if 1 <= k <= m then ViaProxy(proxies[k - 1]) else Direct)
  }

  /** The plan tries at most 14 requests; every proxied one uses one of the
      first ten proxies, in list order, between the first direct request
      and the last three. */
  lemma PlanShape(proxies: seq<Proxy>)
    ensures |Plan(proxies)| <= 14
    ensures Plan(proxies)[0] == Direct
    ensures forall k :: |Plan(proxies)| - 3 <= k < |Plan(proxies)| ==> Plan(proxies)[k] == Direct
    ensures forall k :: 1 <= k < |Plan(proxies)| - 3 ==> Plan(proxies)[k] == ViaProxy(proxies[k - 1])
  {
  }

  /** Request `1 + i` goes through proxy `i`. */
  lemma PlanProxied(proxies: seq<Proxy>, i: nat)
    requires i < Min(10, |proxies|)
    ensures Plan(proxies)[1 + i] == ViaProxy(proxies[i])
  {
  }

  /** The last three requests are direct. */
  lemma PlanDirectTail(proxies: seq<Proxy>, j: nat)
    requires j < 3
    ensures Plan(proxies)[1 + Min(10, |proxies|) + j] == Direct
  {
  }

  /** The body of the first successful request at or after position `i` of
      the plan (requests are numbered by position). */
  function FirstOk(routes: seq<Route>, scholarId: string, request: (string, nat, Route) -> Response, i: nat)
    : (r: Option<string>)
    requires i <= |routes|
    ensures r.None? <==> forall k :: i <= k < |routes| ==> request(scholarId, k, routes[k]).Failed?
    ensures r.Some? ==>
      exists k :: i <= k < |routes| && request(scholarId, k, routes[k]) == Ok(r.value) &&
        forall j :: i <= j < k ==> request(scholarId, j, routes[j]).Failed?
    decreases |routes| - i
  {
    if i == |routes| then None
    else if request(scholarId, i, routes[i]).Ok? then Some(request(scholarId, i, routes[i]).data)
    else FirstOk(routes, scholarId, request, i + 1)
  }

  /** fetchScholarProfileMultiMethod. The proxy lists are only downloaded
      after the first direct request failed. */
  method FetchScholarProfileMultiMethod(scholarId: string, request: (string, nat, Route) -> Response,
                                        download: nat -> Option<string>, parse: string -> seq<Proxy>)
    returns (html: Option<string>, attempts: nat)
    ensures html == FirstOk(Plan(FreeProxiesBy(download, parse)), scholarId, request, 0)
    ensures 1 <= attempts <= |Plan(FreeProxiesBy(download, parse))|
    ensures html.Some? ==>
      request(scholarId, attempts - 1, Plan(FreeProxiesBy(download, parse))[attempts - 1]) == Ok(html.value)
    ensures html.None? ==> attempts == |Plan(FreeProxiesBy(download, parse))|
  {
    ghost var planned := FreeProxiesBy(download, parse);
    var result := request(scholarId, 0, Direct);
    if result.Ok? {
      FirstOkDirect(planned, scholarId, request);
      return Some(result.data), 1;
    }
    var proxies := GetFreeProxies(download, parse);
    assert proxies == planned;
    html, attempts := FetchAfterDirect(scholarId, request, proxies);
  }

  /** A successful first direct request ends the fetch. */
  lemma FirstOkDirect(proxies: seq<Proxy>, scholarId: string, request: (string, nat, Route) -> Response)
    requires request(scholarId, 0, Direct).Ok?
    ensures FirstOk(Plan(proxies), scholarId, request, 0) == Some(request(scholarId, 0, Direct).data)
    ensures |Plan(proxies)| >= 1 && Plan(proxies)[0] == Direct
    ensures request(scholarId, 0, Plan(proxies)[0]) == Ok(request(scholarId, 0, Direct).data)
  {
  }

  /** The requests after the first direct one failed: through the first ten
      proxies, then three direct requests. */
  method FetchAfterDirect(scholarId: string, request: (string, nat, Route) -> Response, proxies: seq<Proxy>)
    returns (html: Option<string>, attempts: nat)
    requires request(scholarId, 0, Direct).Failed?
    ensures html == FirstOk(Plan(proxies), scholarId, request, 0)
    ensures 1 <= attempts <= |Plan(proxies)|
    ensures html.Some? ==> request(scholarId, attempts - 1, Plan(proxies)[attempts - 1]) == Ok(html.value)
    ensures html.None? ==> attempts == |Plan(proxies)|
  {
    html, attempts := FetchThroughProxies(scholarId, request, proxies);
    if html.None? {
      html, attempts := RetryDirect(scholarId, request, proxies);
    }
  }

  /** The loop over the first ten proxies: the first success ends the fetch;
      otherwise every request so far failed. */
  method FetchThroughProxies(scholarId: string, request: (string, nat, Route) -> Response, proxies: seq<Proxy>)
    returns (html: Option<string>, attempts: nat)
    requires request(scholarId, 0, Direct).Failed?
    ensures 1 <= attempts <= 1 + Min(10, |proxies|)
    ensures html.Some? ==> (html == FirstOk(Plan(proxies), scholarId, request, 0) &&
                            request(scholarId, attempts - 1, Plan(proxies)[attempts - 1]) == Ok(html.value))
    ensures html.None? ==> (attempts == 1 + Min(10, |proxies|) &&
                            forall k :: 0 <= k < attempts ==> request(scholarId, k, Plan(proxies)[k]).Failed?)
  {
    ghost var plan := Plan(proxies);
    var tried := Take(proxies, 10);
    var n := 1;
    var i := 0;
    while i < |tried|
      invariant 0 <= i <= |tried| && n == 1 + i
      invariant forall k :: 0 <= k < n ==> request(scholarId, k, plan[k]).Failed?
    {
      PlanProxied(proxies, i);
      var result := request(scholarId, n, ViaProxy(tried[i]));
      if result.Ok? {
        FirstOkAfterFailures(plan, scholarId, request, n);
        return Some(result.data), n + 1;
      }
      n := n + 1;
      i := i + 1;
    }
    return None, n;
  }

  /** The three direct retries once every earlier request failed. */
  method RetryDirect(scholarId: string, request: (string, nat, Route) -> Response, proxies: seq<Proxy>)
    returns (html: Option<string>, attempts: nat)
    requires forall k :: 0 <= k < 1 + Min(10, |proxies|) ==> request(scholarId, k, Plan(proxies)[k]).Failed?
    ensures html == FirstOk(Plan(proxies), scholarId, request, 0)
    ensures 1 <= attempts <= |Plan(proxies)|
    ensures html.Some? ==> request(scholarId, attempts - 1, Plan(proxies)[attempts - 1]) == Ok(html.value)
    ensures html.None? ==> attempts == |Plan(proxies)|
  {
    ghost var plan := Plan(proxies);
    var n := 1 + Min(10, |proxies|);
    var j := 0;
    while j < 3
      invariant 0 <= j <= 3 && n == 1 + Min(10, |proxies|) + j
      invariant forall k :: 0 <= k < n ==> request(scholarId, k, plan[k]).Failed?
    {
      PlanDirectTail(proxies, j);
      var result := request(scholarId, n, Direct);
      if result.Ok? {
        FirstOkAfterFailures(plan, scholarId, request, n);
        return Some(result.data), n + 1;
      }
      n := n + 1;
      j := j + 1;
    }
    FirstOkSkips(plan, scholarId, request, 0, n);
    return None, n;
  }

  /** Failed requests from `i` up to `n` are passed over. */
  lemma {:induction false} FirstOkSkips(routes: seq<Route>, scholarId: string, request: (string, nat, Route) -> Response,
                                        i: nat, n: nat)
    requires i <= n <= |routes|
    requires forall k :: i <= k < n ==> request(scholarId, k, routes[k]).Failed?
    ensures FirstOk(routes, scholarId, request, i) == FirstOk(routes, scholarId, request, n)
    decreases n - i
  {
    if i < n {
      FirstOkSkips(routes, scholarId, request, i + 1, n);
    }
  }

  /** After failures up to `n`, a success at `n` is the result. */
  lemma FirstOkAfterFailures(routes: seq<Route>, scholarId: string, request: (string, nat, Route) -> Response, n: nat)
    requires n < |routes|
    requires forall k :: 0 <= k < n ==> request(scholarId, k, routes[k]).Failed?
    requires request(scholarId, n, routes[n]).Ok?
    ensures FirstOk(routes, scholarId, request, 0) == Some(request(scholarId, n, routes[n]).data)
  {
    FirstOkSkips(routes, scholarId, request, 0, n);
  }


  // ---------------------------------------------------------------------------
  // updateCitationsFromScholar (multi-method)
  // ---------------------------------------------------------------------------

  /** The run: the id lookup, the multi-method fetch (a `null` or empty page
      is a failed fetch), then the shared parse / update / save. */
  method Run(config: Config, pubs: Catalog, request: (string, nat, Route) -> Response,
             download: nat -> Option<string>, scan: string -> ProfileMatches, now: string)
    returns (outcome: Outcome)
    ensures ResolveScholarId(config) == IdMissing ==> outcome == NoScholarId
    ensures ResolveScholarId(config) == IdNotInUrl ==> outcome == NoIdInUrl
    ensures ResolveScholarId(config).ScholarId? ==>
      outcome == AfterFetch(pubs,
        OrEmpty(FirstOk(Plan(FreeProxies(download)), ResolveScholarId(config).id, request, 0)), scan, now)
  {
    var lookup := ResolveScholarId(config);
    if lookup == IdMissing {
      return NoScholarId;
    }
    if lookup == IdNotInUrl {
      return NoIdInUrl;
    }
    var profileHtml, _ := FetchScholarProfileMultiMethod(lookup.id, request, download, ParseProxyList);
    outcome := UpdateFromPage(pubs, OrEmpty(profileHtml), scan, now);
  }
}
