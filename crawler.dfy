/**
 * The breadth-first crawler of crawler.py: a FIFO queue of (url, depth)
 * targets, the set of visited URLs and the url -> depth map, the depth gate
 * of `enqueue_url`, the seeding from the sitemap (or the base URL), and the
 * `crawl` loop bounded by `max_pages`.
 *
 * The network and the parsers are oracles: the sitemap fetch and the page
 * fetch are functions from a URL to what the request produced, `urljoin`
 * and `urlparse` are functions, and the robots.txt rules are a predicate.
 */
module Crawler {

  import opened Wrappers
  import opened Urls

  /** A queue entry `(url, depth)`. */
  datatype Target = Target(url: Url, depth: int)

  // ---------------------------------------------------------------------
  // Sitemap

  /** What fetching the sitemap produced: a response with its status code and,
      when the body parsed as XML, the `<loc>` texts in document order; or an
      exception before any response arrived. */
  datatype SitemapFetch =
    | SitemapResponse(status: int, locs: Option<seq<Url>>)
    | SitemapError

  /** `get_sitemap_urls`: the `<loc>` list of a well-formed sitemap served with
      status 200, and the empty list on any other status, on a parse error
      and on a network error. */
  function GetSitemapUrls(fetched: SitemapFetch): (urls: seq<Url>)
    ensures fetched.SitemapResponse? && fetched.status == 200 && fetched.locs.Some? ==>
              urls == fetched.locs.value
    ensures fetched.SitemapError? ==> urls == []
    ensures fetched.SitemapResponse? && (fetched.status != 200 || fetched.locs.None?) ==> urls == []
  {
    match fetched
    case SitemapResponse(status, locs) =>
      if status == 200 && locs.Some? then locs.value else []
    case SitemapError => []
  }

  // ---------------------------------------------------------------------
  // robots.txt

  /** What reading robots.txt produced: the parser's verdict per
      (user agent, url), or an exception. */
  datatype RobotsTxt =
    | RobotsRead(rules: (string, Url) -> bool)
    | RobotsUnreadable

  /** `respect_robots_txt`: the permission check the crawler keeps. When
      robots.txt could not be read, every fetch is allowed. */
  function RespectRobotsTxt(robots: RobotsTxt): (canFetch: (string, Url) -> bool)
    ensures robots.RobotsUnreadable? ==> forall agent, url :: canFetch(agent, url)
    ensures robots.RobotsRead? ==>
              forall agent, url :: canFetch(agent, url) == robots.rules(agent, url)
  {
    match robots
    case RobotsRead(rules) => rules
    case RobotsUnreadable => (agent: string, url: Url) => true
  }

  // ---------------------------------------------------------------------
  // URL validity

  /** `WebCrawler.is_valid_url`: a URL with a scheme and a network location
      that robots.txt lets the wildcard agent fetch. The host is not compared
      with the base URL's. */
  predicate IsValidUrl(url: Url, urlparse: Url -> ParsedUrl, canFetch: (string, Url) -> bool)
    ensures urlparse(url).scheme == "" ==> !IsValidUrl(url, urlparse, canFetch)
    ensures urlparse(url).netloc == "" ==> !IsValidUrl(url, urlparse, canFetch)
    ensures !canFetch("*", url) ==> !IsValidUrl(url, urlparse, canFetch)
  {
    var parsed := urlparse(url);
    parsed.scheme != "" && parsed.netloc != "" && canFetch("*", url)
  }

  /** With robots.txt unreadable, validity is only a matter of form: any URL
      with a scheme and a host passes, whichever host it names. */
  lemma DegradedPolicyChecksOnlyForm(url: Url, urlparse: Url -> ParsedUrl)
    ensures IsValidUrl(url, urlparse, RespectRobotsTxt(RobotsUnreadable)) <==>
              urlparse(url).scheme != "" && urlparse(url).netloc != ""
  {
  }

  /** There is no same-domain check: with robots.txt read, two well-formed
      URLs on which its rules agree are equally valid, whatever hosts they
      name. */
  lemma NoSameDomainCheck(a: Url, b: Url, urlparse: Url -> ParsedUrl, rules: (string, Url) -> bool)
    requires urlparse(a).scheme != "" && urlparse(a).netloc != ""
    requires urlparse(b).scheme != "" && urlparse(b).netloc != ""
    requires rules("*", a) == rules("*", b)
    ensures IsValidUrl(a, urlparse, RespectRobotsTxt(RobotsRead(rules)))
            == IsValidUrl(b, urlparse, RespectRobotsTxt(RobotsRead(rules)))
  {
  }

  // ---------------------------------------------------------------------
  // Page fetch

  /** What fetching a page produced: a response with its status code and the
      `href` of every `<a href>` in document order, or an exception. */
  datatype PageFetch =
    | PageResponse(status: int, hrefs: seq<string>)
    | PageError

  // ---------------------------------------------------------------------
  // Specification functions for the queue

  /** The targets `enqueue_url` lets through, in order: those whose URL is not
      yet visited and whose depth is within `maxDepth`. */
  function Admit(targets: seq<Target>, visited: set<Url>, maxDepth: int): (r: seq<Target>)
    ensures |r| <= |targets|
  {
    if targets == [] then []
    else
      var last := targets[|targets| - 1];
      Admit(targets[..|targets| - 1], visited, maxDepth)
        + (if last.url !in visited && last.depth <= maxDepth then [last] else [])
  }

  /** Targets for a list of URLs, in order, all at the same depth. */
  function AtDepth(urls: seq<Url>, depth: int): (r: seq<Target>)
    ensures |r| == |urls|
  {
    if urls == [] then []
    else AtDepth(urls[..|urls| - 1], depth) + [Target(urls[|urls| - 1], depth)]
  }

  lemma {:induction false} AtDepthIndex(urls: seq<Url>, depth: int, i: nat)
    requires i < |urls|
    ensures AtDepth(urls, depth)[i] == Target(urls[i], depth)
  {
    if i < |urls| - 1 {
      AtDepthIndex(urls[..|urls| - 1], depth, i);
    }
  }

  /** The seeds: every sitemap URL at depth 0 when the sitemap gave any, and
      only the base URL at depth 0 otherwise. */
  function SeedTargets(sitemapUrls: seq<Url>, baseUrl: Url): (r: seq<Target>)
    ensures sitemapUrls != [] ==> r == AtDepth(sitemapUrls, 0)
    ensures sitemapUrls == [] ==> r == [Target(baseUrl, 0)]
  {
    if sitemapUrls != [] then AtDepth(sitemapUrls, 0) else [Target(baseUrl, 0)]
  }

  /** The links found on the page `current` at depth `depth`: each href
      resolved against the page with `urljoin`, kept when the resolved URL is
      valid, at depth `depth + 1`, in page order. */
  function Discovered(current: Url, depth: int, hrefs: seq<string>,
                      urljoin: (Url, string) -> Url,
                      urlparse: Url -> ParsedUrl, canFetch: (string, Url) -> bool): (r: seq<Target>)
    ensures |r| <= |hrefs|
  {
    if hrefs == [] then []
    else
      var link := urljoin(current, hrefs[|hrefs| - 1]);
      Discovered(current, depth, hrefs[..|hrefs| - 1], urljoin, urlparse, canFetch)
        + (if IsValidUrl(link, urlparse, canFetch) then [Target(link, depth + 1)] else [])
  }

  /** The URLs of a list of targets. */
  function UrlsOf(targets: seq<Target>): set<Url>
  {
    if targets == [] then {}
    else UrlsOf(targets[..|targets| - 1]) + {targets[|targets| - 1].url}
  }

  // ---------------------------------------------------------------------
  // Lemmas about the specification functions

  /** A target is admitted exactly when it is among the candidates, its URL
      is not visited and its depth is within the bound. */
  lemma {:induction false} AdmitMembers(targets: seq<Target>, visited: set<Url>, maxDepth: int, t: Target)
    ensures t in Admit(targets, visited, maxDepth) <==>
              t in targets && t.url !in visited && t.depth <= maxDepth
  {
    if targets != [] {
      var init := targets[..|targets| - 1];
      AdmitMembers(init, visited, maxDepth, t);
      assert targets == init + [targets[|targets| - 1]];
    }
  }

  /** Every discovered target is one hop deeper than its page, is valid, and
      is the resolution of one of the page's hrefs; and every href whose
      resolution is valid is discovered. */
  lemma {:induction false} DiscoveredMembers(current: Url, depth: int, hrefs: seq<string>,
                                             urljoin: (Url, string) -> Url,
                                             urlparse: Url -> ParsedUrl, canFetch: (string, Url) -> bool,
                                             t: Target)
    ensures t in Discovered(current, depth, hrefs, urljoin, urlparse, canFetch) <==>
              t.depth == depth + 1 && IsValidUrl(t.url, urlparse, canFetch) &&
              exists i :: 0 <= i < |hrefs| && t.url == urljoin(current, hrefs[i])
  {
    if hrefs != [] {
      var init := hrefs[..|hrefs| - 1];
      DiscoveredMembers(current, depth, init, urljoin, urlparse, canFetch, t);
      if exists i :: 0 <= i < |hrefs| && t.url == urljoin(current, hrefs[i]) {
        var i :| 0 <= i < |hrefs| && t.url == urljoin(current, hrefs[i]);
        if i < |init| {
          assert init[i] == hrefs[i];
        }
      }
      if exists i :: 0 <= i < |init| && t.url == urljoin(current, init[i]) {
        var i :| 0 <= i < |init| && t.url == urljoin(current, init[i]);
        assert hrefs[i] == init[i];
      }
    }
  }

  /** Extending the hrefs by one decides one more link. */
  lemma DiscoveredStep(current: Url, depth: int, hrefs: seq<string>, i: nat,
                       urljoin: (Url, string) -> Url,
                       urlparse: Url -> ParsedUrl, canFetch: (string, Url) -> bool)
    requires i < |hrefs|
    ensures var link := urljoin(current, hrefs[i]);
            Discovered(current, depth, hrefs[..i + 1], urljoin, urlparse, canFetch)
            == Discovered(current, depth, hrefs[..i], urljoin, urlparse, canFetch)
               + (if IsValidUrl(link, urlparse, canFetch) then [Target(link, depth + 1)] else [])
  {
    assert hrefs[..i + 1][..i] == hrefs[..i];
  }

  /** A list of targets has at most as many distinct URLs as entries. */
  lemma {:induction false} UrlsOfSize(targets: seq<Target>)
    ensures |UrlsOf(targets)| <= |targets|
  {
    if targets != [] {
      UrlsOfSize(targets[..|targets| - 1]);
    }
  }

  /** No URL occurs twice among the targets. */
  ghost predicate NoRepeatedUrl(targets: seq<Target>)
  {
    forall i, j :: 0 <= i < j < |targets| ==> targets[i].url != targets[j].url
  }

  /** A list of targets has as many distinct URLs as entries exactly when
      no URL occurs in it twice. */
  lemma {:induction false} DistinctUrls(targets: seq<Target>)
    ensures |UrlsOf(targets)| == |targets| <==> NoRepeatedUrl(targets)
  {
    if targets != [] {
      var init, last := targets[..|targets| - 1], targets[|targets| - 1];
      DistinctUrls(init);
      UrlsOfSize(init);
      UrlsOfMembers(init, last.url);
      assert forall i :: 0 <= i < |init| ==> init[i] == targets[i];
      if NoRepeatedUrl(targets) {
        assert NoRepeatedUrl(init);
        assert last.url !in UrlsOf(init);
      }
      if NoRepeatedUrl(init) && last.url !in UrlsOf(init) {
        assert NoRepeatedUrl(targets);
      }
    }
  }

  lemma {:induction false} UrlsOfMembers(targets: seq<Target>, u: Url)
    ensures u in UrlsOf(targets) <==> exists i :: 0 <= i < |targets| && targets[i].url == u
  {
    if targets != [] {
      var init := targets[..|targets| - 1];
      UrlsOfMembers(init, u);
      if exists i :: 0 <= i < |init| && init[i].url == u {
        var i :| 0 <= i < |init| && init[i].url == u;
        assert targets[i] == init[i];
      }
      if exists i :: 0 <= i < |targets| && targets[i].url == u {
        var i :| 0 <= i < |targets| && targets[i].url == u;
        if i < |init| {
          assert init[i] == targets[i];
        }
      }
    }
  }

  /** One more candidate offered to `enqueue_url`: it extends the queue
      and the depth map exactly when it is admitted. */
  lemma EnqueueStep(queue0: seq<Target>, queue: seq<Target>, depthMap0: map<Url, int>, depthMap: map<Url, int>,
                    targets: seq<Target>, t: Target, visited: set<Url>, maxDepth: int)
    requires queue == queue0 + Admit(targets, visited, maxDepth)
    requires depthMap == Record(depthMap0, Admit(targets, visited, maxDepth))
    ensures var admitted := Admit(targets + [t], visited, maxDepth);
            if t.url !in visited && t.depth <= maxDepth then
              queue + [t] == queue0 + admitted && depthMap[t.url := t.depth] == Record(depthMap0, admitted)
            else
              queue == queue0 + admitted && depthMap == Record(depthMap0, admitted)
  {
    var admitted := Admit(targets, visited, maxDepth);
    AdmitSnoc(targets, t, visited, maxDepth);
    if t.url !in visited && t.depth <= maxDepth {
      RecordSnoc(depthMap0, admitted, t);
      assert queue0 + (admitted + [t]) == queue0 + admitted + [t];
    } else {
      assert admitted + [] == admitted;
    }
  }

  /** One more href handled by the link loop: a valid link is discovered
      and offered to `enqueue_url`, which extends the queue and the depth
      map exactly when it admits it; an invalid one changes nothing. */
  lemma LinkStep(queue0: seq<Target>, queue: seq<Target>, depthMap0: map<Url, int>, depthMap: map<Url, int>,
                 current: Url, depth: int, hrefs: seq<string>, i: nat, urljoin: (Url, string) -> Url,
                 urlparse: Url -> ParsedUrl, canFetch: (string, Url) -> bool,
                 visited: set<Url>, maxDepth: int)
    requires i < |hrefs|
    requires queue == queue0 + Admit(Discovered(current, depth, hrefs[..i], urljoin, urlparse, canFetch), visited, maxDepth)
    requires depthMap == Record(depthMap0, Admit(Discovered(current, depth, hrefs[..i], urljoin, urlparse, canFetch), visited, maxDepth))
    ensures var link := urljoin(current, hrefs[i]);
            var admitted := Admit(Discovered(current, depth, hrefs[..i + 1], urljoin, urlparse, canFetch), visited, maxDepth);
            if IsValidUrl(link, urlparse, canFetch) && link !in visited && depth + 1 <= maxDepth then
              queue + [Target(link, depth + 1)] == queue0 + admitted
              && depthMap[link := depth + 1] == Record(depthMap0, admitted)
            else
              queue == queue0 + admitted && depthMap == Record(depthMap0, admitted)
    ensures var link := urljoin(current, hrefs[i]);
            |Discovered(current, depth, hrefs[..i + 1], urljoin, urlparse, canFetch)|
            == |Discovered(current, depth, hrefs[..i], urljoin, urlparse, canFetch)| +
               if IsValidUrl(link, urlparse, canFetch) then 1 else 0
  {
    var link := urljoin(current, hrefs[i]);
    var found := Discovered(current, depth, hrefs[..i], urljoin, urlparse, canFetch);
    DiscoveredStep(current, depth, hrefs, i, urljoin, urlparse, canFetch);
    if IsValidUrl(link, urlparse, canFetch) {
      EnqueueStep(queue0, queue, depthMap0, depthMap, found, Target(link, depth + 1), visited, maxDepth);
    } else {
      assert found + [] == found;
    }
  }

  /** Crawling URLs that were unvisited and pairwise distinct adds one
      visited URL per crawled target. */
  lemma CrawledCount(visited0: set<Url>, fetched: seq<Target>)
    requires forall i :: 0 <= i < |fetched| ==> fetched[i].url !in visited0
    requires NoRepeatedUrl(fetched)
    ensures |visited0 + UrlsOf(fetched)| == |visited0| + |fetched|
  {
    DistinctUrls(fetched);
    forall u | u in UrlsOf(fetched)
      ensures u !in visited0
    {
      UrlsOfMembers(fetched, u);
    }
    assert visited0 !! UrlsOf(fetched);
  }

  /** The depth map after `enqueue_url` has recorded each of `targets` in
      turn: a later entry for a URL overwrites an earlier one. */
  function Record(depthMap: map<Url, int>, targets: seq<Target>): (r: map<Url, int>)
    ensures targets != [] ==> targets[|targets| - 1].url in r && r[targets[|targets| - 1].url] == targets[|targets| - 1].depth
  {
    if targets == [] then depthMap
    else
      var t := targets[|targets| - 1];
      Record(depthMap, targets[..|targets| - 1])[t.url := t.depth]
  }

  /** Recording adds exactly the URLs of the targets to the depth map and
      leaves the entry of every other URL as it was. */
  lemma {:induction false} RecordKeys(depthMap: map<Url, int>, targets: seq<Target>)
    ensures Record(depthMap, targets).Keys == depthMap.Keys + UrlsOf(targets)
    ensures forall u :: u in depthMap && u !in UrlsOf(targets) ==> Record(depthMap, targets)[u] == depthMap[u]
    decreases |targets|
  {
    if targets != [] {
      RecordKeys(depthMap, targets[..|targets| - 1]);
    }
  }

  /** Recording one more target overwrites the entry for its URL. */
  lemma RecordSnoc(depthMap: map<Url, int>, targets: seq<Target>, t: Target)
    ensures Record(depthMap, targets + [t]) == Record(depthMap, targets)[t.url := t.depth]
  {
    assert (targets + [t])[..|targets|] == targets;
  }

  /** One more candidate is admitted or not on its own merits. */
  lemma AdmitSnoc(targets: seq<Target>, t: Target, visited: set<Url>, maxDepth: int)
    ensures Admit(targets + [t], visited, maxDepth)
            == Admit(targets, visited, maxDepth) + if t.url !in visited && t.depth <= maxDepth then [t] else []
  {
    assert (targets + [t])[..|targets|] == targets;
  }

  /** Admission is decided target by target, so it distributes over
      concatenation and keeps the order of the targets. */
  lemma {:induction false} AdmitAppend(a: seq<Target>, b: seq<Target>, visited: set<Url>, maxDepth: int)
    ensures Admit(a + b, visited, maxDepth) == Admit(a, visited, maxDepth) + Admit(b, visited, maxDepth)
    decreases |b|
  {
    if b == [] {
      assert a + b == a;
    } else {
      var b' := b[..|b| - 1];
      assert (a + b)[..|a + b| - 1] == a + b';
      AdmitAppend(a, b', visited, maxDepth);
    }
  }

  /** Targets that are all unvisited and within the depth bound are all
      admitted, duplicates included. */
  lemma {:induction false} AdmitAll(targets: seq<Target>, visited: set<Url>, maxDepth: int)
    requires forall i :: 0 <= i < |targets| ==> targets[i].url !in visited && targets[i].depth <= maxDepth
    ensures Admit(targets, visited, maxDepth) == targets
  {
    if targets != [] {
      AdmitAll(targets[..|targets| - 1], visited, maxDepth);
    }
  }

  /** A fresh crawler with a non-negative depth bound seeds exactly the
      sitemap URLs, in sitemap order, at depth 0, and the base URL only when
      the sitemap gave nothing. */
  lemma FreshSeeding(sitemapUrls: seq<Url>, baseUrl: Url, maxDepth: int)
    requires 0 <= maxDepth
    ensures sitemapUrls != [] ==>
              Admit(SeedTargets(sitemapUrls, baseUrl), {}, maxDepth) == AtDepth(sitemapUrls, 0)
    ensures sitemapUrls == [] ==>
              Admit(SeedTargets(sitemapUrls, baseUrl), {}, maxDepth) == [Target(baseUrl, 0)]
  {
    var seeds := SeedTargets(sitemapUrls, baseUrl);
    forall i | 0 <= i < |seeds| ensures seeds[i].depth == 0 {
      if sitemapUrls != [] {
        AtDepthIndex(sitemapUrls, 0, i);
      }
    }
    AdmitAll(seeds, {}, maxDepth);
  }

  /** `enqueue_url` does not look at the queue: a page linking twice to the
      same unvisited URL puts it on the queue twice (the second entry is
      skipped when dequeued, since by then the URL is visited). */
  lemma DuplicateLinkQueuedTwice(current: Url, depth: int, ha: string, hb: string,
                                 urljoin: (Url, string) -> Url,
                                 urlparse: Url -> ParsedUrl, canFetch: (string, Url) -> bool,
                                 visited: set<Url>, maxDepth: int)
    requires IsValidUrl(urljoin(current, ha), urlparse, canFetch)
    requires IsValidUrl(urljoin(current, hb), urlparse, canFetch)
    requires urljoin(current, ha) !in visited && urljoin(current, hb) !in visited
    requires depth + 1 <= maxDepth
    ensures Admit(Discovered(current, depth, [ha, hb, ha], urljoin, urlparse, canFetch), visited, maxDepth)
            == [Target(urljoin(current, ha), depth + 1), Target(urljoin(current, hb), depth + 1),
                Target(urljoin(current, ha), depth + 1)]
  {
    var ta, tb := Target(urljoin(current, ha), depth + 1), Target(urljoin(current, hb), depth + 1);
    assert [ha, hb, ha][..2] == [ha, hb];
    assert [ha, hb][..1] == [ha];
    assert [ha][..0] == [];
    assert Discovered(current, depth, [ha], urljoin, urlparse, canFetch) == [ta];
    assert Discovered(current, depth, [ha, hb], urljoin, urlparse, canFetch) == [ta, tb];
    assert Discovered(current, depth, [ha, hb, ha], urljoin, urlparse, canFetch) == [ta, tb, ta];
    AdmitAll([ta, tb, ta], visited, maxDepth);
  }

  // ---------------------------------------------------------------------
  // The main loop as a function

  /** The state a run of the main loop ends in: the targets crawled, in
      order, the queue left over and the visited set. */
  datatype Run = Run(trace: seq<Target>, queue: seq<Target>, visited: set<Url>)

  /** What a crawled page adds to the queue: its admitted valid links one
      level deeper when it was served with status 200, nothing otherwise
      (another status, or an exception). */
  function Followed(t: Target, response: PageFetch, visited: set<Url>, maxDepth: int,
                    urljoin: (Url, string) -> Url,
                    urlparse: Url -> ParsedUrl, canFetch: (string, Url) -> bool): seq<Target>
  {
    if response.PageResponse? && response.status == 200 then
      Admit(Discovered(t.url, t.depth, response.hrefs, urljoin, urlparse, canFetch), visited, maxDepth)
    else []
  }

  /** The `while` loop of `crawl` from `queue` and `visited`, with `budget`
      pages left: it stops on an empty queue or an exhausted budget, drops a
      target whose URL is visited without spending budget, and otherwise
      marks the URL visited, spends one page, records the target and queues
      what the page yields. */
  function Drain(queue: seq<Target>, visited: set<Url>, budget: int, maxDepth: int,
                 fetch: Url -> PageFetch, urljoin: (Url, string) -> Url,
                 urlparse: Url -> ParsedUrl, canFetch: (string, Url) -> bool): Run
    decreases if budget < 0 then 0 else budget, |queue|
  {
    if queue == [] || budget <= 0 then Run([], queue, visited)
    else
      var t := queue[0];
      if t.url in visited then
        Drain(queue[1..], visited, budget, maxDepth, fetch, urljoin, urlparse, canFetch)
      else
        var visited' := visited + {t.url};
        var queue' := queue[1..] + Followed(t, fetch(t.url), visited', maxDepth, urljoin, urlparse, canFetch);
        var rest := Drain(queue', visited', budget - 1, maxDepth, fetch, urljoin, urlparse, canFetch);
        Run([t] + rest.trace, rest.queue, rest.visited)
  }

  /** One step of the run: an unvisited head is crawled before the rest of
      the run, from the queue extended by what its page yields. */
  lemma DrainTake(queue: seq<Target>, visited: set<Url>, budget: int, maxDepth: int,
                  fetch: Url -> PageFetch, urljoin: (Url, string) -> Url,
                  urlparse: Url -> ParsedUrl, canFetch: (string, Url) -> bool)
    requires queue != [] && budget > 0 && queue[0].url !in visited
    ensures var t := queue[0];
            var visited' := visited + {t.url};
            var rest := Drain(queue[1..] + Followed(t, fetch(t.url), visited', maxDepth, urljoin, urlparse, canFetch),
                              visited', budget - 1, maxDepth, fetch, urljoin, urlparse, canFetch);
            Drain(queue, visited, budget, maxDepth, fetch, urljoin, urlparse, canFetch)
            == Run([t] + rest.trace, rest.queue, rest.visited)
  {
  }

  /** A target at the head of the queue whose URL is already visited is
      dropped: the run is the run from the rest of the queue, with the same
      budget. */
  lemma StaleEntrySkipped(queue: seq<Target>, visited: set<Url>, budget: int, maxDepth: int,
                          fetch: Url -> PageFetch, urljoin: (Url, string) -> Url,
                          urlparse: Url -> ParsedUrl, canFetch: (string, Url) -> bool)
    requires queue != [] && queue[0].url in visited
    ensures Drain(queue, visited, budget, maxDepth, fetch, urljoin, urlparse, canFetch)
            == if budget <= 0 then Run([], queue, visited)
               else Drain(queue[1..], visited, budget, maxDepth, fetch, urljoin, urlparse, canFetch)
  {
  }

  /** The run resumes after one iteration of the loop: with `prefix`
      crawled so far, the run from before the iteration and the run from
      after it end in the same state. */
  lemma DrainResume(prefix: seq<Target>, queue: seq<Target>, visited: set<Url>, budget: int,
                    prefix': seq<Target>, queue': seq<Target>, visited': set<Url>, budget': int,
                    maxDepth: int, fetch: Url -> PageFetch, urljoin: (Url, string) -> Url,
                    urlparse: Url -> ParsedUrl, canFetch: (string, Url) -> bool)
    requires queue != [] && budget > 0
    requires queue[0].url !in visited ==>
               && visited' == visited + {queue[0].url}
               && queue' == queue[1..] + Followed(queue[0], fetch(queue[0].url), visited', maxDepth, urljoin, urlparse, canFetch)
               && budget' == budget - 1
               && prefix' == prefix + [queue[0]]
    requires queue[0].url in visited ==> visited' == visited && queue' == queue[1..] && budget' == budget && prefix' == prefix
    ensures var before := Drain(queue, visited, budget, maxDepth, fetch, urljoin, urlparse, canFetch);
            var after := Drain(queue', visited', budget', maxDepth, fetch, urljoin, urlparse, canFetch);
            Run(prefix + before.trace, before.queue, before.visited) == Run(prefix' + after.trace, after.queue, after.visited)
  {
    if queue[0].url in visited {
      StaleEntrySkipped(queue, visited, budget, maxDepth, fetch, urljoin, urlparse, canFetch);
    } else {
      DrainTake(queue, visited, budget, maxDepth, fetch, urljoin, urlparse, canFetch);
      var after := Drain(queue', visited', budget', maxDepth, fetch, urljoin, urlparse, canFetch);
      assert prefix + ([queue[0]] + after.trace) == prefix + [queue[0]] + after.trace;
    }
  }

  /** The run crawls at most `budget` pages, and it ends with an empty queue
      unless it spent the whole budget. */
  lemma {:induction false} DrainBudget(queue: seq<Target>, visited: set<Url>, budget: int, maxDepth: int,
                                       fetch: Url -> PageFetch, urljoin: (Url, string) -> Url,
                                       urlparse: Url -> ParsedUrl, canFetch: (string, Url) -> bool)
    ensures var run := Drain(queue, visited, budget, maxDepth, fetch, urljoin, urlparse, canFetch);
            |run.trace| <= (if budget < 0 then 0 else budget) && (run.queue == [] || |run.trace| >= budget)
    decreases if budget < 0 then 0 else budget, |queue|
  {
    if queue != [] && budget > 0 {
      var t := queue[0];
      if t.url in visited {
        StaleEntrySkipped(queue, visited, budget, maxDepth, fetch, urljoin, urlparse, canFetch);
        DrainBudget(queue[1..], visited, budget, maxDepth, fetch, urljoin, urlparse, canFetch);
      } else {
        DrainTake(queue, visited, budget, maxDepth, fetch, urljoin, urlparse, canFetch);
        var visited' := visited + {t.url};
        var queue' := queue[1..] + Followed(t, fetch(t.url), visited', maxDepth, urljoin, urlparse, canFetch);
        DrainBudget(queue', visited', budget - 1, maxDepth, fetch, urljoin, urlparse, canFetch);
      }
    }
  }

  /** Every crawled URL was unvisited when the run started and no URL is
      crawled twice. */
  lemma {:induction false} DrainFresh(queue: seq<Target>, visited: set<Url>, budget: int, maxDepth: int,
                                      fetch: Url -> PageFetch, urljoin: (Url, string) -> Url,
                                      urlparse: Url -> ParsedUrl, canFetch: (string, Url) -> bool)
    ensures var run := Drain(queue, visited, budget, maxDepth, fetch, urljoin, urlparse, canFetch);
            && (forall i :: 0 <= i < |run.trace| ==> run.trace[i].url !in visited)
            && NoRepeatedUrl(run.trace)
    decreases if budget < 0 then 0 else budget, |queue|
  {
    if queue != [] && budget > 0 {
      var t := queue[0];
      if t.url in visited {
        StaleEntrySkipped(queue, visited, budget, maxDepth, fetch, urljoin, urlparse, canFetch);
        DrainFresh(queue[1..], visited, budget, maxDepth, fetch, urljoin, urlparse, canFetch);
      } else {
        DrainTake(queue, visited, budget, maxDepth, fetch, urljoin, urlparse, canFetch);
        var visited' := visited + {t.url};
        var queue' := queue[1..] + Followed(t, fetch(t.url), visited', maxDepth, urljoin, urlparse, canFetch);
        var rest := Drain(queue', visited', budget - 1, maxDepth, fetch, urljoin, urlparse, canFetch).trace;
        DrainFresh(queue', visited', budget - 1, maxDepth, fetch, urljoin, urlparse, canFetch);
        var trace := [t] + rest;
        assert forall i :: 1 <= i < |trace| ==> trace[i] == rest[i - 1];
        assert forall i :: 0 <= i < |trace| ==> trace[i].url !in visited;
      }
    }
  }

  /** The visited set ends as the initial one plus the crawled URLs. */
  lemma {:induction false} DrainVisited(queue: seq<Target>, visited: set<Url>, budget: int, maxDepth: int,
                                        fetch: Url -> PageFetch, urljoin: (Url, string) -> Url,
                                        urlparse: Url -> ParsedUrl, canFetch: (string, Url) -> bool)
    ensures Drain(queue, visited, budget, maxDepth, fetch, urljoin, urlparse, canFetch).visited
            == visited + UrlsOf(Drain(queue, visited, budget, maxDepth, fetch, urljoin, urlparse, canFetch).trace)
    decreases if budget < 0 then 0 else budget, |queue|
  {
    if queue != [] && budget > 0 {
      var t := queue[0];
      if t.url in visited {
        StaleEntrySkipped(queue, visited, budget, maxDepth, fetch, urljoin, urlparse, canFetch);
        DrainVisited(queue[1..], visited, budget, maxDepth, fetch, urljoin, urlparse, canFetch);
      } else {
        DrainTake(queue, visited, budget, maxDepth, fetch, urljoin, urlparse, canFetch);
        var visited' := visited + {t.url};
        var queue' := queue[1..] + Followed(t, fetch(t.url), visited', maxDepth, urljoin, urlparse, canFetch);
        var rest := Drain(queue', visited', budget - 1, maxDepth, fetch, urljoin, urlparse, canFetch);
        DrainVisited(queue', visited', budget - 1, maxDepth, fetch, urljoin, urlparse, canFetch);
        assert rest.visited == visited' + UrlsOf(rest.trace);
        UrlsOfCons(t, rest.trace);
        assert visited + UrlsOf([t] + rest.trace) == visited' + UrlsOf(rest.trace);
      }
    }
  }

  /** The URLs of a target followed by more targets. */
  lemma {:induction false} UrlsOfCons(t: Target, targets: seq<Target>)
    ensures UrlsOf([t] + targets) == {t.url} + UrlsOf(targets)
    decreases |targets|
  {
    if targets == [] {
      assert [t] + targets == [t];
    } else {
      var init := targets[..|targets| - 1];
      UrlsOfCons(t, init);
      assert ([t] + targets)[..|targets|] == [t] + init;
    }
  }

  /** When every queued target is within the depth bound, so is every
      crawled target and every target left on the queue. */
  lemma {:induction false} DrainDepth(queue: seq<Target>, visited: set<Url>, budget: int, maxDepth: int,
                                      fetch: Url -> PageFetch, urljoin: (Url, string) -> Url,
                                      urlparse: Url -> ParsedUrl, canFetch: (string, Url) -> bool)
    requires forall i :: 0 <= i < |queue| ==> queue[i].depth <= maxDepth
    ensures var run := Drain(queue, visited, budget, maxDepth, fetch, urljoin, urlparse, canFetch);
            && (forall i :: 0 <= i < |run.trace| ==> run.trace[i].depth <= maxDepth)
            && (forall i :: 0 <= i < |run.queue| ==> run.queue[i].depth <= maxDepth)
    decreases if budget < 0 then 0 else budget, |queue|
  {
    if queue != [] && budget > 0 {
      var t := queue[0];
      if t.url in visited {
        StaleEntrySkipped(queue, visited, budget, maxDepth, fetch, urljoin, urlparse, canFetch);
        DrainDepth(queue[1..], visited, budget, maxDepth, fetch, urljoin, urlparse, canFetch);
      } else {
        DrainTake(queue, visited, budget, maxDepth, fetch, urljoin, urlparse, canFetch);
        var visited' := visited + {t.url};
        var follow := Followed(t, fetch(t.url), visited', maxDepth, urljoin, urlparse, canFetch);
        forall i | 0 <= i < |follow|
          ensures follow[i].depth <= maxDepth
        {
          var hrefs := fetch(t.url).hrefs;
          AdmitMembers(Discovered(t.url, t.depth, hrefs, urljoin, urlparse, canFetch), visited', maxDepth, follow[i]);
        }
        var queue' := queue[1..] + follow;
        DrainDepth(queue', visited', budget - 1, maxDepth, fetch, urljoin, urlparse, canFetch);
      }
    }
  }

  /** What the run guarantees, starting from a queue within the depth
      bound: at most `budget` pages are crawled and the run stops early only
      on an empty queue; the crawled URLs were unvisited, are pairwise
      distinct and within the depth bound, so the visited set grows by
      exactly them, one URL per page. */
  lemma DrainSummary(queue: seq<Target>, visited: set<Url>, budget: int, maxDepth: int,
                     fetch: Url -> PageFetch, urljoin: (Url, string) -> Url,
                     urlparse: Url -> ParsedUrl, canFetch: (string, Url) -> bool)
    requires forall i :: 0 <= i < |queue| ==> queue[i].depth <= maxDepth
    ensures var run := Drain(queue, visited, budget, maxDepth, fetch, urljoin, urlparse, canFetch);
            && |run.trace| <= (if budget < 0 then 0 else budget)
            && (run.queue == [] || |run.trace| >= budget)
            && (forall i :: 0 <= i < |run.trace| ==> run.trace[i].url !in visited && run.trace[i].depth <= maxDepth)
            && NoRepeatedUrl(run.trace)
            && run.visited == visited + UrlsOf(run.trace)
            && |run.visited| == |visited| + |run.trace|
            && (visited == {} ==> |run.visited| <= if budget < 0 then 0 else budget)
  {
    var run := Drain(queue, visited, budget, maxDepth, fetch, urljoin, urlparse, canFetch);
    DrainBudget(queue, visited, budget, maxDepth, fetch, urljoin, urlparse, canFetch);
    DrainFresh(queue, visited, budget, maxDepth, fetch, urljoin, urlparse, canFetch);
    DrainVisited(queue, visited, budget, maxDepth, fetch, urljoin, urlparse, canFetch);
    DrainDepth(queue, visited, budget, maxDepth, fetch, urljoin, urlparse, canFetch);
    CrawledCount(visited, run.trace);
  }

  /** A target at the head of the queue whose URL is unvisited is crawled,
      and counted, whatever its fetch produces: a status other than 200 or
      an exception only means that the page adds nothing to the queue. */
  lemma FailedFetchIsCrawled(queue: seq<Target>, visited: set<Url>, budget: int, maxDepth: int,
                             fetch: Url -> PageFetch, urljoin: (Url, string) -> Url,
                             urlparse: Url -> ParsedUrl, canFetch: (string, Url) -> bool)
    requires queue != [] && budget > 0 && queue[0].url !in visited
    requires fetch(queue[0].url).PageError? || fetch(queue[0].url).status != 200
    ensures var run := Drain(queue, visited, budget, maxDepth, fetch, urljoin, urlparse, canFetch);
            var rest := Drain(queue[1..], visited + {queue[0].url}, budget - 1, maxDepth, fetch, urljoin, urlparse, canFetch);
            run.trace == [queue[0]] + rest.trace && run.visited == rest.visited && queue[0].url in run.visited
  {
    assert queue[1..] + [] == queue[1..];
    DrainTake(queue, visited, budget, maxDepth, fetch, urljoin, urlparse, canFetch);
    DrainVisited(queue[1..], visited + {queue[0].url}, budget - 1, maxDepth, fetch, urljoin, urlparse, canFetch);
  }

  // ---------------------------------------------------------------------
  // The crawler

  class WebCrawler {

    const baseUrl: Url
    const maxDepth: int
    /** The robots.txt permission check chosen at construction. */
    const canFetch: (string, Url) -> bool
    /** `urllib.parse.urlparse`, supplied from outside. */
    const urlparse: Url -> ParsedUrl

    var visitedUrls: set<Url>
    var queue: seq<Target>
    var depthMap: map<Url, int>

    /** Every queued target is within the depth bound and has its URL in the
        depth map, and no recorded depth exceeds the bound. */
    ghost predicate Valid()
      reads this
    {
      && (forall i :: 0 <= i < |queue| ==> queue[i].depth <= maxDepth && queue[i].url in depthMap)
      && (forall u :: u in depthMap ==> depthMap[u] <= maxDepth)
    }

    constructor (baseUrl: Url, robots: RobotsTxt, urlparse: Url -> ParsedUrl, maxDepth: int := 3)
      ensures Valid()
      ensures this.baseUrl == baseUrl && this.maxDepth == maxDepth && this.urlparse == urlparse
      ensures canFetch == RespectRobotsTxt(robots)
      ensures visitedUrls == {} && queue == [] && depthMap == map[]
    {
      this.baseUrl := baseUrl;
      this.maxDepth := maxDepth;
      this.canFetch := RespectRobotsTxt(robots);
      this.urlparse := urlparse;
      visitedUrls := {};
      queue := [];
      depthMap := map[];
    }

    /** `enqueue_url`: appends `(url, depth)` and records the depth unless the
        URL is already visited or the depth exceeds the bound. The queue is
        not consulted, so a URL may be queued more than once. */
    method EnqueueUrl(url: Url, depth: int)
      requires Valid()
      modifies this
      ensures Valid()
      ensures visitedUrls == old(visitedUrls)
      ensures queue == old(queue) + if url !in visitedUrls && depth <= maxDepth then [Target(url, depth)] else []
      ensures depthMap == if url !in visitedUrls && depth <= maxDepth then old(depthMap)[url := depth] else old(depthMap)
    {
      if url !in visitedUrls && depth <= maxDepth {
        queue := queue + [Target(url, depth)];
        depthMap := depthMap[url := depth];
      }
    }

    /** The `for` loop of the seeding step: every URL through `EnqueueUrl`
        at `depth`, in order. */
    method EnqueueAll(urls: seq<Url>, depth: int)
      requires Valid()
      modifies this
      ensures Valid()
      ensures visitedUrls == old(visitedUrls)
      ensures queue == old(queue) + Admit(AtDepth(urls, depth), visitedUrls, maxDepth)
      ensures depthMap == Record(old(depthMap), Admit(AtDepth(urls, depth), visitedUrls, maxDepth))
    {
      ghost var targets := AtDepth(urls, depth);
      for i := 0 to |urls|
        invariant Valid()
        invariant visitedUrls == old(visitedUrls)
        invariant queue == old(queue) + Admit(targets[..i], visitedUrls, maxDepth)
        invariant depthMap == Record(old(depthMap), Admit(targets[..i], visitedUrls, maxDepth))
      {
        AtDepthIndex(urls, depth, i);
        assert targets[..i + 1] == targets[..i] + [Target(urls[i], depth)];
        EnqueueStep(old(queue), queue, old(depthMap), depthMap, targets[..i], Target(urls[i], depth),
                    visitedUrls, maxDepth);
        EnqueueUrl(urls[i], depth);
      }
      assert targets[..|urls|] == targets;
    }

    /** The seeding step of `crawl`: every sitemap URL through `EnqueueUrl`
        at depth 0 when the sitemap gave any, otherwise the base URL alone. */
    method SeedFrontier(sitemapUrls: seq<Url>)
      requires Valid()
      modifies this
      ensures Valid()
      ensures visitedUrls == old(visitedUrls)
      ensures queue == old(queue) + Admit(SeedTargets(sitemapUrls, baseUrl), visitedUrls, maxDepth)
      ensures depthMap == Record(old(depthMap), Admit(SeedTargets(sitemapUrls, baseUrl), visitedUrls, maxDepth))
    {
      if sitemapUrls == [] {
        EnqueueUrl(baseUrl, 0);
        RecordSnoc(old(depthMap), [], Target(baseUrl, 0));
        assert [] + [Target(baseUrl, 0)] == [Target(baseUrl, 0)];
      } else {
        EnqueueAll(sitemapUrls, 0);
      }
    }

    /** One iteration of the link loop of `crawl`: the href is resolved
        against the page and, when the result is a valid URL, enqueued at
        `depth + 1`; `valid` tells whether it was. */
    method HandleLink(current: Url, depth: int, href: string, urljoin: (Url, string) -> Url)
      returns (valid: bool)
      requires Valid()
      modifies this
      ensures Valid()
      ensures visitedUrls == old(visitedUrls)
      ensures valid == IsValidUrl(urljoin(current, href), urlparse, canFetch)
      ensures var link := urljoin(current, href);
              queue == old(queue) +
                if valid && link !in visitedUrls && depth + 1 <= maxDepth then [Target(link, depth + 1)] else []
      ensures var link := urljoin(current, href);
              depthMap ==
                if valid && link !in visitedUrls && depth + 1 <= maxDepth then old(depthMap)[link := depth + 1]
                else old(depthMap)
    {
      var absoluteLink := urljoin(current, href);
      valid := IsValidUrl(absoluteLink, urlparse, canFetch);
      if valid {
        EnqueueUrl(absoluteLink, depth + 1);
      } else {
        assert queue + [] == queue;
      }
    }

    /** The link loop of `crawl` for a page fetched with status 200: each
        href is resolved against the page and, when valid, enqueued at
        `depth + 1`. */
    method ProcessLinks(current: Url, depth: int, hrefs: seq<string>, urljoin: (Url, string) -> Url)
      returns (linksFound: nat)
      requires Valid()
      modifies this
      ensures Valid()
      ensures visitedUrls == old(visitedUrls)
      ensures queue == old(queue) +
                Admit(Discovered(current, depth, hrefs, urljoin, urlparse, canFetch), visitedUrls, maxDepth)
      ensures depthMap == Record(old(depthMap),
                Admit(Discovered(current, depth, hrefs, urljoin, urlparse, canFetch), visitedUrls, maxDepth))
      ensures linksFound == |Discovered(current, depth, hrefs, urljoin, urlparse, canFetch)|
    {
      linksFound := 0;
      for i := 0 to |hrefs|
        invariant Valid()
        invariant visitedUrls == old(visitedUrls)
        invariant queue == old(queue) +
                    Admit(Discovered(current, depth, hrefs[..i], urljoin, urlparse, canFetch), visitedUrls, maxDepth)
        invariant depthMap == Record(old(depthMap),
                    Admit(Discovered(current, depth, hrefs[..i], urljoin, urlparse, canFetch), visitedUrls, maxDepth))
        invariant linksFound == |Discovered(current, depth, hrefs[..i], urljoin, urlparse, canFetch)|
      {
        LinkStep(old(queue), queue, old(depthMap), depthMap, current, depth, hrefs, i, urljoin, urlparse, canFetch,
                 visitedUrls, maxDepth);
        var valid := HandleLink(current, depth, hrefs[i], urljoin);
        if valid {
          linksFound := linksFound + 1;
        }
      }
      assert hrefs[..|hrefs|] == hrefs;
    }

    /** One iteration of the main loop of `crawl`: the head of the queue is
        taken off; when its URL is unvisited it is marked visited and
        fetched, and the links of a page served with status 200 are
        enqueued one level deeper. `crawled` tells whether the URL was
        unvisited, that is whether the page counts. */
    method CrawlNext(fetch: Url -> PageFetch, urljoin: (Url, string) -> Url)
      returns (crawled: bool, current: Target)
      requires Valid() && queue != []
      modifies this
      ensures Valid()
      ensures current == old(queue)[0]
      ensures crawled == (current.url !in old(visitedUrls))
      ensures crawled ==>
                var follow := Followed(current, fetch(current.url), visitedUrls, maxDepth, urljoin, urlparse, canFetch);
                && visitedUrls == old(visitedUrls) + {current.url}
                && queue == old(queue)[1..] + follow
                && depthMap == Record(old(depthMap), follow)
      ensures !crawled ==> visitedUrls == old(visitedUrls) && queue == old(queue)[1..] && depthMap == old(depthMap)
    {
      current := queue[0];
      queue := queue[1..];
      crawled := current.url !in visitedUrls;
      if crawled {
        visitedUrls := visitedUrls + {current.url};
        var response := fetch(current.url);
        if response.PageResponse? && response.status == 200 {
          var linksFound := ProcessLinks(current.url, current.depth, response.hrefs, urljoin);
        } else {
          assert queue + [] == queue;
        }
      }
    }

    /** The `while` loop of `crawl`: takes targets off the front of the
        queue until it is empty or `maxPages` pages were crawled, and ends in
        the state the run from the current queue and visited set ends in.
        `fetched` lists the targets crawled, in order. */
    method CrawlQueue(fetch: Url -> PageFetch, urljoin: (Url, string) -> Url, maxPages: int)
      returns (pagesCrawled: nat, ghost fetched: seq<Target>)
      requires Valid()
      modifies this
      ensures Valid()
      ensures pagesCrawled == |fetched|
      ensures Run(fetched, queue, visitedUrls)
              == Drain(old(queue), old(visitedUrls), maxPages, maxDepth, fetch, urljoin, urlparse, canFetch)
    {
      ghost var run := Drain(queue, visitedUrls, maxPages, maxDepth, fetch, urljoin, urlparse, canFetch);
      assert [] + run.trace == run.trace;
      pagesCrawled := 0;
      fetched := [];
      while queue != [] && pagesCrawled < maxPages
        invariant Valid()
        invariant pagesCrawled == |fetched|
        invariant var rest := Drain(queue, visitedUrls, maxPages - pagesCrawled, maxDepth, fetch, urljoin, urlparse, canFetch);
                  run == Run(fetched + rest.trace, rest.queue, rest.visited)
        decreases maxPages - pagesCrawled, |queue|
      {
        ghost var queue0, visited0, fetched0, budget := queue, visitedUrls, fetched, maxPages - pagesCrawled;
        var crawled, current := CrawlNext(fetch, urljoin);
        if crawled {
          pagesCrawled := pagesCrawled + 1;
          fetched := fetched + [current];
        }
        DrainResume(fetched0, queue0, visited0, budget, fetched, queue, visitedUrls, maxPages - pagesCrawled,
                    maxDepth, fetch, urljoin, urlparse, canFetch);
      }
      assert Drain(queue, visitedUrls, maxPages - pagesCrawled, maxDepth, fetch, urljoin, urlparse, canFetch)
             == Run([], queue, visitedUrls);
      assert fetched + [] == fetched;
    }

    /** `crawl`: seeds the queue from the sitemap (or the base URL), then
        runs the main loop. A target whose URL is already visited is dropped
        without counting; any other is marked visited and counted before it
        is fetched, whatever the fetch then produces, and the links of a
        page served with status 200 are enqueued one level deeper.
        `fetched` lists the targets crawled, in order. */
    method Crawl(sitemapFetch: Url -> SitemapFetch, fetch: Url -> PageFetch,
                 urljoin: (Url, string) -> Url, maxPages: int := 10)
      returns (pagesCrawled: nat, ghost fetched: seq<Target>)
      requires Valid()
      modifies this
      ensures Valid()
      ensures var sitemapUrls := GetSitemapUrls(sitemapFetch(urljoin(baseUrl, "sitemap.xml")));
              var seeded := old(queue) + Admit(SeedTargets(sitemapUrls, baseUrl), old(visitedUrls), maxDepth);
              Run(fetched, queue, visitedUrls)
              == Drain(seeded, old(visitedUrls), maxPages, maxDepth, fetch, urljoin, urlparse, canFetch)
      ensures pagesCrawled == |fetched|
      ensures pagesCrawled <= if maxPages < 0 then 0 else maxPages
      ensures queue == [] || pagesCrawled >= maxPages
      ensures |visitedUrls| == |old(visitedUrls)| + pagesCrawled
      ensures old(visitedUrls) == {} ==> |visitedUrls| <= if maxPages < 0 then 0 else maxPages
      ensures forall i :: 0 <= i < |fetched| ==>
                fetched[i].url !in old(visitedUrls) && fetched[i].depth <= maxDepth
      ensures NoRepeatedUrl(fetched)
      ensures visitedUrls == old(visitedUrls) + UrlsOf(fetched)
    {
      var sitemapUrls := GetSitemapUrls(sitemapFetch(urljoin(baseUrl, "sitemap.xml")));
      SeedFrontier(sitemapUrls);
      ghost var seeded, visited0 := queue, visitedUrls;
      DrainSummary(seeded, visited0, maxPages, maxDepth, fetch, urljoin, urlparse, canFetch);
      pagesCrawled, fetched := CrawlQueue(fetch, urljoin, maxPages);
    }
  }
}
