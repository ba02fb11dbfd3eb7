/**
  The specification of stage 1, `_stage_1_discover`: a depth-bounded walk
  over the pages of the root domain that fills `visited_urls`,
  `urls_to_scrape` and `files_to_download`.  The browser is an input that
  says, for each URL, whether opening it failed or which status (if any) and
  which links the page produced.  The children a page queues are discovered
  one after the other, in the order they were queued.
 */
module Discovery {
  import opened Options
  import opened Strings
  import opened Urls
  import opened Extensions

  /** What the browser produces for a URL. */
  datatype Render =
    | Failed                                            // new_page, goto or evaluate raised
    | Rendered(status: Option<int>, links: seq<string>) // status None: goto gave no response

  /** The crawler's configuration: `root_url`, `root_domain`, `max_depth`. */
  datatype Config = Config(rootUrl: string, rootDomain: string, maxDepth: int)

  /** The three sets, and the log of pages opened, with their depth, in order. */
  datatype Crawl = Crawl(visited: set<string>, toScrape: set<string>, toDownload: set<string>,
                         pages: seq<(string, int)>)

  /** The state of the link loop: the sets, the queued children, and whether
      `get_absolute_url` raised and ended the loop. */
  datatype Scan = Scan(crawl: Crawl, tasks: seq<string>, raised: bool)

  const Empty := Crawl({}, {}, {}, [])

  /** `b` starts with `a`. */
  predicate Extends<T(==)>(a: seq<T>, b: seq<T>)
  {
    |a| <= |b| && forall k :: 0 <= k < |a| ==> b[k] == a[k]
  }

  /** How many more levels of recursion the depth bound allows. */
  function Levels(cfg: Config, depth: int): nat
  {
    if depth > cfg.maxDepth then 0 else cfg.maxDepth - depth + 1
  }

  /** A URL the domain policy admits as a child: valid, without fragment, on the root domain. */
  predicate OnSite(cfg: Config, u: string)
  {
    IsValidUrl(u) && '#' !in u && Netloc(u) == cfg.rootDomain
  }

  /** The first steps for a URL not seen before: mark it visited, queue it for
      scraping unless it is an asset, and open its page. */
  function Enter(st: Crawl, url: string, depth: int): (r: Crawl)
    ensures r.visited == st.visited + {url} && r.toDownload == st.toDownload
    ensures r.toScrape == if IsAsset(url) then st.toScrape else st.toScrape + {url}
    ensures r.pages == st.pages + [(url, depth)]
  {
    Crawl(st.visited + {url}, if IsAsset(url) then st.toScrape else st.toScrape + {url},
          st.toDownload, st.pages + [(url, depth)])
  }

  /** `_stage_1_discover(url, depth)` from state `st`. */
  function Discover(cfg: Config, render: string -> Render, url: string, depth: int, st: Crawl): (r: Crawl)
    ensures st.visited <= r.visited && st.toScrape <= r.toScrape && st.toDownload <= r.toDownload
    ensures Extends(st.pages, r.pages)
    ensures depth > cfg.maxDepth || url in st.visited ==> r == st
    ensures depth <= cfg.maxDepth && url !in st.visited ==>
      url in r.visited && |st.pages| < |r.pages| && r.pages[|st.pages|] == (url, depth)
    decreases Levels(cfg, depth), 0, 1
  {
    if depth > cfg.maxDepth || url in st.visited then st
    else Explore(cfg, render, url, depth, Enter(st, url, depth))
  }

  /** The rest of `_stage_1_discover` once the page is marked and opened:
      an error status or a failure ends it; otherwise the link loop runs and,
      unless it raised, the queued children are discovered. */
  function Explore(cfg: Config, render: string -> Render, url: string, depth: int, entered: Crawl): (r: Crawl)
    requires depth <= cfg.maxDepth
    ensures entered.visited <= r.visited && entered.toScrape <= r.toScrape
    ensures entered.toDownload <= r.toDownload && Extends(entered.pages, r.pages)
    decreases Levels(cfg, depth), 0, 0
  {
    match render(url)
    case Failed => entered
    case Rendered(status, links) =>
      if status.Some? && status.value >= 400 then entered
      else
        var scan := ScanFrom(cfg, url, links, 0, entered, []);
        if scan.raised then scan.crawl
        else RunChildren(cfg, render, scan.tasks, depth + 1, scan.crawl)
  }

  /** One pass of the link loop for a link that `get_absolute_url` resolved
      without raising: skip it, mark it visited (off the root domain), queue
      it for download (an asset) or queue its discovery. */
  function Follow(cfg: Config, st: Crawl, tasks: seq<string>, res: Resolution): (r: (Crawl, seq<string>))
    requires !res.Raised?
    ensures st.visited <= r.0.visited && r.0.toScrape == st.toScrape
    ensures st.toDownload <= r.0.toDownload && r.0.pages == st.pages
  {
    match res
    case Rejected => (st, tasks)
    case Absolute(a) =>
      if a in st.visited then (st, tasks)
      else if Netloc(a) != cfg.rootDomain then (st.(visited := st.visited + {a}), tasks)
      else if IsAsset(a) then (st.(toDownload := st.toDownload + {a}), tasks)
      else (st, tasks + [a])
  }

  /** The link loop from the `i`-th link on; an exception from
      `get_absolute_url` ends the loop and the rest of the discovery. */
  function ScanFrom(cfg: Config, base: string, links: seq<string>, i: nat, st: Crawl, tasks: seq<string>)
    : (r: Scan)
    requires i <= |links|
    ensures st.visited <= r.crawl.visited && r.crawl.toScrape == st.toScrape
    ensures st.toDownload <= r.crawl.toDownload && r.crawl.pages == st.pages
    decreases |links| - i
  {
    if i == |links| then Scan(st, tasks, false)
    else
      var res := GetAbsoluteUrl(base, links[i]);
      if res.Raised? then Scan(st, tasks, true)
      else
        var (st', tasks') := Follow(cfg, st, tasks, res);
        ScanFrom(cfg, base, links, i + 1, st', tasks')
  }

  /** `asyncio.gather(*tasks)`: the queued children, one after the other. */
  function RunChildren(cfg: Config, render: string -> Render, tasks: seq<string>, depth: int, st: Crawl)
    : (r: Crawl)
    ensures st.visited <= r.visited && st.toScrape <= r.toScrape && st.toDownload <= r.toDownload
    ensures Extends(st.pages, r.pages)
    decreases Levels(cfg, depth), |tasks|, 0
  {
    if tasks == [] then st
    else RunChildren(cfg, render, tasks[1..], depth, Discover(cfg, render, tasks[0], depth, st))
  }

  // ---------------------------------------------------------------------------
  // The invariant of the three sets

  /** What discovery keeps true of its state:
      every page queued for scraping was visited, is not an asset, and is the
      root or on the root domain; every file queued for download is an asset on
      the root domain; no URL was opened twice; every page opened was visited,
      within the depth bound, and is the root or a non-asset page on the root domain. */
  ghost predicate Inv(cfg: Config, st: Crawl)
  {
    && st.toScrape <= st.visited
    && (forall u :: u in st.toScrape ==> !IsAsset(u) && (u == cfg.rootUrl || OnSite(cfg, u)))
    && (forall u :: u in st.toDownload ==> IsAsset(u) && OnSite(cfg, u))
    && (forall i, j :: 0 <= i < j < |st.pages| ==> st.pages[i].0 != st.pages[j].0)
    && (forall i :: 0 <= i < |st.pages| ==> OpenedOk(cfg, st, st.pages[i]))
  }

  ghost predicate OpenedOk(cfg: Config, st: Crawl, entry: (string, int))
  {
    && entry.0 in st.visited
    && 0 <= entry.1 <= cfg.maxDepth
    && (entry.0 == cfg.rootUrl || (OnSite(cfg, entry.0) && !IsAsset(entry.0)))
  }

  /** A page the crawl may be asked to discover. */
  ghost predicate Admissible(cfg: Config, url: string)
  {
    url == cfg.rootUrl || (OnSite(cfg, url) && !IsAsset(url))
  }

  lemma EmptyInv(cfg: Config)
    ensures Inv(cfg, Empty)
  {
  }

  lemma EnterInv(cfg: Config, st: Crawl, url: string, depth: int)
    requires Inv(cfg, st) && Admissible(cfg, url)
    requires 0 <= depth <= cfg.maxDepth && url !in st.visited
    ensures Inv(cfg, Enter(st, url, depth))
  {
    var r := Enter(st, url, depth);
    forall i | 0 <= i < |r.pages|
      ensures OpenedOk(cfg, r, r.pages[i])
    {
      if i < |st.pages| {
        assert OpenedOk(cfg, st, st.pages[i]);
      }
    }
    forall i, j | 0 <= i < j < |r.pages|
      ensures r.pages[i].0 != r.pages[j].0
    {
      if j == |st.pages| {
        assert OpenedOk(cfg, st, st.pages[i]);
      }
    }
  }

  /** Growing `visited` keeps a page entry in order. */
  lemma OpenedOkGrow(cfg: Config, st: Crawl, st': Crawl)
    requires forall i :: 0 <= i < |st.pages| ==> OpenedOk(cfg, st, st.pages[i])
    requires st.visited <= st'.visited && st'.pages == st.pages
    ensures forall i :: 0 <= i < |st'.pages| ==> OpenedOk(cfg, st', st'.pages[i])
  {
    forall i | 0 <= i < |st'.pages|
      ensures OpenedOk(cfg, st', st'.pages[i])
    {
      assert OpenedOk(cfg, st, st.pages[i]);
    }
  }

  /** Every queued child is a non-asset page on the root domain. */
  ghost predicate Admissibles(cfg: Config, tasks: seq<string>)
  {
    AllOnSite(cfg, tasks) && NoAsset(tasks)
  }

  ghost predicate AllOnSite(cfg: Config, tasks: seq<string>)
  {
    forall u :: u in tasks ==> OnSite(cfg, u)
  }

  ghost predicate NoAsset(tasks: seq<string>)
  {
    forall u :: u in tasks ==> !IsAsset(u)
  }

  /** Marking a URL visited keeps the invariant. */
  lemma AddVisitedInv(cfg: Config, st: Crawl, a: string)
    requires Inv(cfg, st)
    ensures Inv(cfg, st.(visited := st.visited + {a}))
  {
    OpenedOkGrow(cfg, st, st.(visited := st.visited + {a}));
  }

  /** Queueing an asset on the root domain for download keeps the invariant. */
  lemma AddDownloadInv(cfg: Config, st: Crawl, a: string)
    requires Inv(cfg, st) && IsAsset(a) && OnSite(cfg, a)
    ensures Inv(cfg, st.(toDownload := st.toDownload + {a}))
  {
    OpenedOkGrow(cfg, st, st.(toDownload := st.toDownload + {a}));
  }

  /** One pass of the link loop keeps the invariant and queues only admissible children. */
  lemma FollowInv(cfg: Config, st: Crawl, tasks: seq<string>, res: Resolution)
    requires Inv(cfg, st) && Admissibles(cfg, tasks)
    requires res.Rejected? || (res.Absolute? && IsValidUrl(res.url) && '#' !in res.url)
    ensures Inv(cfg, Follow(cfg, st, tasks, res).0) && Admissibles(cfg, Follow(cfg, st, tasks, res).1)
  {
    if res.Absolute? {
      var a := res.url;
      if a in st.visited {
        assert Follow(cfg, st, tasks, res) == (st, tasks);
      } else if Netloc(a) != cfg.rootDomain {
        assert Follow(cfg, st, tasks, res) == (st.(visited := st.visited + {a}), tasks);
        AddVisitedInv(cfg, st, a);
      } else if IsAsset(a) {
        assert Follow(cfg, st, tasks, res) == (st.(toDownload := st.toDownload + {a}), tasks);
        AddDownloadInv(cfg, st, a);
      } else {
        assert Follow(cfg, st, tasks, res) == (st, tasks + [a]);
        AppendAdmissible(cfg, tasks, a);
      }
    }
  }

  lemma AppendAdmissible(cfg: Config, tasks: seq<string>, a: string)
    requires Admissibles(cfg, tasks) && OnSite(cfg, a) && !IsAsset(a)
    ensures Admissibles(cfg, tasks + [a])
  {
    AppendOnSite(cfg, tasks, a);
    AppendNoAsset(tasks, a);
  }

  lemma AppendOnSite(cfg: Config, tasks: seq<string>, a: string)
    requires AllOnSite(cfg, tasks) && OnSite(cfg, a)
    ensures AllOnSite(cfg, tasks + [a])
  {
  }

  lemma AppendNoAsset(tasks: seq<string>, a: string)
    requires NoAsset(tasks) && !IsAsset(a)
    ensures NoAsset(tasks + [a])
  {
  }

  /** The link loop keeps the invariant and queues only admissible children. */
  lemma {:induction false} ScanInv(cfg: Config, base: string, links: seq<string>, i: nat, st: Crawl,
                                   tasks: seq<string>)
    requires i <= |links|
    requires Inv(cfg, st) && Admissibles(cfg, tasks)
    ensures var r := ScanFrom(cfg, base, links, i, st, tasks);
      Inv(cfg, r.crawl) && Admissibles(cfg, r.tasks)
    decreases |links| - i
  {
    if i < |links| {
      var res := GetAbsoluteUrl(base, links[i]);
      if !res.Raised? {
        FollowInv(cfg, st, tasks, res);
        var (st', tasks') := Follow(cfg, st, tasks, res);
        ScanInv(cfg, base, links, i + 1, st', tasks');
      }
    }
  }

  /** Discovery keeps the invariant. */
  lemma {:induction false} DiscoverInv(cfg: Config, render: string -> Render, url: string, depth: int,
                                       st: Crawl)
    requires Inv(cfg, st) && Admissible(cfg, url) && 0 <= depth
    ensures Inv(cfg, Discover(cfg, render, url, depth, st))
    decreases Levels(cfg, depth), 0, 1
  {
    if depth <= cfg.maxDepth && url !in st.visited {
      EnterInv(cfg, st, url, depth);
      ExploreInv(cfg, render, url, depth, Enter(st, url, depth));
    }
  }

  lemma {:induction false} ExploreInv(cfg: Config, render: string -> Render, url: string, depth: int,
                                      entered: Crawl)
    requires Inv(cfg, entered) && 0 <= depth <= cfg.maxDepth
    ensures Inv(cfg, Explore(cfg, render, url, depth, entered))
    decreases Levels(cfg, depth), 0, 0
  {
    if render(url).Rendered? {
      var links := render(url).links;
      var scan := ScanFrom(cfg, url, links, 0, entered, []);
      ScanInv(cfg, url, links, 0, entered, []);
      if !scan.raised {
        ChildrenInv(cfg, render, scan.tasks, depth + 1, scan.crawl);
      }
    }
  }

  lemma {:induction false} ChildrenInv(cfg: Config, render: string -> Render, tasks: seq<string>,
                                       depth: int, st: Crawl)
    requires Inv(cfg, st) && 0 <= depth
    requires Admissibles(cfg, tasks)
    ensures Inv(cfg, RunChildren(cfg, render, tasks, depth, st))
    decreases Levels(cfg, depth), |tasks|, 0
  {
    if tasks != [] {
      DiscoverInv(cfg, render, tasks[0], depth, st);
      ChildrenInv(cfg, render, tasks[1..], depth, Discover(cfg, render, tasks[0], depth, st));
    }
  }

  // ---------------------------------------------------------------------------
  // Consequences for a crawl from the root

  /** A whole crawl: `_stage_1_discover(root_url, 0)` from empty sets. */
  function Crawled(cfg: Config, render: string -> Render): Crawl
  {
    Discover(cfg, render, cfg.rootUrl, 0, Empty)
  }

  /** After a crawl, the scrape and download lists are disjoint, every
      download is an asset on the root domain, every scraped page is the root
      or a non-asset page on the root domain, no page was opened twice, and
      every page was opened within the depth bound. */
  lemma CrawlProperties(cfg: Config, render: string -> Render)
    ensures var r := Crawled(cfg, render);
      && r.toScrape !! r.toDownload
      && r.toScrape <= r.visited
      && (forall u :: u in r.toDownload ==> IsAsset(u) && OnSite(cfg, u))
      && (forall u :: u in r.toScrape ==> !IsAsset(u) && (u == cfg.rootUrl || OnSite(cfg, u)))
      && (forall i, j :: 0 <= i < j < |r.pages| ==> r.pages[i].0 != r.pages[j].0)
      && (forall i :: 0 <= i < |r.pages| ==> 0 <= r.pages[i].1 <= cfg.maxDepth)
      && (cfg.maxDepth >= 0 ==> |r.pages| >= 1 && r.pages[0] == (cfg.rootUrl, 0))
  {
    EmptyInv(cfg);
    DiscoverInv(cfg, render, cfg.rootUrl, 0, Empty);
    var r := Crawled(cfg, render);
    forall i | 0 <= i < |r.pages|
      ensures 0 <= r.pages[i].1 <= cfg.maxDepth
    {
      assert OpenedOk(cfg, r, r.pages[i]);
    }
  }

  /** A page answering with status 400 or more is visited (and queued for
      scraping unless it is an asset), but none of its links is followed. */
  lemma ErrorStatusStops(cfg: Config, render: string -> Render, url: string, depth: int, st: Crawl)
    requires depth <= cfg.maxDepth && url !in st.visited
    requires render(url).Rendered? && render(url).status.Some? && render(url).status.value >= 400
    ensures Discover(cfg, render, url, depth, st) == Enter(st, url, depth)
  {
  }

  /** A page whose link loop raised keeps what the loop recorded before the
      exception, and none of its children is discovered. */
  lemma RaisedStopsChildren(cfg: Config, render: string -> Render, url: string, depth: int, st: Crawl)
    requires depth <= cfg.maxDepth && url !in st.visited
    requires render(url).Rendered? && !(render(url).status.Some? && render(url).status.value >= 400)
    requires ScanFrom(cfg, url, render(url).links, 0, Enter(st, url, depth), []).raised
    ensures Discover(cfg, render, url, depth, st)
         == ScanFrom(cfg, url, render(url).links, 0, Enter(st, url, depth), []).crawl
    ensures |Discover(cfg, render, url, depth, st).pages| == |st.pages| + 1
  {
  }

  /** A link off the root domain is marked visited and nothing else: it is
      neither opened nor queued. */
  lemma OffSiteLinkOnlyVisited(cfg: Config, st: Crawl, tasks: seq<string>, a: string)
    requires a !in st.visited && Netloc(a) != cfg.rootDomain
    ensures Follow(cfg, st, tasks, Absolute(a)) == (st.(visited := st.visited + {a}), tasks)
  {
  }

  /** A link already visited changes nothing. */
  lemma VisitedLinkSkipped(cfg: Config, st: Crawl, tasks: seq<string>, a: string)
    requires a in st.visited
    ensures Follow(cfg, st, tasks, Absolute(a)) == (st, tasks)
  {
  }
}
