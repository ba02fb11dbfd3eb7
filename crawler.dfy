/**
  The `WebCrawler` object: its configuration, the three sets stage 1 fills,
  and the three stages `run_crawler` runs in turn.  The browser, the HTTP
  client and the file system are inputs: the browser's answer for each URL,
  the HTTP replies for each file, and the directories as maps from a name
  (relative to the directory) to what the file holds.
 */
module Crawler {
  import opened Options
  import opened Strings
  import opened Urls
  import opened Extensions
  import opened Filenames
  import opened Persistence
  import opened Discovery

  type Bytes = seq<bv8>

  /** The defaults of `WebCrawler(root_url, max_depth)`. */
  const DefaultStartUrl := "https://www.scrapethissite.com/"
  const DefaultMaxDepth := 15

  /** The response of `page.goto`: its status and its `content-type` header
      (`""` when the header is missing). */
  datatype Response = Response(status: int, contentType: string)

  /** What stage 2 gets from the browser for a page: a failure of `new_page`
      or `goto`, or the response (`None` when `goto` gave none) and the
      rendered HTML (`None` when `page.content()` raised). */
  datatype PageReply =
    | PageFailed
    | PageLoaded(response: Option<Response>, html: Option<string>)

  datatype ScrapeOutcome = ScrapeSkipped | ScrapeFailed | Scraped(name: string)

  /** The stage-3 `HEAD` request: raised, or answered with a status and a
      `Content-Type` header (`""` when missing). */
  datatype HeadReply = HeadFailed | Head(status: int, contentType: string)

  /** The stage-3 streamed `GET`: it failed before the file was opened (a
      connection error or a status that `raise_for_status` rejects), delivered
      the whole body, or broke off after the file was opened with part of it
      written. */
  datatype GetReply =
    | GetFailed
    | GetStatusError(status: int)
    | GetOk(body: Bytes)
    | GetInterrupted(written: Bytes)

  datatype DownloadOutcome =
    | DownloadSkipped                        // HEAD failed, status >= 400 or an HTML page
    | NameRaised                             // `urlparse` raised outside any `try`
    | DownloadFailed(partial: Option<string>) // the file left behind by a broken GET, if any
    | Downloaded(name: string)

  /** Whether the (lower-cased) `content-type` announces HTML. */
  predicate IsHtmlContentType(contentType: string)
  {
    var ct := ToLower(contentType);
    Contains(ct, "text/html") || Contains(ct, "application/xhtml+xml")
  }

  /** The page-content check of `_stage_2_scrape_single`: HTML announced and no error status. */
  predicate ScrapeAccepts(response: Option<Response>)
  {
    response.Some? && IsHtmlContentType(response.value.contentType) && response.value.status < 400
  }

  /** The HEAD check of `_stage_3_download_single`. */
  predicate HeadAccepts(head: HeadReply)
  {
    head.Head? && head.status < 400 && !Contains(ToLower(head.contentType), "text/html")
  }

  /** The stage-2 check: no response means an empty content type and a skip,
      the content type is compared in lower case, and an HTML page with a
      status below 400 is scraped while stage 3 would refuse it. */
  lemma ScrapeCheck(status: int, contentType: string)
    ensures !ScrapeAccepts(None)
    ensures ScrapeAccepts(Some(Response(status, ToLower(contentType)))) ==
      ScrapeAccepts(Some(Response(status, contentType)))
    ensures status < 400 && Contains(ToLower(contentType), "text/html") ==>
      ScrapeAccepts(Some(Response(status, contentType))) && !HeadAccepts(Head(status, contentType))
  {
    ToLowerIdempotent(contentType);
  }

  /** The stage-3 check: a failed `HEAD` is a skip, the content type is
      compared in lower case, and a reply stage 3 accepts is one stage 2
      would refuse, unless it announces XHTML (which only stage 2 looks for). */
  lemma HeadCheck(status: int, contentType: string)
    ensures !HeadAccepts(HeadFailed)
    ensures HeadAccepts(Head(status, ToLower(contentType))) == HeadAccepts(Head(status, contentType))
    ensures HeadAccepts(Head(status, contentType)) ==>
      !ScrapeAccepts(Some(Response(status, contentType))) ||
      Contains(ToLower(contentType), "application/xhtml+xml")
  {
    ToLowerIdempotent(contentType);
  }

  /** Every name of `m` keeps its contents in `m'`. */
  ghost predicate Keeps<V>(m: map<string, V>, m': map<string, V>)
  {
    forall k :: k in m ==> k in m' && m'[k] == m[k]
  }

  /** A directory `m'` grown from `m` by the new files `names`: nothing
      overwritten, every name new and none repeated. */
  ghost predicate Grown<V>(m: map<string, V>, m': map<string, V>, names: seq<string>)
  {
    && Keeps(m, m')
    && (forall k :: k in m' <==> k in m || k in names)
    && (forall i :: 0 <= i < |names| ==> names[i] !in m)
    && (forall i, j :: 0 <= i < j < |names| ==> names[i] != names[j])
  }

  lemma GrownStep<V>(m: map<string, V>, m': map<string, V>, names: seq<string>, name: string, v: V)
    requires Grown(m, m', names) && name !in m'
    ensures Grown(m, m'[name := v], names + [name])
  {
    var names' := names + [name];
    forall i, j | 0 <= i < j < |names'|
      ensures names'[i] != names'[j]
    {
      if j == |names| {
        assert names'[i] in m';
      }
    }
  }

  /** A page stage 2 saves: it loaded with an accepted response, its HTML
      was read, and `urlparse` of its URL did not raise. */
  predicate PageSaved(url: string, reply: PageReply)
  {
    reply.PageLoaded? && ScrapeAccepts(reply.response) && reply.html.Some? && UrlStem(url).Some?
  }

  /** The stage-3 task for `url` raises: its HEAD check passed and `urlparse`
      of the URL raised while naming the file. */
  predicate NameRaises(url: string, reply: (HeadReply, GetReply, int))
  {
    HeadAccepts(reply.0) && DownloadFilename(url, reply.2).None?
  }

  /** The file a stage-3 task leaves behind: the whole body, or the part
      written before the GET broke off; none when the task was skipped, raised
      or its GET failed before the file was opened. */
  function FileLeft(url: string, reply: (HeadReply, GetReply, int)): Option<Bytes>
  {
    if HeadAccepts(reply.0) && DownloadFilename(url, reply.2).Some? then
      match reply.1
      case GetOk(body) => Some(body)
      case GetInterrupted(written) => Some(written)
      case _ => None
    else None
  }

  /** For each URL of a stage-2 worklist, the HTML saved for it, if any. */
  function SavedPages(urls: seq<string>, replies: string -> PageReply): seq<Option<string>>
  {
    seq(|urls|, i requires 0 <= i < |urls| =>
      if PageSaved(urls[i], replies(urls[i])) then Some(replies(urls[i]).html.value) else None)
  }

  /** For each URL of a stage-3 worklist, the file its task leaves, if any. */
  function LeftFiles(urls: seq<string>, replies: string -> (HeadReply, GetReply, int)): seq<Option<Bytes>>
  {
    seq(|urls|, i requires 0 <= i < |urls| => FileLeft(urls[i], replies(urls[i])))
  }

  /** The new files `names` of `m` belong one to one to the entries among the
      first `n` of `vals` that have a value: the `k`-th new file was written
      for entry `owner[k]` and holds its value, the owners increase (so no
      entry has two files), and every entry with a value has a file. */
  ghost predicate Owned<V>(vals: seq<Option<V>>, n: nat, m: map<string, V>, names: seq<string>, owner: seq<nat>)
    requires n <= |vals|
  {
    && |owner| == |names|
    && (forall k :: 0 <= k < |owner| ==> owner[k] < n && names[k] in m && vals[owner[k]] == Some(m[names[k]]))
    && (forall k, l :: 0 <= k < l < |owner| ==> owner[k] < owner[l])
    && (forall j :: 0 <= j < n && vals[j].Some? ==> j in owner)
  }

  lemma OwnedStep<V>(vals: seq<Option<V>>, i: nat, m: map<string, V>, names: seq<string>, owner: seq<nat>,
                     name: string, v: V)
    requires i < |vals| && Owned(vals, i, m, names, owner) && name !in m && vals[i] == Some(v)
    ensures Owned(vals, i + 1, m[name := v], names + [name], owner + [i])
  {
    var m', names', owner' := m[name := v], names + [name], owner + [i];
    forall k | 0 <= k < |owner'|
      ensures owner'[k] < i + 1 && names'[k] in m' && vals[owner'[k]] == Some(m'[names'[k]])
    {
      if k < |owner| {
        assert names'[k] == names[k] && owner'[k] == owner[k];
        assert names[k] != name;
      }
    }
    forall j | 0 <= j < i + 1 && vals[j].Some?
      ensures j in owner'
    {
      if j < i {
        var k :| 0 <= k < |owner| && owner[k] == j;
        assert owner'[k] == j;
      } else {
        assert owner'[|owner|] == j;
      }
    }
  }

  lemma OwnedSkip<V>(vals: seq<Option<V>>, i: nat, m: map<string, V>, names: seq<string>, owner: seq<nat>)
    requires i < |vals| && Owned(vals, i, m, names, owner) && vals[i].None?
    ensures Owned(vals, i + 1, m, names, owner)
  {
  }

  class WebCrawler {
    const rootUrl: string
    const rootDomain: string
    const maxDepth: int

    var visitedUrls: set<string>
    var urlsToScrape: set<string>
    var filesToDownload: set<string>
    /** The pages stage 1 opened, with their depth, in order. */
    ghost var pages: seq<(string, int)>

    function Cfg(): Config
    {
      Config(rootUrl, rootDomain, maxDepth)
    }

    ghost function State(): Crawl
      reads this
    {
      Crawl(visitedUrls, urlsToScrape, filesToDownload, pages)
    }

    /** `WebCrawler(root_url, max_depth)` for a valid root URL. */
    constructor(url: string, depth: int)
      requires IsValidUrl(url)
      ensures rootUrl == RStripChar(url, '/') && rootDomain == Netloc(url) && maxDepth == depth
      ensures State() == Discovery.Empty
    {
      rootUrl := RStripChar(url, '/');
      rootDomain := Netloc(url);
      maxDepth := depth;
      visitedUrls := {};
      urlsToScrape := {};
      filesToDownload := {};
      pages := [];
    }

    /** Construction with its `ValueError`: `None` exactly for an invalid root URL. */
    static method Create(url: string := DefaultStartUrl, depth: int := DefaultMaxDepth)
      returns (r: Option<WebCrawler>)
      ensures r.None? <==> !IsValidUrl(url)
      ensures r.Some? ==> fresh(r.value) && r.value.State() == Discovery.Empty
      ensures r.Some? ==> r.value.rootUrl == RStripChar(url, '/') && r.value.rootDomain == Netloc(url)
      ensures r.Some? ==> r.value.maxDepth == depth
    {
      if !IsValidUrl(url) {
        return None;
      }
      var c := new WebCrawler(url, depth);
      return Some(c);
    }

    // -------------------------------------------------------------------------
    // Stage 1

    /** `_stage_1_discover(browser, url, depth)`. */
    method Discover(render: string -> Render, url: string, depth: int)
      modifies this
      ensures State() == Discovery.Discover(Cfg(), render, url, depth, old(State()))
      decreases Levels(Cfg(), depth), 0, 1
    {
      if depth > maxDepth || url in visitedUrls {
        return;
      }
      visitedUrls := visitedUrls + {url};
      if !IsAsset(url) {
        urlsToScrape := urlsToScrape + {url};
      }
      pages := pages + [(url, depth)];
      assert State() == Enter(old(State()), url, depth);
      match render(url) {
        case Failed =>
        case Rendered(status, links) =>
          if status.Some? && status.value >= 400 {
            return;
          }
          var tasks, raised := ScanLinks(url, links);
          if !raised {
            RunTasks(render, tasks, depth + 1);
          }
      }
    }

    /** The link loop of `_stage_1_discover` over the page's `href`s. */
    method ScanLinks(base: string, links: seq<string>) returns (tasks: seq<string>, raised: bool)
      modifies this
      ensures var s := ScanFrom(Cfg(), base, links, 0, old(State()), []);
        State() == s.crawl && tasks == s.tasks && raised == s.raised
    {
      tasks := [];
      raised := false;
      var i := 0;
      while i < |links|
        invariant i <= |links|
        invariant ScanFrom(Cfg(), base, links, i, State(), tasks) == ScanFrom(Cfg(), base, links, 0, old(State()), [])
      {
        var res := GetAbsoluteUrl(base, links[i]);
        if res.Raised? {
          raised := true;
          return;
        }
        tasks := FollowLink(res, tasks);
        i := i + 1;
      }
    }

    /** One pass of the link loop for a link resolved without an exception. */
    method FollowLink(res: Resolution, tasks: seq<string>) returns (tasks': seq<string>)
      requires !res.Raised?
      modifies this
      ensures (State(), tasks') == Follow(Cfg(), old(State()), tasks, res)
    {
      tasks' := tasks;
      ghost var st := State();
      ghost var r := Follow(Cfg(), st, tasks, res);
      match res {
        case Rejected =>
        case Absolute(a) =>
          if a in visitedUrls {
            assert r == (st, tasks);
          } else if Netloc(a) != rootDomain {
            assert r == (st.(visited := st.visited + {a}), tasks);
            visitedUrls := visitedUrls + {a};
          } else if IsAsset(a) {
            assert r == (st.(toDownload := st.toDownload + {a}), tasks);
            filesToDownload := filesToDownload + {a};
          } else {
            assert r == (st, tasks + [a]);
            tasks' := tasks + [a];
          }
      }
    }

    /** `asyncio.gather(*tasks)`, the children discovered one after the other. */
    method RunTasks(render: string -> Render, tasks: seq<string>, depth: int)
      modifies this
      ensures State() == RunChildren(Cfg(), render, tasks, depth, old(State()))
      decreases Levels(Cfg(), depth), |tasks|, 0
    {
      var j := 0;
      while j < |tasks|
        invariant j <= |tasks|
        invariant RunChildren(Cfg(), render, tasks[j..], depth, State())
               == RunChildren(Cfg(), render, tasks, depth, old(State()))
      {
        assert tasks[j..][1..] == tasks[j + 1..];
        Discover(render, tasks[j], depth);
        j := j + 1;
      }
      assert tasks[j..] == [];
    }

    // -------------------------------------------------------------------------
    // The checkpoint

    /** `_save_discovery_results`: both lists written to the discovery
        directory, each of which loads back as the sorted set. */
    method SaveDiscoveryResults(disk: map<string, string>) returns (disk': map<string, string>)
      ensures disk' == SaveBoth(disk, urlsToScrape, filesToDownload)
      ensures AllStorable(urlsToScrape) ==> LoadUrls(disk', ScrapeFile) == SortedList(urlsToScrape)
      ensures AllStorable(filesToDownload) ==>
        LoadUrls(disk', DownloadFile) == SortedList(filesToDownload)
    {
      disk' := disk[ScrapeFile := Serialize(urlsToScrape)];
      disk' := disk'[DownloadFile := Serialize(filesToDownload)];
      SaveBothLoad(disk, urlsToScrape, filesToDownload);
    }

    // -------------------------------------------------------------------------
    // Stage 2

    /** `_stage_2_scrape_single(browser, url)` against the content directory. */
    method ScrapeSingle(url: string, reply: PageReply, content: map<string, string>)
      returns (outcome: ScrapeOutcome, content': map<string, string>)
      ensures outcome.ScrapeSkipped? <==> reply.PageLoaded? && !ScrapeAccepts(reply.response)
      ensures outcome.Scraped? <==>
        reply.PageLoaded? && ScrapeAccepts(reply.response) && reply.html.Some? && UrlStem(url).Some?
      ensures outcome.Scraped? ==>
        && outcome.name == FirstFreeName(UrlStem(url).value, ".html", content.Keys)
        && outcome.name !in content
        && content' == content[outcome.name := reply.html.value]
      ensures !outcome.Scraped? ==> content' == content
    {
      content' := content;
      match reply {
        case PageFailed =>
          return ScrapeFailed, content';
        case PageLoaded(response, html) =>
          var contentType := if response.Some? then ToLower(response.value.contentType) else "";
          ToLowerIdempotent(if response.Some? then response.value.contentType else "");
          if !(Contains(contentType, "text/html") || Contains(contentType, "application/xhtml+xml")) {
            return ScrapeSkipped, content';
          }
          if response.Some? && response.value.status >= 400 {
            return ScrapeSkipped, content';
          }
          if html.None? {
            return ScrapeFailed, content';
          }
          var name := CreateUniqueFilenameFromUrl(url, ".html", content.Keys);
          if name.None? {
            return ScrapeFailed, content';
          }
          content' := content[name.value := html.value];
          return Scraped(name.value), content';
      }
    }

    /** Stage 2 over a worklist, each page saved before the next is named.
        No file already in the directory is overwritten, and the new files,
        under distinct fresh names, are one per page saved (the `k`-th for
        the page `urls[owner[k]]`), each holding that page's HTML. */
    method ScrapeAll(urls: seq<string>, replies: string -> PageReply, content: map<string, string>)
      returns (content': map<string, string>, names: seq<string>, ghost owner: seq<nat>)
      ensures Grown(content, content', names)
      ensures |names| <= |urls|
      ensures Owned(SavedPages(urls, replies), |urls|, content', names, owner)
    {
      content' := content;
      names := [];
      owner := [];
      for i := 0 to |urls|
        invariant ScrapedUpTo(urls, replies, i, content, content', names, owner)
      {
        content', names, owner := ScrapeNext(urls, replies, i, content, content', names, owner);
      }
    }

    /** The first `i` pages of stage 2 done: the directory grew by one new file per page saved. */
    ghost predicate ScrapedUpTo(urls: seq<string>, replies: string -> PageReply, i: nat,
                                content: map<string, string>, content': map<string, string>,
                                names: seq<string>, owner: seq<nat>)
    {
      && i <= |urls|
      && Grown(content, content', names)
      && |names| <= i
      && Owned(SavedPages(urls, replies), i, content', names, owner)
    }

    /** One pass of the stage-2 loop: scrape `urls[i]`. */
    method ScrapeNext(urls: seq<string>, replies: string -> PageReply, i: nat, content: map<string, string>,
                      current: map<string, string>, names: seq<string>, ghost owner: seq<nat>)
      returns (content': map<string, string>, names': seq<string>, ghost owner': seq<nat>)
      requires i < |urls| && ScrapedUpTo(urls, replies, i, content, current, names, owner)
      ensures ScrapedUpTo(urls, replies, i + 1, content, content', names', owner')
    {
      ghost var saved := SavedPages(urls, replies);
      var reply := replies(urls[i]);
      assert saved[i] == if PageSaved(urls[i], reply) then Some(reply.html.value) else None;
      var outcome, next := ScrapeSingle(urls[i], reply, current);
      if outcome.Scraped? {
        var name := outcome.name;
        GrownStep(content, current, names, name, next[name]);
        OwnedStep(saved, i, current, names, owner, name, next[name]);
        names' := names + [name];
        owner' := owner + [i];
      } else {
        OwnedSkip(saved, i, current, names, owner);
        names' := names;
        owner' := owner;
      }
      content' := next;
    }

    // -------------------------------------------------------------------------
    // Stage 3

    /** `_stage_3_download_single(client, url)` against the files directory;
        `hash` stands for `hash(url)`. */
    method DownloadSingle(url: string, head: HeadReply, get: GetReply, hash: int, files: map<string, Bytes>)
      returns (outcome: DownloadOutcome, files': map<string, Bytes>)
      ensures outcome.DownloadSkipped? <==> !HeadAccepts(head)
      ensures outcome.NameRaised? <==> HeadAccepts(head) && DownloadFilename(url, hash).None?
      ensures !outcome.DownloadSkipped? && !outcome.NameRaised? ==>
        var filename := DownloadFilename(url, hash).value;
        var name := FirstFreeName(SplitExt(filename).0, SplitExt(filename).1, files.Keys);
        && name !in files
        && (get.GetOk? ==> outcome == Downloaded(name) && files' == files[name := get.body])
        && (get.GetInterrupted? ==> outcome == DownloadFailed(Some(name)) && files' == files[name := get.written])
        && (get.GetFailed? || get.GetStatusError? ==> outcome == DownloadFailed(None) && files' == files)
      ensures outcome.DownloadSkipped? || outcome.NameRaised? ==> files' == files
    {
      files' := files;
      if !HeadAccepts(head) {
        return DownloadSkipped, files';
      }
      var filename := DownloadFilename(url, hash);
      if filename.None? {
        return NameRaised, files';
      }
      var name := DownloadSaveName(filename.value, files.Keys);
      match get {
        case GetFailed =>
          outcome := DownloadFailed(None);
        case GetStatusError(_) =>
          outcome := DownloadFailed(None);
        case GetOk(body) =>
          files' := files[name := body];
          outcome := Downloaded(name);
        case GetInterrupted(written) =>
          files' := files[name := written];
          outcome := DownloadFailed(Some(name));
      }
    }

    /** Stage 3 over a worklist with each file written before the next is
        named; the first task whose `urlparse` raises ends the stage after
        `done` files.  No file already in the directory is overwritten, and
        the new files, under distinct fresh names, are one per task before
        that which left a file (the `k`-th for `urls[owner[k]]`), each
        holding the body or the part of it written. */
    method DownloadAll(urls: seq<string>, replies: string -> (HeadReply, GetReply, int), files: map<string, Bytes>)
      returns (files': map<string, Bytes>, created: seq<string>, raised: bool, done: nat, ghost owner: seq<nat>)
      ensures Grown(files, files', created)
      ensures done <= |urls| && |created| <= done
      ensures raised <==> done < |urls|
      ensures raised ==> NameRaises(urls[done], replies(urls[done]))
      ensures forall j :: 0 <= j < done ==> !NameRaises(urls[j], replies(urls[j]))
      ensures Owned(LeftFiles(urls, replies), done, files', created, owner)
    {
      files' := files;
      created := [];
      raised := false;
      done := 0;
      owner := [];
      while done < |urls|
        invariant DownloadedUpTo(urls, replies, done, files, files', created, owner)
      {
        var next, created', owner', nameRaised := DownloadNext(urls, replies, done, files, files', created, owner);
        if nameRaised {
          raised := true;
          return;
        }
        files', created, owner := next, created', owner';
        done := done + 1;
      }
    }

    /** The first `done` tasks of stage 3 handled, none of them raising: the
        directory grew by one new file per task that left one. */
    ghost predicate DownloadedUpTo(urls: seq<string>, replies: string -> (HeadReply, GetReply, int), done: nat,
                                  files: map<string, Bytes>, files': map<string, Bytes>,
                                  created: seq<string>, owner: seq<nat>)
    {
      && done <= |urls|
      && Grown(files, files', created)
      && |created| <= done
      && (forall j :: 0 <= j < done ==> !NameRaises(urls[j], replies(urls[j])))
      && Owned(LeftFiles(urls, replies), done, files', created, owner)
    }

    /** One pass of the stage-3 loop: download `urls[done]`, or report that its naming raised. */
    method DownloadNext(urls: seq<string>, replies: string -> (HeadReply, GetReply, int), done: nat,
                        files: map<string, Bytes>, current: map<string, Bytes>,
                        created: seq<string>, ghost owner: seq<nat>)
      returns (files': map<string, Bytes>, created': seq<string>, ghost owner': seq<nat>, raised: bool)
      requires done < |urls| && DownloadedUpTo(urls, replies, done, files, current, created, owner)
      ensures raised <==> NameRaises(urls[done], replies(urls[done]))
      ensures !raised ==> DownloadedUpTo(urls, replies, done + 1, files, files', created', owner')
    {
      ghost var left := LeftFiles(urls, replies);
      var (head, get, hash) := replies(urls[done]);
      assert left[done] == FileLeft(urls[done], (head, get, hash));
      var outcome, next := DownloadSingle(urls[done], head, get, hash, current);
      files', created', owner', raised := next, created, owner, outcome.NameRaised?;
      if outcome.Downloaded? || (outcome.DownloadFailed? && outcome.partial.Some?) {
        var name := if outcome.Downloaded? then outcome.name else outcome.partial.value;
        GrownStep(files, current, created, name, next[name]);
        OwnedStep(left, done, current, created, owner, name, next[name]);
        created' := created + [name];
        owner' := owner + [done];
      } else if !raised {
        OwnedSkip(left, done, current, created, owner);
      }
    }

    // -------------------------------------------------------------------------
    // Orchestration

    /** `run_crawler`: discover from the root and save, forget the visited
        set, then run stages 2 and 3 on the saved lists.  Returns the
        discovery, content and files directories afterwards, the new files of
        each, whether a stage-3 exception escaped, how many stage-3 URLs
        were handled before it, and the two work lists loaded back. */
    method RunCrawler(render: string -> Render, replies: string -> PageReply,
                      downloads: string -> (HeadReply, GetReply, int),
                      disk: map<string, string>, content: map<string, string>, files: map<string, Bytes>)
      returns (disk': map<string, string>, content': map<string, string>, scraped: seq<string>,
               files': map<string, Bytes>, created: seq<string>, raised: bool, done: nat,
               scrapeWork: seq<string>, downloadWork: seq<string>,
               ghost scrapeOwner: seq<nat>, ghost fileOwner: seq<nat>)
      modifies this
      ensures var crawled := Discovery.Discover(Cfg(), render, rootUrl, 0, old(State()));
        && urlsToScrape == crawled.toScrape && filesToDownload == crawled.toDownload
        && pages == crawled.pages && visitedUrls == {}
      ensures disk' == SaveBoth(disk, urlsToScrape, filesToDownload)
      ensures Grown(content, content', scraped) && Grown(files, files', created)
      ensures scrapeWork == LoadUrls(disk', ScrapeFile)
      ensures downloadWork == HighValueFiles(LoadUrls(disk', DownloadFile))
      ensures Owned(SavedPages(scrapeWork, replies), |scrapeWork|, content', scraped, scrapeOwner)
      ensures done <= |downloadWork| && (raised <==> done < |downloadWork|)
      ensures raised ==> NameRaises(downloadWork[done], downloads(downloadWork[done]))
      ensures forall j :: 0 <= j < done ==> !NameRaises(downloadWork[j], downloads(downloadWork[j]))
      ensures Owned(LeftFiles(downloadWork, downloads), done, files', created, fileOwner)
    {
      disk' := DiscoverAndSave(render, disk);
      content', scraped, files', created, raised, done, scrapeWork, downloadWork, scrapeOwner, fileOwner :=
        ProcessSaved(disk', replies, downloads, content, files);
    }

    /** Stage 1 of `run_crawler`, the checkpoint after it, and the clearing
        of the visited set that ends it. */
    method DiscoverAndSave(render: string -> Render, disk: map<string, string>) returns (disk': map<string, string>)
      modifies this
      ensures var crawled := Discovery.Discover(Cfg(), render, rootUrl, 0, old(State()));
        && urlsToScrape == crawled.toScrape && filesToDownload == crawled.toDownload
        && pages == crawled.pages && visitedUrls == {}
      ensures disk' == SaveBoth(disk, urlsToScrape, filesToDownload)
    {
      Discover(render, rootUrl, 0);
      ghost var crawled := State();
      disk' := SaveDiscoveryResults(disk);
      visitedUrls := {};
      assert urlsToScrape == crawled.toScrape && filesToDownload == crawled.toDownload && pages == crawled.pages;
    }

    /** Stages 2 and 3 of `run_crawler`: scrape the pages of the saved scrape
        list, then download the files of the saved download list that have a
        high-value extension. */
    method ProcessSaved(disk: map<string, string>, replies: string -> PageReply,
                        downloads: string -> (HeadReply, GetReply, int),
                        content: map<string, string>, files: map<string, Bytes>)
      returns (content': map<string, string>, scraped: seq<string>,
               files': map<string, Bytes>, created: seq<string>, raised: bool, done: nat,
               scrapeWork: seq<string>, downloadWork: seq<string>,
               ghost scrapeOwner: seq<nat>, ghost fileOwner: seq<nat>)
      ensures Grown(content, content', scraped) && Grown(files, files', created)
      ensures scrapeWork == LoadUrls(disk, ScrapeFile)
      ensures downloadWork == HighValueFiles(LoadUrls(disk, DownloadFile))
      ensures Owned(SavedPages(scrapeWork, replies), |scrapeWork|, content', scraped, scrapeOwner)
      ensures done <= |downloadWork| && (raised <==> done < |downloadWork|)
      ensures raised ==> NameRaises(downloadWork[done], downloads(downloadWork[done]))
      ensures forall j :: 0 <= j < done ==> !NameRaises(downloadWork[j], downloads(downloadWork[j]))
      ensures Owned(LeftFiles(downloadWork, downloads), done, files', created, fileOwner)
    {
      scrapeWork := LoadUrls(disk, ScrapeFile);
      content', scraped, scrapeOwner := ScrapeAll(scrapeWork, replies, content);
      downloadWork := HighValueFiles(LoadUrls(disk, DownloadFile));
      files', created, raised, done, fileOwner := DownloadAll(downloadWork, downloads, files);
    }
  }

  /** From a fresh crawler, the pages stage 2 scrapes are the scrape list in
      sorted order and the files stage 3 tries are the high-value part of the
      download list in sorted order, whenever every URL survives a line of a
      text file unchanged. */
  lemma Worklists(cfg: Config, render: string -> Render, disk: map<string, string>)
    requires var c := Crawled(cfg, render);
      forall u :: u in c.toScrape || u in c.toDownload ==> Storable(u)
    ensures var c := Crawled(cfg, render);
      var disk' := SaveBoth(disk, c.toScrape, c.toDownload);
      && LoadUrls(disk', ScrapeFile) == SortedList(c.toScrape)
      && HighValueFiles(LoadUrls(disk', DownloadFile)) == SortedList(set u | u in c.toDownload && IsHighValue(u))
  {
    var c := Crawled(cfg, render);
    SaveBothLoad(disk, c.toScrape, c.toDownload);
    HighValueWorklist(c.toDownload);
  }
}
