# A model of web_crawler.py in Dafny

`web_crawler.py` is an asynchronous three-stage web crawler.

1. **Discovery** (`_stage_1_discover`) starts at a root URL. It walks the pages of the root's domain up to a depth bound and fills three sets: `visited_urls`, `urls_to_scrape` and `files_to_download`.
2. **Checkpoint.** `_save_discovery_results` writes the two work lists to the discovery directory. `_load_urls_from_disk` reads them back.
3. **Extraction** (`_stage_2_scrape_single`) saves the HTML of every page in the scrape list under a collision-free name.
4. **Download** (`_stage_3_download_single`) saves every high-value document in the download list, again under a collision-free name.

This project models that core in Dafny and proves what the code and its documentation promise about it.

The modules follow the program:

- `options.dfy`, `strings.dfy`: `Option`, and the Python string operations the code uses. These are `lower`, `strip`, `rstrip`, `startswith`/`endswith` over a tuple, `split`, `join`, `replace` and `str(int)`.
- `urls.dfy` (module `Urls`): the parts of `urllib.parse` the crawler uses (`urlsplit`, the `path` and `params` of `urlparse`, `urlunsplit` and the path `urlunparse` writes back, a simplified `urljoin`), plus `is_valid_url` and `get_absolute_url`.
- `extensions.dfy` (module `Extensions`): the extension tuples and the case-insensitive `endswith` classification.
- `filenames.dfy` (module `Filenames`): `create_unique_filename_from_url`, and the naming half of stage 3. Each is a method with a probing loop, specified by the first free candidate name.
- `persistence.dfy` (module `Persistence`): the save/load round trip, and the high-value filter of `run_crawler`.
- `discovery.dfy` (module `Discovery`): stage 1 as functions on a value of the three sets. It also holds the invariant those sets keep and its consequences.
- `crawler.dfy` (module `Crawler`): the `WebCrawler` class.
  - Its set fields are updated in place by methods whose contracts tie the new state to the `Discovery` functions.
  - Stages 2 and 3 are methods over maps that stand for the content and files directories.
  - `RunCrawler` runs the stages in order.

The browser and the HTTP client are inputs:

- `render` gives, for each URL, a failure or the status and the links of the rendered page.
- `replies` gives the stage-2 response and HTML.
- `downloads` gives the stage-3 `HEAD` reply, the `GET` reply and the value of `hash(url)` (`FileNameOf` takes its absolute value, as the code does).

A directory is a map from file name (relative to the directory) to contents; its key set is the set of existing names.

The documentation and the code of `create_unique_filename_from_url` disagree. The docstring example names `https://ex.com/a/b` `ex_com_a_b.html`. The code keeps `/` in the sanitised path, which gives `ex_com_a/b.html` (a file in a sub-directory, which is why stage 2 creates parent directories). The model follows the code.

## Model

| member | source | states |
|---|---|---|
| Urls.UrlSplit | web_crawler.py:63-64 | a successful `urlparse` gives a parsed scheme (or the default), a network location free of `/`, `?`, `#`, a path free of `?`, `#`, a query free of `#`, none of tab/CR/LF anywhere, balanced brackets in the network location, and a path that is empty or starts with `/` when there is a network location |
| Urls.UrlSplitDefault | web_crawler.py:63 | parsing with a default scheme is parsing without one and filling the default in where the scheme is empty |
| Urls.IsValidUrl | web_crawler.py:46-66 | the definition of `is_valid_url`: the parse succeeds, the scheme is `http` or `https` and the network location is non-empty; a parse error gives `False`. It has no contract of its own: its properties are the `ValidUrlHasSchemeAndHost`, `UnsplitValidIff`, `ValidUrlParts` and `WithoutColonNotValid` rows |
| Urls.ValidUrlHasSchemeAndHost | web_crawler.py:62-66 | a valid URL contains a `:` (it has a scheme) and has a non-empty network location; a URL that fails to parse is not valid |
| Urls.SplitUnsplit | web_crawler.py:88-91 | re-parsing a URL assembled from well-formed components gives back exactly those components (the `urljoin` result that `is_valid_url` parses again) |
| Urls.UnsplitValidIff | web_crawler.py:62-66 | an assembled URL with a network location is valid exactly when its scheme is `http` or `https`, and its netloc is the one it was built from |
| Urls.ValidUrlParts | web_crawler.py:62-66 | a valid URL parses to well-formed components with scheme `http` or `https` and a non-empty network location, and `Netloc` is that location |
| Urls.WithoutColonNotValid | web_crawler.py:57-60 | a string without `:` (such as `/relative/path`) is never a valid URL |
| Urls.GetAbsoluteUrl | web_crawler.py:85-93 | a link starting with `#`, `mailto:` or `tel:` is rejected; the call raises exactly when the link is not special and `urljoin` raises; an accepted result is a valid URL with no `#` |
| Urls.FragmentLinkIsRejected | web_crawler.py:82-86 | `get_absolute_url("https://example.com/", "#section")` is `None` |
| Urls.RelativeLinkStaysOnHost | web_crawler.py:88-92 | a relative link (no scheme, no network location) against a valid page URL is always accepted and keeps the page's network location |
| Urls.CleanedIsValid | web_crawler.py:89-92 | cutting a well-formed `http(s)` URL at its first `#` gives a valid URL with the same network location |
| Urls.CutFragment | web_crawler.py:89 | cutting at the first `#` is the same as dropping the fragment component |
| Urls.JoinedParts | web_crawler.py:88 | `urljoin` of a valid base and a relative link is the assembly of well-formed `http(s)` components on the base's network location |
| Urls.Resolve | web_crawler.py:88 | a resolved reference keeps the reference's scheme and fragment and takes the network location it is given (`UrlJoin` passes the base's for schemes that use a network location, otherwise the reference's own) |
| Urls.PathBeforeParams | web_crawler.py:114 | the path `urlparse` reports is a prefix of `urlsplit`'s path, stops only at a `;`, and is non-empty when that path starts with `/` |
| Urls.ParsedParams | web_crawler.py:88 | the parameters `urlparse` reports are non-empty only for a scheme that uses them, and then the path, `;` and the parameters make up `urlsplit`'s path |
| Urls.UnparsedPath | web_crawler.py:88 | the path `urlunparse` writes back is `urlsplit`'s path, or that path less a final `;` with no parameters after it; it starts with `/` when the parsed path does |
| Urls.EmptyParamsIgnored | web_crawler.py:88 | against a valid base, `urljoin(base, name + ";")` equals `urljoin(base, name)` for a single relative segment `name`: an empty `;` is dropped, as `urlparse`/`urlunparse` drop it |
| Urls.UrlJoin | web_crawler.py:88 | `urljoin` never raises when the base or the link is empty, and raises exactly when the base, or the link with the base's scheme as default, fails to parse |
| Extensions.IsAsset | web_crawler.py:29-42 | a URL is routed to the download list exactly when, ignoring case, it ends with a high-value or a general asset extension, since `FILE_EXTENSIONS_TO_SAVE` is their concatenation |
| Extensions.IsHighValue | web_crawler.py:29-38 | a URL that passes the high-value test never ends with a general asset extension, so the stage-3 filter never keeps an image, archive, stylesheet or script |
| Extensions.ClassificationIgnoresCase | web_crawler.py:259 | lower-casing a URL first changes neither classification |
| Filenames.CandidateInjective | web_crawler.py:125-131 | different counters give different candidate names |
| Filenames.CandidatesCount | web_crawler.py:129-131 | if the first `n` candidates all exist, at least `n` names exist (so the probing loop ends) |
| Filenames.FirstFreeIndex | web_crawler.py:126-131 | the counter the loop stops at is the first whose candidate is free, and it is at most the number of existing names |
| Filenames.FirstFreeName | web_crawler.py:125-131 | the chosen name does not exist yet |
| Filenames.FirstFreeNameIs | web_crawler.py:125-131 | the chosen name is the candidate of the first free counter |
| Filenames.FirstFreeNameWhenFree | web_crawler.py:125-129 | when the plain name is free it is chosen, with no counter |
| Filenames.SanitizePath | web_crawler.py:121 | every character other than a letter, digit, `_`, `-`, `.` or `/` becomes `_`, position by position |
| Filenames.PathComponents | web_crawler.py:117-119 | an empty path or one made only of `/` becomes `index`; any other path becomes the slice between its leading and trailing `/` (both removed), which is non-empty and neither starts nor ends with `/` |
| Filenames.StemOf | web_crawler.py:117-123 | the base name is the network location with `.` replaced by `_`, then `_`, then the sanitised path; every character after the network location is safe |
| Filenames.CreateUniqueFilenameFromUrl | web_crawler.py:114-133 | the loop returns the first free name among `base+ext`, `base_1+ext`, `base_2+ext`, …, which does not exist; it raises exactly when `urlparse` does |
| Filenames.ProbeNames | web_crawler.py:125-133 | the counter loop returns the first free candidate, which does not exist |
| Filenames.SplitExt | web_crawler.py:417 | `splitext` splits the name into a stem and an extension that rejoin to it; a non-empty extension starts at the last `.`, which lies after the last `/` with a character other than `.` between them, and holds no other `.` or `/`; the extension is empty only when no `.` of the last component follows such a character |
| Filenames.LastSegment | web_crawler.py:409 | `path.split('/')[-1]` is the suffix of the path after its last `/`, and contains no `/` |
| Filenames.FileNameOf | web_crawler.py:409-411 | a path ending in `/` (or empty) gives `downloaded_file_<hash>`; otherwise the last segment; never empty, never with `/` |
| Filenames.DownloadFilename | web_crawler.py:409-411 | the stage-3 file name exists exactly when `urlparse` of the URL does not raise |
| Filenames.DownloadSaveName | web_crawler.py:413-423 | the stage-3 loop picks the name itself if free, else the first free `stem_k+ext`, and never an existing name |
| Filenames.ConcurrentNames | web_crawler.py:409-432 | naming all files against the same directory gives names that do not exist yet, but nothing says they are distinct |
| Filenames.ConcurrentNamesCollide | web_crawler.py:413-432 | two downloads with the same file name, named before either is opened, both get the same name |
| Persistence.BelowTotal | web_crawler.py:202 | Python's string order is total on distinct strings (`BelowIrreflexive` and `BelowTransitive` give the rest) |
| Persistence.LeastExists | web_crawler.py:202 | every non-empty finite set of strings has a least element |
| Persistence.SortedList | web_crawler.py:202 | `sorted(s)` lists exactly the elements of the set, each once, in strictly increasing order |
| Persistence.SortedUnique | web_crawler.py:202 | two strictly sorted lists with the same elements are equal (so `sorted` is determined by the set) |
| Persistence.Serialize | web_crawler.py:202 | the file written holds one line per URL of the set, in sorted order (a single empty line for the empty set), when no URL contains a newline |
| Persistence.TranslateNewlines | web_crawler.py:230 | reading in text mode leaves no `\r`, and changes nothing in text without one |
| Persistence.StrippedNonBlank | web_crawler.py:231 | the loaded lines are non-blank and already stripped, and no more than the lines read |
| Persistence.StrippedNonBlankMembers | web_crawler.py:231 | the comprehension keeps exactly the non-empty stripped lines: each of them appears and nothing else does |
| Persistence.StrippedNonBlankAppend | web_crawler.py:231 | the comprehension over two runs of lines is that of the first run followed by that of the second, so the entries keep the file's order |
| Persistence.StripIdempotent | web_crawler.py:231 | stripping twice is stripping once |
| Persistence.LoadLines | web_crawler.py:229-231 | the entries loaded from a file are exactly the non-empty stripped forms of its lines |
| Persistence.LoadUrls | web_crawler.py:225-231 | a missing file loads as `[]`; every loaded entry is non-empty and stripped |
| Persistence.SerializedLines | web_crawler.py:200-202 | the saved text of a storable set holds no `\r`, and splitting it at line breaks gives the set in sorted order, or a single empty line for the empty set |
| Persistence.SaveLoad | web_crawler.py:200-231 | loading what was saved gives back the set in sorted order, when no entry is blank, contains a line break or has surrounding whitespace |
| Persistence.SaveBoth | web_crawler.py:200-207 | saving writes exactly the two discovery files and leaves every other file of the directory alone |
| Persistence.SaveBothLoad | web_crawler.py:200-231 | after the checkpoint, each work list loads back as its set in sorted order |
| Persistence.HighValueFiles | web_crawler.py:519-522 | the stage-3 filter keeps exactly the loaded URLs with a high-value extension |
| Persistence.HighValueFilesSorted | web_crawler.py:519-522 | filtering a strictly sorted list gives a strictly sorted list |
| Persistence.HighValueFilesAppend | web_crawler.py:519-522 | the filter distributes over concatenation, so the kept URLs come in the loaded order |
| Persistence.HighValueWorklist | web_crawler.py:516-522 | the stage-3 work list is the sorted list of the high-value URLs of the saved download set |
| Discovery.Enter | web_crawler.py:255-262 | entering a URL adds it to the visited set, and to the scrape set exactly when it is not an asset; the download set is untouched |
| Discovery.Discover | web_crawler.py:252-301 | beyond the depth bound or for a visited URL nothing changes; otherwise the URL is visited and opened next, before any other page; the sets only grow |
| Discovery.Explore | web_crawler.py:265-304 | opening a page, following its links and running its children only grows the sets |
| Discovery.Follow | web_crawler.py:281-298 | one link touches only the visited and download sets and the child list, and only grows them |
| Discovery.ScanFrom | web_crawler.py:279-298 | the link loop never touches the scrape set or the pages opened; the other sets only grow |
| Discovery.RunChildren | web_crawler.py:300-301 | running the queued children only grows the sets and the log of pages opened |
| Discovery.EmptyInv | web_crawler.py:177-179 | the empty sets of a new crawler satisfy the discovery invariant |
| Discovery.EnterInv | web_crawler.py:252-262 | entering an admissible, unvisited URL within the depth bound keeps the invariant |
| Discovery.AddVisitedInv | web_crawler.py:287-289 | marking an off-site URL visited keeps the invariant |
| Discovery.AddDownloadInv | web_crawler.py:292-293 | adding an on-site asset to the download set keeps the invariant |
| Discovery.AppendAdmissible | web_crawler.py:294-298 | queueing an on-site non-asset link keeps every queued child admissible |
| Discovery.FollowInv | web_crawler.py:281-298 | following an accepted or rejected link keeps the invariant and the admissibility of the queued children |
| Discovery.ScanInv | web_crawler.py:279-298 | the whole link loop keeps the invariant and queues only admissible children |
| Discovery.ExploreInv | web_crawler.py:265-304 | opening a page and everything below it keeps the invariant |
| Discovery.ChildrenInv | web_crawler.py:300-301 | running admissible children keeps the invariant |
| Discovery.DiscoverInv | web_crawler.py:252-304 | discovering an admissible URL keeps the invariant |
| Discovery.CrawlProperties | web_crawler.py:252-298 | after a crawl from the root: the scrape and download sets are disjoint; every scraped page was visited, is not an asset, and is the root or on the root domain; every download is an asset on the root domain; no page was opened twice; every page was opened within the depth bound; the root was opened first at depth 0 |
| Discovery.ErrorStatusStops | web_crawler.py:269-271 | a page answering with status 400 or more is visited (and queued for scraping if not an asset) but none of its links is followed |
| Discovery.RaisedStopsChildren | web_crawler.py:280-304 | when `get_absolute_url` raises in the link loop, the links seen so far count, but no child is opened |
| Discovery.OffSiteLinkOnlyVisited | web_crawler.py:287-289 | an unvisited link to another network location is only marked visited |
| Discovery.VisitedLinkSkipped | web_crawler.py:283-284 | a link already visited changes nothing |
| Crawler.GrownStep | web_crawler.py:357-358 | writing a file under a fresh name extends a directory by exactly that name |
| Crawler.OwnedStep | web_crawler.py:357-358 | writing the value of the next worklist entry under a fresh name keeps the new files one to one with the entries that have a value |
| Crawler.ScrapeCheck | web_crawler.py:336-345 | about the stage-2 gate `ScrapeAccepts`: with no response the content type is empty and the page is skipped; the content type is compared in lower case; an HTML page with a status below 400 is scraped, and stage 3 would refuse the same reply |
| Crawler.HeadCheck | web_crawler.py:389-404 | about the stage-3 gate `HeadAccepts`: a failed `HEAD` is a skip; the content type is compared in lower case; a reply stage 3 accepts is one stage 2 would refuse unless it announces XHTML, which only stage 2 looks for |
| Crawler.WebCrawler.constructor | web_crawler.py:158-179 | the root URL loses its trailing `/`, the root domain is the network location of the given URL, and the three sets start empty |
| Crawler.WebCrawler.Create | web_crawler.py:143-163 | construction, with the defaults `https://www.scrapethissite.com/` and depth 15, fails exactly when the URL is not valid; otherwise it stores the root URL without its trailing `/`, its network location and the given depth, with empty sets |
| Crawler.WebCrawler.Discover | web_crawler.py:235-308 | the recursive method leaves the three fields equal to the discovery specification applied to the old ones |
| Crawler.WebCrawler.ScanLinks | web_crawler.py:279-298 | the link loop updates the fields and returns the children and the raised flag exactly as the specification of the loop |
| Crawler.WebCrawler.FollowLink | web_crawler.py:281-298 | one link updates the fields and the child list exactly as `Follow` |
| Crawler.WebCrawler.RunTasks | web_crawler.py:300-301 | running the children one after the other leaves the fields as `RunChildren` |
| Crawler.WebCrawler.SaveDiscoveryResults | web_crawler.py:184-207 | the checkpoint writes the two files, and each loads back as the sorted set when its entries are storable |
| Crawler.WebCrawler.ScrapeSingle | web_crawler.py:328-363 | a page is skipped exactly when it loaded without an HTML content type or with a status of 400 or more; it is saved exactly when accepted with HTML and a parseable URL, under the first free name for the URL, which did not exist; otherwise the directory is unchanged |
| Crawler.WebCrawler.ScrapeAll | web_crawler.py:493-504 | stage 2 only adds files, under distinct names that did not exist; the new files are one to one with the pages saved (loaded with an accepted response, HTML read, URL parsed), each holding its page's HTML, in worklist order; a skipped or failed page leaves no file |
| Crawler.WebCrawler.ScrapeNext | web_crawler.py:328-363 | one pass of the stage-2 loop keeps the directory grown by exactly one file per page saved so far |
| Crawler.WebCrawler.DownloadSingle | web_crawler.py:389-441 | a file is skipped exactly when `HEAD` fails, gives 400 or more, or announces HTML; the coroutine raises exactly when `urlparse` does; otherwise the first free name for its file name is used, and the directory gains the whole body, the part written before a failure, or nothing when the `GET` failed before opening |
| Crawler.WebCrawler.DownloadAll | web_crawler.py:516-535 | stage 3 run one download at a time only adds files, under distinct names that did not exist; it stops exactly at the first URL whose `HEAD` is accepted but whose name raises, and no URL before it raises; the new files are one to one with the URLs before that whose task leaves a file, each holding the whole body of a complete `GET` or the part written before it broke off; a skipped task or a `GET` failing before the file is opened leaves no file |
| Crawler.WebCrawler.DownloadNext | web_crawler.py:389-441 | one pass of the stage-3 loop reports exactly when the URL's naming raises, and otherwise keeps the directory grown by exactly one file per task that left one |
| Crawler.WebCrawler.DiscoverAndSave | web_crawler.py:476-485 | stage 1 from the root at depth 0 leaves the work lists and the pages opened as the discovery specification computes them, the checkpoint writes both files, and the visited set is cleared |
| Crawler.WebCrawler.ProcessSaved | web_crawler.py:493-535 | stage 2 works on the list loaded from `urls_to_scrape.txt` and stage 3 on the high-value part of the list loaded from `files_to_download.txt`; both only add files under fresh, distinct names, one to one with the pages saved and the downloads that left a file; stage 3 stops exactly at the first URL whose naming raises |
| Crawler.WebCrawler.RunCrawler | web_crawler.py:445-535 | the run leaves the work lists as discovery from the root computes them, clears the visited set, writes the checkpoint, and runs stages 2 and 3 on the lists loaded back from it; the new files are fresh, distinct and one to one with the pages saved and the downloads that left a file, and stage 3 stops exactly at the first URL whose naming raises |
| Crawler.Worklists | web_crawler.py:481-522 | after a crawl, stage 2 loads exactly the sorted scrape set and stage 3 works on exactly the sorted high-value part of the download set |

## Left out

- The browser (Playwright's `new_page`, `goto`, `evaluate`, `content`) and the HTTP client (`httpx` `head`, `stream`) are inputs to the model, as described above. Time-outs and `wait_until` are not modelled.
- `asyncio.gather` fan-out is not modelled as concurrency.
  - Discovery runs the children of a page one after the other, in the order they were queued.
  - With real interleaving, a URL can first be reached on a different path, so the sets and depths may differ from the depth-first ones computed here. The invariant lemmas hold whatever the order, because every step keeps `Discovery.Inv`.
- Stages 2 and 3 process their work lists in list order, one task at a time.
  - For stage 2, freshness and distinctness of the new names carry over, since there is no `await` between choosing a name and writing the file. Which URL gets which name does not: it depends on the order in which the tasks finish. For example `https://ex.com/a?x=1` and `https://ex.com/a?x=2` share the stem `ex_com_a`, and either may end up as `ex_com_a.html`.
  - For stage 3 it does lose something; see Findings.
- `asyncio.sleep` delays, `print` output and `page.close` are not modelled.
- `mkdir` of the output and parent directories is not modelled. Directories created by stage 2 are not counted among the existing names, and a failure to open a file for writing is not modelled.
- `hash(url)` is an input (Python randomises string hashes per process).
- The date-stamped output root (`OUTPUT_ROOT_DIR`, built from the current date) is not modelled: the three directories are inputs.
- Urls.UrlJoin: the simplified `urljoin` reads both URLs with their `;` parameters split off, as Python's `urlparse` does, but it does not remove `.` and `..` segments or empty segments (section 5.2.4 of RFC 3986). The docstring example `"../home.html"` against `https://example.com/page/` therefore gives `https://example.com/page/../home.html` in the model, not `https://example.com/home.html`. The properties used by discovery (validity, no `#`, the network location of relative links) do not depend on it.
- Urls.UrlSplit: the checks of `urlsplit` that raise `ValueError` are reduced to unbalanced `[`/`]` in the network location. The port-number, IPv6-literal and NFKC-normalisation checks are not modelled.
- `str.lower` and the `\w` of `re.sub` are modelled on ASCII. Non-ASCII letters and digits are treated as other characters. (`str.strip` uses Python's full white-space set.)
- `pathlib` normalisation of the joined path (for example a `..` segment taken from a URL path) is not modelled. Names are the strings the code builds.
- Crawler.WebCrawler.DownloadAll: when a task raises (`urlparse` failing at line 409), the model stops the stage at that URL. Under `gather` the other tasks already started keep running.
- Crawler.WebCrawler.ScrapeAll: states which page each new file belongs to and what it holds, but not the exact name each page gets, since that depends on the order in which tasks finish; `ScrapeSingle` states the name for one page.
- Crawler.WebCrawler.ProcessSaved: states which page or download each new file belongs to, not the exact names chosen, for the same reason.
- Crawler.WebCrawler.RunCrawler: `pages` (the order and depth in which pages were opened) is a ghost field kept for the proofs. The source has no such list.

## Findings

| source | as written | input that shows it | evidently intended | confidence | as-written member | corrected member |
|---|---|---|---|---|---|---|
| web_crawler.py:409-432 | each stage-3 task picks its file name (probing `exists()`) and only then awaits the `GET` before opening the file, so every concurrent task probes the same directory | `https://example.com/a/report.pdf` and `https://example.com/b/report.pdf` in the same run: both tasks choose `report.pdf`, and the second download overwrites the first | every downloaded file gets its own name (`report.pdf`, then `report_1.pdf`), as the duplicate handling sets out to do | medium, not executed (depends on both `HEAD` replies arriving before either file is opened) | Filenames.ConcurrentNamesCollide | Crawler.WebCrawler.DownloadAll |
