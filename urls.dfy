/**
  The URL utilities of web_crawler.py (`is_valid_url`, `get_absolute_url`) and
  the parts of Python's `urllib.parse` they stand on: `urlsplit`, `urlunsplit`,
  the `path` and `params` that `urlparse` reports, the path that `urlunparse`
  writes back, and a simplified `urljoin`.
 */
module Urls {
  import opened Options
  import opened Strings

  /** The five components `urlsplit` returns. */
  datatype Parts = Parts(scheme: string, netloc: string, path: string, query: string, fragment: string)

  /** Scheme lists of `urllib.parse`. */
  const UsesRelative: set<string> :=
    {"", "ftp", "http", "gopher", "nntp", "imap", "wais", "file", "https", "shttp", "mms",
     "prospero", "rtsp", "rtsps", "rtspu", "sftp", "svn", "svn+ssh", "ws", "wss"}
  const UsesNetloc: set<string> :=
    {"", "ftp", "http", "gopher", "nntp", "telnet", "imap", "wais", "file", "mms", "https",
     "shttp", "snews", "prospero", "rtsp", "rtsps", "rtspu", "rsync", "svn", "svn+ssh", "sftp",
     "nfs", "git", "git+ssh", "ws", "wss", "itms-services"}
  const UsesParams: set<string> :=
    {"", "ftp", "hdl", "prospero", "http", "imap", "https", "shttp", "rtsp", "rtsps", "rtspu",
     "sip", "sips", "mms", "sftp", "tel"}

  /** Characters `urlsplit` deletes wherever they occur. */
  const UnsafeChars: set<char> := {'\t', '\r', '\n'}

  /** Characters that end the network location. */
  const NetlocDelimiters: set<char> := {'/', '?', '#'}

  predicate IsSchemeChar(c: char)
  {
    IsAsciiLetter(c) || IsAsciiDigit(c) || c == '+' || c == '-' || c == '.'
  }

  predicate AllSchemeChars(s: string)
  {
    forall i :: 0 <= i < |s| ==> IsSchemeChar(s[i])
  }

  /** A scheme as `urlsplit` reports one it found: a letter, then scheme characters, lower case. */
  predicate IsParsedScheme(s: string)
  {
    s != [] && IsAsciiLetter(s[0]) && AllSchemeChars(s) && ToLower(s) == s
  }

  /** `lstrip` of the WHATWG "C0 control or space" characters U+0000..U+0020. */
  function LStripC0(s: string): (r: string)
    ensures |r| <= |s| && r == s[|s| - |r|..]
    ensures r == [] || r[0] as int > 32
  {
    if s != [] && s[0] as int <= 32 then LStripC0(s[1..]) else s
  }

  /** The clean-up `urlsplit` does before parsing. */
  function Sanitize(url: string): (r: string)
    ensures NoneOf(r, UnsafeChars)
  {
    RemoveChars(LStripC0(url), UnsafeChars)
  }

  /** The scheme step of `urlsplit`: `(scheme, rest)`. */
  function SplitScheme(url: string, defaultScheme: string): (r: (string, string))
    ensures r.0 == defaultScheme || IsParsedScheme(r.0)
    ensures |r.1| <= |url| && r.1 == url[|url| - |r.1|..]
  {
    var i := IndexOfAny(url, {':'});
    if 0 < i < |url| && IsAsciiLetter(url[0]) && AllSchemeChars(url[..i])
    then
      var scheme := url[..i];
      assert IsAsciiLetter(ToLower(scheme)[0]);
      assert ToLower(ToLower(scheme)) == ToLower(scheme);
      (ToLower(scheme), url[i + 1..])
    else (defaultScheme, url)
  }

  /** Only a scheme found in the URL differs between defaults, and a found scheme is never empty. */
  lemma SplitSchemeDefault(url: string, defaultScheme: string)
    ensures SplitScheme(url, defaultScheme).1 == SplitScheme(url, "").1
    ensures SplitScheme(url, defaultScheme).0 ==
      if SplitScheme(url, "").0 == "" then defaultScheme else SplitScheme(url, "").0
  {
  }

  /** `_splitnetloc`: after a leading `//`, the network location runs to the first of `/?#`. */
  function SplitNetloc(rest: string): (r: (string, string))
    ensures NoneOf(r.0, NetlocDelimiters)
    ensures r.0 != "" ==> r.1 == "" || r.1[0] in NetlocDelimiters
    ensures NoneOf(rest, UnsafeChars) ==> NoneOf(r.0, UnsafeChars) && NoneOf(r.1, UnsafeChars)
  {
    if StartsWith(rest, "//") then
      var k := 2 + IndexOfAny(rest[2..], NetlocDelimiters);
      (rest[2..k], rest[k..])
    else ("", rest)
  }

  /** The fragment and query steps of `urlsplit`: `(path, query, fragment)`. */
  function SplitPathQueryFragment(s: string): (r: (string, string, string))
    ensures NoneOf(r.0, {'?', '#'}) && NoneOf(r.1, {'#'})
    ensures NoneOf(s, UnsafeChars) ==>
      NoneOf(r.0, UnsafeChars) && NoneOf(r.1, UnsafeChars) && NoneOf(r.2, UnsafeChars)
    ensures s == "" || s[0] in NetlocDelimiters ==> r.0 == "" || r.0[0] == '/'
  {
    var (beforeFragment, fragment) := SplitAtFirst(s, '#');
    var (path, query) := SplitAtFirst(beforeFragment, '?');
    (path, query, fragment)
  }

  /** Everything `urlsplit` reports after the scheme; `None` where Python raises
      `ValueError` (a network location with unbalanced brackets). */
  function SplitAfterScheme(scheme: string, rest: string): (r: Option<Parts>)
    ensures r.Some? ==> r.value.scheme == scheme
    ensures r.Some? ==> NoneOf(r.value.netloc, NetlocDelimiters)
    ensures r.Some? ==> NoneOf(r.value.path, {'?', '#'}) && NoneOf(r.value.query, {'#'})
    ensures r.Some? && NoneOf(rest, UnsafeChars) ==>
      && NoneOf(r.value.netloc, UnsafeChars) && NoneOf(r.value.path, UnsafeChars)
      && NoneOf(r.value.query, UnsafeChars) && NoneOf(r.value.fragment, UnsafeChars)
    ensures r.Some? ==> ('[' in r.value.netloc <==> ']' in r.value.netloc)
    ensures r.Some? && r.value.netloc != "" ==> r.value.path == "" || r.value.path[0] == '/'
  {
    var (netloc, rest1) := SplitNetloc(rest);
    if ('[' in netloc) != (']' in netloc) then None
    else
      var (path, query, fragment) := SplitPathQueryFragment(rest1);
      Some(Parts(scheme, netloc, path, query, fragment))
  }

  /** `urlsplit(url, defaultScheme)`; `None` where Python raises `ValueError`. */
  function UrlSplit(url: string, defaultScheme: string): (r: Option<Parts>)
    ensures r.Some? ==> r.value.scheme == defaultScheme || IsParsedScheme(r.value.scheme)
    ensures r.Some? ==> NoneOf(r.value.netloc, NetlocDelimiters) && NoneOf(r.value.netloc, UnsafeChars)
    ensures r.Some? ==> NoneOf(r.value.path, {'?', '#'}) && NoneOf(r.value.path, UnsafeChars)
    ensures r.Some? ==> NoneOf(r.value.query, {'#'}) && NoneOf(r.value.query, UnsafeChars)
    ensures r.Some? ==> NoneOf(r.value.fragment, UnsafeChars)
    ensures r.Some? ==> ('[' in r.value.netloc <==> ']' in r.value.netloc)
    ensures r.Some? && r.value.netloc != "" ==> r.value.path == "" || r.value.path[0] == '/'
  {
    var u := Sanitize(url);
    var (scheme, rest) := SplitScheme(u, defaultScheme);
    assert NoneOf(rest, UnsafeChars);
    SplitAfterScheme(scheme, rest)
  }

  /** A scheme found in the URL wins; otherwise the default is reported. */
  lemma UrlSplitDefault(url: string, defaultScheme: string)
    ensures UrlSplit(url, defaultScheme) ==
      match UrlSplit(url, "")
      case None => None
      case Some(p) => Some(if p.scheme == "" then p.(scheme := defaultScheme) else p)
  {
    SplitSchemeDefault(Sanitize(url), defaultScheme);
  }

  /** `_splitparams` for a path that holds a `;`: the path part before the parameters. */
  function PathBeforeParams(path: string): (r: string)
    ensures |r| <= |path| && r == path[..|r|]
    ensures |r| < |path| ==> path[|r|] == ';'
    ensures path != "" && path[0] == '/' ==> r != ""
  {
    var slash := LastIndexOf(path, '/');
    if 0 <= slash then
      var i := slash + IndexOfAny(path[slash..], {';'});
      if i == |path| then path else path[..i]
    else path[..IndexOfAny(path, {';'})]
  }

  /** The `path` that `urlparse` reports for components `p`: `urlsplit`'s path
      without its `;parameters` for the schemes that use them. */
  function ParsedPath(p: Parts): string
  {
    if p.scheme in UsesParams && ';' in p.path then PathBeforeParams(p.path) else p.path
  }

  /** The `params` that `urlparse` reports for components `p`: whatever follows
      the `;` at which `ParsedPath` stops. */
  function ParsedParams(p: Parts): (r: string)
    ensures r != "" ==> p.scheme in UsesParams && ParsedPath(p) + ";" + r == p.path
  {
    var path := ParsedPath(p);
    if |path| < |p.path| then p.path[|path| + 1..] else ""
  }

  /** The path `urlunparse` writes for what `urlparse` reported: the path, then
      `;` and the parameters when there are any. It is `urlsplit`'s path, less a
      `;` that ends it with no parameters after it. */
  function UnparsedPath(p: Parts): (r: string)
    ensures r == p.path || (p.scheme in UsesParams && r + ";" == p.path)
    ensures ParsedPath(p) != "" && ParsedPath(p)[0] == '/' ==> r != "" && r[0] == '/'
  {
    var params := ParsedParams(p);
    UnparsedPathShape(p);
    ParsedPath(p) + (if params != "" then ";" + params else "")
  }

  lemma UnparsedPathShape(p: Parts)
    ensures var path, params := ParsedPath(p), ParsedParams(p);
            var r := path + (if params != "" then ";" + params else "");
            r == p.path || (p.scheme in UsesParams && r + ";" == p.path)
  {
    var path, params := ParsedPath(p), ParsedParams(p);
    if params != "" {
      assert path + ";" + params == p.path;
    } else if path != p.path {
      assert p.scheme in UsesParams && ';' in p.path;
      assert |path| + 1 == |p.path| && p.path[|path|] == ';';
      assert path + ";" == p.path;
    } else {
      assert path + "" == p.path;
    }
  }

  /** The `netloc` attribute of `urlparse(url)` (empty where `urlparse` raises). */
  function Netloc(url: string): string
  {
    match UrlSplit(url, "")
    case None => ""
    case Some(p) => p.netloc
  }

  /** `is_valid_url`: an http or https scheme and a network location; a parse error means false. */
  predicate IsValidUrl(url: string)
  {
    match UrlSplit(url, "")
    case None => false
    case Some(p) => (p.scheme == "http" || p.scheme == "https") && p.netloc != ""
  }

  /** `urlunsplit`. */
  function Unsplit(p: Parts): string
  {
    var withNetloc :=
      if p.netloc != "" || (p.scheme != "" && p.scheme in UsesNetloc && !StartsWith(p.path, "//"))
      then "//" + p.netloc + (if p.path != "" && p.path[0] != '/' then "/" + p.path else p.path)
      else p.path;
    var withScheme := if p.scheme != "" then p.scheme + ":" + withNetloc else withNetloc;
    var withQuery := if p.query != "" then withScheme + "?" + p.query else withScheme;
    if p.fragment != "" then withQuery + "#" + p.fragment else withQuery
  }

  /** The merge step of `urljoin` for a path that does not start with `/`:
      the base path up to its last `/`, then the reference path (whose
      parameters, which hold no `/`, stay on its last segment). */
  function MergePath(basePath: string, path: string): string
  {
    if basePath == "" then "/" + path
    else basePath[..LastIndexOf(basePath, '/') + 1] + path
  }

  /** `urljoin(base, link)`, without removal of `.`/`..` segments and of empty
      segments; `None` where Python raises `ValueError`. Both URLs are read as
      `urlparse` reads them, with `;parameters` split off, and the result is
      written back as `urlunparse` writes it, so an empty `;` disappears. */
  function UrlJoin(base: string, link: string): (r: Option<string>)
    ensures base == "" || link == "" ==> r.Some?
    ensures r.None? <==>
      (base != "" && link != "" &&
       (UrlSplit(base, "").None? || UrlSplit(link, UrlSplit(base, "").value.scheme).None?))
  {
    if base == "" then Some(link)
    else if link == "" then Some(base)
    else
      match UrlSplit(base, "")
      case None => None
      case Some(b) =>
        match UrlSplit(link, b.scheme)
        case None => None
        case Some(l) =>
          if l.scheme != b.scheme || l.scheme !in UsesRelative then Some(link)
          else if l.scheme in UsesNetloc && l.netloc != "" then Some(Unsplit(l.(path := UnparsedPath(l))))
          else Some(Unsplit(Resolve(b, l, if l.scheme in UsesNetloc then b.netloc else l.netloc)))
  }

  /** The components `urljoin` takes from the base `b` and the reference `l`
      when the reference has no network location of its own. */
  function Resolve(b: Parts, l: Parts, netloc: string): (r: Parts)
    ensures r.scheme == l.scheme && r.netloc == netloc && r.fragment == l.fragment
  {
    var path := ParsedPath(l);
    if path == "" && ParsedParams(l) == "" then
      Parts(l.scheme, netloc, UnparsedPath(b), if l.query != "" then l.query else b.query, l.fragment)
    else if path != "" && path[0] == '/' then
      Parts(l.scheme, netloc, UnparsedPath(l), l.query, l.fragment)
    else
      Parts(l.scheme, netloc, MergePath(ParsedPath(b), UnparsedPath(l)), l.query, l.fragment)
  }

  /** The three ways `get_absolute_url` can end. */
  datatype Resolution =
    | Raised            // `urljoin` raised `ValueError`; the exception leaves the function
    | Rejected          // the function returns `None`
    | Absolute(url: string)

  const SpecialPrefixes: seq<string> := ["#", "mailto:", "tel:"]

  /** `get_absolute_url(base_url, link)`. */
  function GetAbsoluteUrl(baseUrl: string, link: string): (r: Resolution)
    ensures StartsWithAny(link, SpecialPrefixes) ==> r == Rejected
    ensures r.Raised? <==> !StartsWithAny(link, SpecialPrefixes) && UrlJoin(baseUrl, link).None?
    ensures r.Absolute? ==> IsValidUrl(r.url) && '#' !in r.url
  {
    if StartsWithAny(link, SpecialPrefixes) then Rejected
    else
      match UrlJoin(baseUrl, link)
      case None => Raised
      case Some(joined) =>
        var cleaned := joined[..IndexOfAny(joined, {'#'})];
        if IsValidUrl(cleaned) then Absolute(cleaned) else Rejected
  }

  // ---------------------------------------------------------------------------
  // urlsplit undoes urlunsplit

  /** Components that `urlunsplit` can render and `urlsplit` read back unchanged. */
  predicate WellFormedParts(p: Parts)
  {
    && IsParsedScheme(p.scheme)
    && p.netloc != ""
    && NoneOf(p.netloc, NetlocDelimiters + UnsafeChars)
    && ('[' in p.netloc <==> ']' in p.netloc)
    && NoneOf(p.path, {'?', '#'} + UnsafeChars)
    && (p.path == "" || p.path[0] == '/')
    && NoneOf(p.query, {'#'} + UnsafeChars)
    && NoneOf(p.fragment, UnsafeChars)
  }

  function QueryPart(query: string): string
  {
    if query != "" then "?" + query else ""
  }

  function FragmentPart(fragment: string): string
  {
    if fragment != "" then "#" + fragment else ""
  }

  lemma UnsplitShape(p: Parts)
    requires WellFormedParts(p)
    ensures Unsplit(p) == p.scheme + ":" + "//" + p.netloc + p.path + QueryPart(p.query) + FragmentPart(p.fragment)
  {
  }

  /** The fragment and query steps of `urlsplit` on `path + ?query + #fragment`. */
  lemma SplitTail(path: string, query: string, fragment: string)
    requires NoneOf(path, {'?', '#'}) && NoneOf(query, {'#'})
    ensures SplitPathQueryFragment(path + QueryPart(query) + FragmentPart(fragment)) == (path, query, fragment)
  {
    var pq := path + QueryPart(query);
    assert NoneOf(QueryPart(query), {'#'});
    NoneOfAppend(path, QueryPart(query), {'#'});
    assert NoneOf(path, {'?'});
    assert FragmentPart(fragment) == (if fragment != "" then ['#'] + fragment else "");
    assert QueryPart(query) == (if query != "" then ['?'] + query else "");
    SplitAtFirstOf(pq, '#', fragment, fragment != "");
    SplitAtFirstOf(path, '?', query, query != "");
  }

  /** The netloc step of `urlsplit` on `//netloc + tail` when `tail` starts with a delimiter. */
  lemma SplitNetlocOf(netloc: string, tail: string)
    requires NoneOf(netloc, NetlocDelimiters)
    requires tail == "" || tail[0] in NetlocDelimiters
    ensures SplitNetloc("//" + netloc + tail) == (netloc, tail)
  {
    var rest := "//" + netloc + tail;
    assert StartsWith(rest, "//");
    assert rest[2..] == netloc + tail;
    IndexOfAnyAppend(netloc, tail, NetlocDelimiters);
    IndexOfAnyIs(tail, NetlocDelimiters, 0);
    assert rest[2..2 + |netloc|] == netloc;
    assert rest[2 + |netloc|..] == tail;
  }

  /** The scheme step of `urlsplit` on `scheme: + rest`. */
  lemma SplitSchemeOf(scheme: string, rest: string, defaultScheme: string)
    requires IsParsedScheme(scheme)
    ensures SplitScheme(scheme + ":" + rest, defaultScheme) == (scheme, rest)
  {
    var u := scheme + ":" + rest;
    assert NoneOf(scheme, {':'});
    assert u == scheme + (":" + rest);
    IndexOfAnyAppend(scheme, ":" + rest, {':'});
    IndexOfAnyIs(":" + rest, {':'}, 0);
    assert u[..|scheme|] == scheme;
    assert u[|scheme| + 1..] == rest;
  }

  /** Nothing for `urlsplit`'s clean-up to strip or delete. */
  lemma SanitizeClean(u: string)
    requires u != "" && u[0] as int > 32
    requires NoneOf(u, UnsafeChars)
    ensures Sanitize(u) == u
  {
  }

  /** The steps after the scheme, on `//netloc + path + ?query + #fragment`. */
  lemma SplitAfterSchemeOf(p: Parts)
    requires WellFormedParts(p)
    ensures SplitAfterScheme(p.scheme,
              "//" + p.netloc + p.path + QueryPart(p.query) + FragmentPart(p.fragment)) == Some(p)
  {
    var tail := p.path + QueryPart(p.query) + FragmentPart(p.fragment);
    assert "//" + p.netloc + p.path + QueryPart(p.query) + FragmentPart(p.fragment) == "//" + p.netloc + tail;
    assert NoneOf(p.netloc, NetlocDelimiters);
    assert tail == "" || tail[0] in NetlocDelimiters;
    SplitNetlocOf(p.netloc, tail);
    assert SplitNetloc("//" + p.netloc + tail) == (p.netloc, tail);
    SplitTail(p.path, p.query, p.fragment);
    assert SplitPathQueryFragment(tail) == (p.path, p.query, p.fragment);
  }

  lemma UnsplitClean(p: Parts)
    requires WellFormedParts(p)
    ensures Unsplit(p) == p.scheme + ":" + ("//" + p.netloc + p.path + QueryPart(p.query) + FragmentPart(p.fragment))
    ensures NoneOf(Unsplit(p), UnsafeChars)
  {
    UnsplitShape(p);
    var qp := QueryPart(p.query);
    var fp := FragmentPart(p.fragment);
    assert NoneOf(p.scheme + ":" + "//", UnsafeChars);
    assert NoneOf(qp, UnsafeChars);
    assert NoneOf(fp, UnsafeChars);
    NoneOfAppend(p.scheme + ":" + "//", p.netloc, UnsafeChars);
    NoneOfAppend(p.scheme + ":" + "//" + p.netloc, p.path, UnsafeChars);
    NoneOfAppend(p.scheme + ":" + "//" + p.netloc + p.path, qp, UnsafeChars);
    NoneOfAppend(p.scheme + ":" + "//" + p.netloc + p.path + qp, fp, UnsafeChars);
  }

  /** `urlsplit(urlunsplit(p)) == p` for well-formed components, whatever the default scheme. */
  lemma SplitUnsplit(p: Parts, defaultScheme: string)
    requires WellFormedParts(p)
    ensures UrlSplit(Unsplit(p), defaultScheme) == Some(p)
  {
    var u := Unsplit(p);
    var rest := "//" + p.netloc + p.path + QueryPart(p.query) + FragmentPart(p.fragment);
    UnsplitClean(p);
    SanitizeClean(u);
    SplitSchemeOf(p.scheme, rest, defaultScheme);
    SplitAfterSchemeOf(p);
    UrlSplitSteps(u, defaultScheme, p.scheme, rest, Some(p));
  }

  /** For well-formed components, `is_valid_url(urlunsplit(p))` holds exactly
      for the `http` and `https` schemes, and the URL's host is `p.netloc`. */
  lemma UnsplitValidIff(p: Parts)
    requires WellFormedParts(p)
    ensures IsValidUrl(Unsplit(p)) <==> p.scheme == "http" || p.scheme == "https"
    ensures Netloc(Unsplit(p)) == p.netloc
  {
    SplitUnsplit(p, "");
  }

  /** `urlsplit` is its three steps in sequence. */
  lemma UrlSplitSteps(u: string, defaultScheme: string, scheme: string, rest: string, r: Option<Parts>)
    requires Sanitize(u) == u
    requires SplitScheme(u, defaultScheme) == (scheme, rest)
    requires SplitAfterScheme(scheme, rest) == r
    ensures UrlSplit(u, defaultScheme) == r
  {
  }

  // ---------------------------------------------------------------------------
  // Relative links stay on the base's host

  /** The merged path of a relative reference is absolute and keeps the
      characters `urlsplit` could not have put into a path. */
  lemma MergePathWellFormed(basePath: string, path: string)
    requires basePath == "" || basePath[0] == '/'
    requires NoneOf(basePath, {'?', '#'} + UnsafeChars)
    requires NoneOf(path, {'?', '#'} + UnsafeChars)
    ensures var m := MergePath(basePath, path);
            m != "" && m[0] == '/' && NoneOf(m, {'?', '#'} + UnsafeChars)
  {
    if basePath == "" {
      NoneOfAppend("/", path, {'?', '#'} + UnsafeChars);
    } else {
      var dir := basePath[..LastIndexOf(basePath, '/') + 1];
      assert dir[0] == '/';
      NoneOfAppend(dir, path, {'?', '#'} + UnsafeChars);
    }
  }

  /** The components `urljoin` builds for a reference with neither scheme
      nor network location against a valid base. */
  lemma JoinedParts(base: string, link: string) returns (p: Parts)
    requires IsValidUrl(base) && link != ""
    requires UrlSplit(link, "").Some?
    requires UrlSplit(link, "").value.scheme == "" && UrlSplit(link, "").value.netloc == ""
    ensures WellFormedParts(p)
    ensures p.scheme == "http" || p.scheme == "https"
    ensures p.netloc == Netloc(base)
    ensures UrlJoin(base, link) == Some(Unsplit(p))
  {
    var b := ValidUrlParts(base);
    var l := RelativeLinkParts(link, b.scheme);
    UrlJoinRelative(base, link, b, l);
    p := Resolve(b, l, b.netloc);
    ResolveWellFormed(b, l);
  }

  /** Read against an http(s) base, a link without scheme and network
      location takes the base's scheme. */
  lemma RelativeLinkParts(link: string, scheme: string) returns (l: Parts)
    requires scheme == "http" || scheme == "https"
    requires UrlSplit(link, "").Some?
    requires UrlSplit(link, "").value.scheme == "" && UrlSplit(link, "").value.netloc == ""
    ensures UrlSplit(link, scheme) == Some(l)
    ensures l.scheme == scheme && l.netloc == ""
    ensures NoneOf(l.path, {'?', '#'}) && NoneOf(l.path, UnsafeChars)
    ensures NoneOf(l.query, {'#'}) && NoneOf(l.query, UnsafeChars)
    ensures NoneOf(l.fragment, UnsafeChars)
  {
    UrlSplitDefault(link, scheme);
    l := UrlSplit(link, scheme).value;
  }

  /** The branch of `urljoin` for a reference that shares the base's scheme
      and has no network location. */
  lemma UrlJoinRelative(base: string, link: string, b: Parts, l: Parts)
    requires base != "" && link != ""
    requires UrlSplit(base, "") == Some(b) && UrlSplit(link, b.scheme) == Some(l)
    requires b.scheme == "http" || b.scheme == "https"
    requires l.scheme == b.scheme && l.netloc == ""
    ensures UrlJoin(base, link) == Some(Unsplit(Resolve(b, l, b.netloc)))
  {
    assert b.scheme in UsesRelative && b.scheme in UsesNetloc;
  }

  /** The components of a valid URL are ones `urlunsplit` renders faithfully. */
  lemma ValidUrlParts(url: string) returns (b: Parts)
    requires IsValidUrl(url)
    ensures url != "" && UrlSplit(url, "") == Some(b)
    ensures WellFormedParts(b)
    ensures b.scheme == "http" || b.scheme == "https"
    ensures Netloc(url) == b.netloc
  {
    b := UrlSplit(url, "").value;
    NoneOfUnion(b.netloc, NetlocDelimiters, UnsafeChars);
    NoneOfUnion(b.path, {'?', '#'}, UnsafeChars);
    NoneOfUnion(b.query, {'#'}, UnsafeChars);
    WithoutColonNotValid("");
  }

  lemma NoneOfUnion(s: string, xs: set<char>, ys: set<char>)
    requires NoneOf(s, xs) && NoneOf(s, ys)
    ensures NoneOf(s, xs + ys)
  {
  }

  lemma ResolveWellFormed(b: Parts, l: Parts)
    requires WellFormedParts(b)
    requires l.scheme == b.scheme
    requires NoneOf(l.path, {'?', '#'}) && NoneOf(l.path, UnsafeChars)
    requires NoneOf(l.query, {'#'}) && NoneOf(l.query, UnsafeChars)
    requires NoneOf(l.fragment, UnsafeChars)
    ensures WellFormedParts(Resolve(b, l, b.netloc))
  {
    var r := Resolve(b, l, b.netloc);
    NoneOfUnion(l.path, {'?', '#'}, UnsafeChars);
    NoneOfUnion(l.query, {'#'}, UnsafeChars);
    ResolvedPathWellFormed(b, l, r);
    assert NoneOf(r.query, {'#'} + UnsafeChars);
  }

  lemma ResolvedPathWellFormed(b: Parts, l: Parts, r: Parts)
    requires NoneOf(b.path, {'?', '#'} + UnsafeChars) && (b.path == "" || b.path[0] == '/')
    requires NoneOf(l.path, {'?', '#'} + UnsafeChars)
    requires r == Resolve(b, l, b.netloc)
    ensures NoneOf(r.path, {'?', '#'} + UnsafeChars) && (r.path == "" || r.path[0] == '/')
  {
    var path := ParsedPath(l);
    if path == "" && ParsedParams(l) == "" {
      assert r.path == UnparsedPath(b);
      UnparsedPathClean(b);
    } else if path != "" && path[0] == '/' {
      assert r.path == UnparsedPath(l);
      UnparsedPathNoneOf(l);
    } else {
      assert r.path == MergePath(ParsedPath(b), UnparsedPath(l));
      UnparsedPathClean(b);
      UnparsedPathNoneOf(l);
      MergePathWellFormed(ParsedPath(b), UnparsedPath(l));
    }
  }

  /** The path and the path with parameters that `urlparse` and `urlunparse`
      produce keep what `urlsplit` left out of the path and its leading `/`. */
  lemma UnparsedPathClean(p: Parts)
    requires NoneOf(p.path, {'?', '#'} + UnsafeChars)
    requires p.path == "" || p.path[0] == '/'
    ensures NoneOf(ParsedPath(p), {'?', '#'} + UnsafeChars)
    ensures ParsedPath(p) == "" || ParsedPath(p)[0] == '/'
    ensures NoneOf(UnparsedPath(p), {'?', '#'} + UnsafeChars)
    ensures UnparsedPath(p) == "" || UnparsedPath(p)[0] == '/'
  {
    UnparsedPathNoneOf(p);
  }

  /** `urlunparse`'s path keeps what `urlsplit` left out of the path. */
  lemma UnparsedPathNoneOf(p: Parts)
    requires NoneOf(p.path, {'?', '#'} + UnsafeChars)
    ensures NoneOf(UnparsedPath(p), {'?', '#'} + UnsafeChars)
  {
    var u := UnparsedPath(p);
    assert u == p.path[..|u|] by {
      if u != p.path {
        assert u + ";" == p.path;
        assert p.path[..|u|] == (u + ";")[..|u|];
      }
    }
  }

  /** Cutting a rendered URL at its first `#` leaves a valid URL on the same host. */
  lemma CleanedIsValid(p: Parts)
    requires WellFormedParts(p)
    requires p.scheme == "http" || p.scheme == "https"
    ensures var u := Unsplit(p);
            var c := u[..IndexOfAny(u, {'#'})];
            IsValidUrl(c) && Netloc(c) == p.netloc
  {
    CutFragment(p);
    SplitUnsplit(p.(fragment := ""), "");
  }

  /** Cutting `urlunsplit(p)` at its first `#` drops exactly the fragment. */
  lemma CutFragment(p: Parts)
    requires WellFormedParts(p)
    ensures var u := Unsplit(p);
            u[..IndexOfAny(u, {'#'})] == Unsplit(p.(fragment := ""))
  {
    var p0 := p.(fragment := "");
    UnsplitShape(p);
    UnsplitShape(p0);
    var u := Unsplit(p);
    var u0 := Unsplit(p0);
    assert u == u0 + FragmentPart(p.fragment);
    assert NoneOf(p.scheme, {'#'});
    assert NoneOf(QueryPart(p.query), {'#'});
    NoneOfAppend(p.scheme + ":" + "//" + p.netloc, p.path, {'#'});
    NoneOfAppend(p.scheme + ":" + "//" + p.netloc + p.path, QueryPart(p.query), {'#'});
    IndexOfAnyAppend(u0, FragmentPart(p.fragment), {'#'});
    if p.fragment != "" {
      IndexOfAnyIs(FragmentPart(p.fragment), {'#'}, 0);
    }
    assert u[..|u0|] == u0;
  }

  /** A link with neither scheme nor network location, and not one of the
      special prefixes, resolves to a valid URL on the base URL's host: the
      domain policy of discovery keeps such links. */
  lemma RelativeLinkStaysOnHost(base: string, link: string)
    requires IsValidUrl(base)
    requires link != "" && !StartsWithAny(link, SpecialPrefixes)
    requires UrlSplit(link, "").Some?
    requires UrlSplit(link, "").value.scheme == "" && UrlSplit(link, "").value.netloc == ""
    ensures GetAbsoluteUrl(base, link).Absolute?
    ensures Netloc(GetAbsoluteUrl(base, link).url) == Netloc(base)
  {
    var p := JoinedParts(base, link);
    CleanedIsValid(p);
  }

  // ---------------------------------------------------------------------------
  // The docstring examples of is_valid_url and get_absolute_url

  /** A reference without a `:` anywhere, such as `/relative/path`, has no
      scheme and so is not a valid URL. */
  lemma WithoutColonNotValid(url: string)
    requires ':' !in url
    ensures !IsValidUrl(url)
  {
    NoColonNoScheme(url);
  }

  /** A valid URL has a scheme, so it contains a `:`, and it has a host. */
  lemma ValidUrlHasSchemeAndHost(url: string)
    requires IsValidUrl(url)
    ensures ':' in url && Netloc(url) != ""
  {
    if ':' !in url {
      NoColonNoScheme(url);
    }
  }

  /** Without a `:`, `urlsplit` finds no scheme. */
  lemma NoColonNoScheme(url: string)
    requires ':' !in url
    ensures UrlSplit(url, "").None? || UrlSplit(url, "").value.scheme == ""
  {
    var u := Sanitize(url);
    assert ':' !in u;
    IndexOfAnyIs(u, {':'}, |u|);
  }

  lemma FragmentLinkIsRejected()
    ensures GetAbsoluteUrl("https://example.com/", "#section") == Rejected
  {
    assert StartsWith("#section", SpecialPrefixes[0]);
  }

  /** A single path segment that `urlsplit` reads as a relative path: no scheme,
      network location, query or fragment, and nothing for its clean-up to remove. */
  predicate RelativeName(name: string)
  {
    && name != "" && name[0] as int > 32
    && NoneOf(name, {':', '/', '?', '#'}) && NoneOf(name, UnsafeChars)
  }

  /** A relative reference whose `;` has nothing after it resolves as if the
      `;` were absent: `urljoin(base, "b;") == urljoin(base, "b")`. */
  lemma EmptyParamsIgnored(base: string, name: string)
    requires IsValidUrl(base)
    requires RelativeName(name) && ';' !in name
    ensures UrlJoin(base, name + ";") == UrlJoin(base, name)
  {
    SemicolonName(name);
    var b := JoinName(base, name + ";");
    var b' := JoinName(base, name);
    assert b' == b;
    NameResolves(b, name);
  }

  lemma SemicolonName(name: string)
    requires RelativeName(name)
    ensures RelativeName(name + ";")
  {
    assert (name + ";")[0] == name[0];
    assert NoneOf(name + ";", {':', '/', '?', '#'});
    assert NoneOf(name + ";", UnsafeChars);
  }

  /** The join of a valid base and a single relative name. */
  lemma JoinName(base: string, name: string) returns (b: Parts)
    requires IsValidUrl(base) && RelativeName(name)
    ensures UrlSplit(base, "") == Some(b) && b.scheme in UsesParams
    ensures UrlJoin(base, name) == Some(Unsplit(Resolve(b, Parts(b.scheme, "", name, "", ""), b.netloc)))
  {
    b := ValidUrlParts(base);
    var l := RelativeNameParts(name, b.scheme);
    UrlJoinRelative(base, name, b, l);
  }

  /** `name;` and `name` resolve to the same components. */
  lemma NameResolves(b: Parts, name: string)
    requires b.scheme in UsesParams
    requires RelativeName(name) && ';' !in name
    ensures Resolve(b, Parts(b.scheme, "", name + ";", "", ""), b.netloc)
         == Resolve(b, Parts(b.scheme, "", name, "", ""), b.netloc)
  {
    assert NoneOf(name, {'/', ';'});
    NameParams(name, b.scheme);
    ResolveName(b, Parts(b.scheme, "", name + ";", "", ""), name);
    ResolveName(b, Parts(b.scheme, "", name, "", ""), name);
  }

  /** A reference that `urlparse` reads as the relative name `name` with no
      parameters, query or fragment is merged with the base path. */
  lemma ResolveName(b: Parts, l: Parts, name: string)
    requires name != "" && name[0] != '/'
    requires ParsedPath(l) == name && ParsedParams(l) == "" && UnparsedPath(l) == name
    requires l.query == "" && l.fragment == ""
    ensures Resolve(b, l, b.netloc) == Parts(l.scheme, b.netloc, MergePath(ParsedPath(b), name), "", "")
  {
  }

  /** How `urlparse` and `urlunparse` treat `name;` and `name`. */
  lemma NameParams(name: string, scheme: string)
    requires scheme in UsesParams
    requires NoneOf(name, {'/', ';'})
    ensures var l := Parts(scheme, "", name + ";", "", "");
            ParsedPath(l) == name && ParsedParams(l) == "" && UnparsedPath(l) == name
    ensures var l := Parts(scheme, "", name, "", "");
            ParsedPath(l) == name && ParsedParams(l) == "" && UnparsedPath(l) == name
  {
    var path := name + ";";
    assert path[|name|] == ';';
    LastIndexOfAbsent(path, '/');
    IndexOfAnyIs(path, {';'}, |name|);
    assert path[..|name|] == name;
  }

  lemma LastIndexOfAbsent(s: string, c: char)
    requires NoneOf(s, {c})
    ensures LastIndexOf(s, c) == -1
  {
  }

  /** A name with no `:`, `/`, `?` or `#` is a path relative to the base. */
  lemma RelativeNameParts(name: string, scheme: string) returns (l: Parts)
    requires RelativeName(name)
    ensures l == Parts(scheme, "", name, "", "")
    ensures UrlSplit(name, scheme) == Some(l)
  {
    l := Parts(scheme, "", name, "", "");
    IndexOfAnyIs(name, {':'}, |name|);
    assert SplitScheme(name, scheme) == (scheme, name);
    assert SplitNetloc(name) == ("", name);
    SplitTail(name, "", "");
    assert name + QueryPart("") + FragmentPart("") == name;
    assert SplitAfterScheme(scheme, name) == Some(l);
    SanitizeClean(name);
    UrlSplitSteps(name, scheme, scheme, name, Some(l));
  }
}
