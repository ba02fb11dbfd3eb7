/**
  Collision-free file naming.  A directory is modelled by the set of names
  already present in it; a name is probed with `exists()` and the first free
  candidate of the sequence `stem+ext`, `stem_1+ext`, `stem_2+ext`, ... is
  taken.  Stage 2 (`create_unique_filename_from_url`) builds the stem from
  the URL's host and path; stage 3 (`_stage_3_download_single`) takes the
  last path segment and splits it with `os.path.splitext`.
 */
module Filenames {
  import opened Options
  import opened Strings
  import opened Urls

  // ---------------------------------------------------------------------------
  // The candidate sequence

  /** The `k`-th name probed: `stem+ext`, then `f"{stem}_{k}{ext}"`. */
  function Candidate(stem: string, ext: string, k: nat): string
  {
    if k == 0 then stem + ext else stem + "_" + NatToString(k) + ext
  }

  /** Distinct counters give distinct names, so the probing never revisits a name. */
  lemma CandidateInjective(stem: string, ext: string, i: nat, j: nat)
    requires Candidate(stem, ext, i) == Candidate(stem, ext, j)
    ensures i == j
  {
    var a, b := Candidate(stem, ext, i), Candidate(stem, ext, j);
    if i != 0 && j != 0 {
      var si, sj := NatToString(i), NatToString(j);
      assert a == stem + ("_" + si) + ext;
      assert b == stem + ("_" + sj) + ext;
      assert |si| == |sj|;
      assert a[|stem|..|stem| + 1 + |si|] == "_" + si;
      assert b[|stem|..|stem| + 1 + |sj|] == "_" + sj;
      assert si == ("_" + si)[1..];
      assert sj == ("_" + sj)[1..];
      NatToStringInjective(i, j);
    }
  }

  /** A directory holding the first `n` candidates holds at least `n` names. */
  lemma {:induction false} CandidatesCount(stem: string, ext: string, existing: set<string>, n: nat)
    requires forall i :: 0 <= i < n ==> Candidate(stem, ext, i) in existing
    ensures |existing| >= n
  {
    if n > 0 {
      var last := Candidate(stem, ext, n - 1);
      var rest := existing - {last};
      forall i | 0 <= i < n - 1
        ensures Candidate(stem, ext, i) in rest
      {
        if Candidate(stem, ext, i) == last {
          CandidateInjective(stem, ext, i, n - 1);
        }
      }
      CandidatesCount(stem, ext, rest, n - 1);
    }
  }

  /** `k` is the counter the probing loop stops at. */
  predicate IsFirstFree(stem: string, ext: string, existing: set<string>, k: nat)
  {
    Candidate(stem, ext, k) !in existing
    && forall j :: 0 <= j < k ==> Candidate(stem, ext, j) in existing
  }

  /** Below any free candidate there is a first free one. */
  lemma {:induction false} FirstFreeBelow(stem: string, ext: string, existing: set<string>, b: nat)
    requires Candidate(stem, ext, b) !in existing
    ensures exists k: nat :: k <= b && IsFirstFree(stem, ext, existing, k)
    decreases b
  {
    if !IsFirstFree(stem, ext, existing, b) {
      var j :| 0 <= j < b && Candidate(stem, ext, j) !in existing;
      FirstFreeBelow(stem, ext, existing, j);
    }
  }

  /** A finite directory always leaves a free candidate, among the first `|existing| + 1`. */
  lemma FirstFreeExists(stem: string, ext: string, existing: set<string>)
    ensures exists k: nat :: k <= |existing| && IsFirstFree(stem, ext, existing, k)
  {
    var n := |existing| + 1;
    if forall i :: 0 <= i < n ==> Candidate(stem, ext, i) in existing {
      CandidatesCount(stem, ext, existing, n);
      assert false;
    }
    var b :| 0 <= b < n && Candidate(stem, ext, b) !in existing;
    FirstFreeBelow(stem, ext, existing, b);
  }

  /** The first free candidate is unique. */
  lemma FirstFreeUnique(stem: string, ext: string, existing: set<string>, k: nat, m: nat)
    requires IsFirstFree(stem, ext, existing, k) && IsFirstFree(stem, ext, existing, m)
    ensures k == m
  {
  }

  /** The counter the probing stops at. */
  ghost function FirstFreeIndex(stem: string, ext: string, existing: set<string>): (k: nat)
    ensures IsFirstFree(stem, ext, existing, k)
    ensures k <= |existing|
  {
    FirstFreeExists(stem, ext, existing);
    var k: nat :| k <= |existing| && IsFirstFree(stem, ext, existing, k);
    k
  }

  /** The name the probing returns. */
  ghost function FirstFreeName(stem: string, ext: string, existing: set<string>): (name: string)
    ensures name !in existing
  {
    Candidate(stem, ext, FirstFreeIndex(stem, ext, existing))
  }

  /** A name is the first free one exactly when it is a candidate that is free
      and every earlier candidate is taken. */
  lemma FirstFreeNameIs(stem: string, ext: string, existing: set<string>, k: nat)
    requires IsFirstFree(stem, ext, existing, k)
    ensures FirstFreeName(stem, ext, existing) == Candidate(stem, ext, k)
  {
    FirstFreeUnique(stem, ext, existing, k, FirstFreeIndex(stem, ext, existing));
  }

  /** In a directory without `stem+ext`, that name itself is taken. */
  lemma FirstFreeNameWhenFree(stem: string, ext: string, existing: set<string>)
    requires stem + ext !in existing
    ensures FirstFreeName(stem, ext, existing) == stem + ext
  {
    FirstFreeNameIs(stem, ext, existing, 0);
  }

  // ---------------------------------------------------------------------------
  // Stage 2: create_unique_filename_from_url

  /** The characters the substitution `[^\w\-_\./]` leaves alone. */
  predicate IsSafeChar(c: char)
  {
    IsAsciiLetter(c) || IsAsciiDigit(c) || c == '_' || c == '-' || c == '.' || c == '/'
  }

  /** `re.sub(r'[^\w\-_\./]', '_', s)`. */
  function SanitizePath(s: string): (r: string)
    ensures |r| == |s|
    ensures forall i :: 0 <= i < |s| ==> r[i] == if IsSafeChar(s[i]) then s[i] else '_'
  {
    if s == [] then [] else [if IsSafeChar(s[0]) then s[0] else '_'] + SanitizePath(s[1..])
  }

  /** The path part of the name: the path without surrounding `/`, or `index`. */
  function PathComponents(path: string): (r: string)
    ensures r != ""
    ensures (forall i :: 0 <= i < |path| ==> path[i] == '/') ==> r == "index"
    ensures (exists i :: 0 <= i < |path| && path[i] != '/') ==> SlashesTrimmed(path, r)
  {
    var stripped := StripChar(path, '/');
    StripSlashesEmpty(path);
    if stripped == "" then "index" else
      StripSlashesTrimmed(path);
      stripped
  }

  /** `r` is `path` without its leading and trailing slashes, and is not empty. */
  ghost predicate SlashesTrimmed(path: string, r: string)
  {
    && r != "" && r[0] != '/' && r[|r| - 1] != '/'
    && exists lo, hi :: 0 <= lo <= hi <= |path| && r == path[lo..hi]
         && (forall i :: 0 <= i < lo ==> path[i] == '/')
         && (forall i :: hi <= i < |path| ==> path[i] == '/')
  }

  lemma StripSlashesTrimmed(path: string)
    requires StripChar(path, '/') != ""
    ensures SlashesTrimmed(path, StripChar(path, '/'))
  {
    var left := LStripChar(path, '/');
    var t := RStripChar(left, '/');
    var lo := |path| - |left|;
    var hi := lo + |t|;
    assert t == path[lo..hi] by {
      assert left == path[lo..] && t == left[..|t|];
    }
    forall i | hi <= i < |path|
      ensures path[i] == '/'
    {
      assert path[i] == left[i - lo];
    }
    assert t[0] == left[0];
  }

  /** `path.strip('/')` is the slice of `path` between its leading and
      trailing slashes. */
  lemma StripSlashes(path: string)
    ensures var lo := |path| - |LStripChar(path, '/')|;
      StripChar(path, '/') == path[lo..lo + |StripChar(path, '/')|]
      && (forall i :: 0 <= i < lo ==> path[i] == '/')
      && (forall i :: lo + |StripChar(path, '/')| <= i < |path| ==> path[i] == '/')
  {
    var left := LStripChar(path, '/');
    var stripped := RStripChar(left, '/');
    var lo := |path| - |left|;
    assert left == path[lo..];
    assert stripped == left[..|stripped|];
    forall i | lo + |stripped| <= i < |path|
      ensures path[i] == '/'
    {
      assert path[i] == left[i - lo];
    }
  }

  /** `path.strip('/')` is empty exactly when `path` is made of slashes. */
  lemma StripSlashesEmpty(path: string)
    ensures StripChar(path, '/') == "" <==> forall i :: 0 <= i < |path| ==> path[i] == '/'
  {
    var left := LStripChar(path, '/');
    var lo := |path| - |left|;
    StripSlashes(path);
    assert StripChar(path, '/') == "" ==> left == "";
  }

  /** `f"{domain_prefix}_{safe_path}"` for the parsed components `p`: the host
      with dots made underscores, `_`, then the sanitised path. */
  function StemOf(p: Parts): (r: string)
    ensures |r| == |p.netloc| + 1 + |PathComponents(ParsedPath(p))|
    ensures r[..|p.netloc|] == ReplaceChar(p.netloc, '.', '_') && r[|p.netloc|] == '_'
    ensures '.' !in r[..|p.netloc|]
    ensures forall i :: |p.netloc| < i < |r| ==> IsSafeChar(r[i])
  {
    var prefix := ReplaceChar(p.netloc, '.', '_');
    var safe := SanitizePath(PathComponents(ParsedPath(p)));
    JoinedStem(prefix, safe);
    prefix + "_" + safe
  }

  /** Joining a prefix and a sanitised path with `_`: where each part lands. */
  lemma JoinedStem(prefix: string, safe: string)
    requires forall i :: 0 <= i < |safe| ==> IsSafeChar(safe[i])
    ensures var r := prefix + "_" + safe;
      r[..|prefix|] == prefix && r[|prefix|] == '_'
      && forall i :: |prefix| < i < |r| ==> IsSafeChar(r[i])
  {
    var r := prefix + "_" + safe;
    assert r[..|prefix|] == prefix;
    forall i | |prefix| < i < |r|
      ensures IsSafeChar(r[i])
    {
      assert r[i] == safe[i - |prefix| - 1];
    }
  }

  /** The stem of `create_unique_filename_from_url`; `None` where `urlparse` raises. */
  function UrlStem(url: string): Option<string>
  {
    match UrlSplit(url, "")
    case None => None
    case Some(p) => Some(StemOf(p))
  }

  /** `create_unique_filename_from_url(url, directory, extension)`: the name,
      relative to the directory, of the first candidate that does not exist;
      `None` where `urlparse` raises. */
  method CreateUniqueFilenameFromUrl(url: string, extension: string, existing: set<string>)
    returns (r: Option<string>)
    ensures r.None? <==> UrlStem(url).None?
    ensures r.Some? ==> r.value == FirstFreeName(UrlStem(url).value, extension, existing)
    ensures r.Some? ==> r.value !in existing
  {
    var stem := UrlStem(url);
    if stem.None? {
      return None;
    }
    var savePath := ProbeNames(stem.value, extension, existing);
    return Some(savePath);
  }

  /** The counter loop of `create_unique_filename_from_url`: probe
      `base_name+extension`, then `f"{base_name}_{counter}{extension}"` for
      counter = 1, 2, ... until a name does not exist. */
  method ProbeNames(baseName: string, extension: string, existing: set<string>)
    returns (savePath: string)
    ensures savePath == FirstFreeName(baseName, extension, existing)
    ensures savePath !in existing
  {
    savePath := Candidate(baseName, extension, 0);
    var counter := 0;
    while savePath in existing
      invariant counter <= |existing|
      invariant savePath == Candidate(baseName, extension, counter)
      invariant forall j :: 0 <= j < counter ==> Candidate(baseName, extension, j) in existing
      decreases |existing| - counter
    {
      CandidatesCount(baseName, extension, existing, counter + 1);
      counter := counter + 1;
      savePath := Candidate(baseName, extension, counter);
    }
    FirstFreeNameIs(baseName, extension, existing, counter);
  }

  // ---------------------------------------------------------------------------
  // Stage 3: the download name

  /** `os.path.splitext(p)` of POSIX: the extension starts at the last `.` after
      the last `/`, unless only dots precede it in the final component. */
  function SplitExt(p: string): (r: (string, string))
    ensures r.0 + r.1 == p
    ensures r.1 == "" || (r.1[0] == '.' && '.' !in r.1[1..] && '/' !in r.1)
    ensures r.1 != "" ==>
      && |r.0| == LastIndexOf(p, '.') > LastIndexOf(p, '/')
      && exists i :: LastIndexOf(p, '/') < i < |r.0| && p[i] != '.'
    ensures r.1 == "" ==>
      forall i, j :: LastIndexOf(p, '/') < i < j < |p| && p[j] == '.' ==> p[i] == '.'
  {
    var sep := LastIndexOf(p, '/');
    var dot := LastIndexOf(p, '.');
    if dot > sep && exists i :: sep + 1 <= i < dot && p[i] != '.' then
      assert p[..dot] + p[dot..] == p;
      (p[..dot], p[dot..])
    else (p, "")
  }

  /** `path.split('/')[-1]`: what follows the last `/`. */
  function LastSegment(path: string): (r: string)
    ensures '/' !in r
    ensures EndsWith(path, r) && (|r| == |path| || path[|path| - |r| - 1] == '/')
  {
    var i := LastIndexOf(path, '/');
    assert path[|path| - |path[i + 1..]|..] == path[i + 1..];
    path[i + 1..]
  }

  /** The name stage 3 saves to before de-duplication: the last segment of the
      path, or `downloaded_file_<abs(hash(url))>` when that segment is empty.
      Python's string hash is an input. */
  function FileNameOf(path: string, hash: int): (r: string)
    ensures r != "" && '/' !in r
    ensures path == "" || path[|path| - 1] == '/' ==> StartsWith(r, "downloaded_file_")
    ensures path != "" && path[|path| - 1] != '/' ==> r == LastSegment(path) && EndsWith(path, r)
  {
    var last := LastSegment(path);
    if last == "" then "downloaded_file_" + NatToString(if hash < 0 then -hash else hash) else last
  }

  /** `FileNameOf` for `urlparse(url).path`; `None` where `urlparse` raises. */
  function DownloadFilename(url: string, hash: int): (r: Option<string>)
    ensures r.Some? <==> UrlSplit(url, "").Some?
  {
    match UrlSplit(url, "")
    case None => None
    case Some(p) => Some(FileNameOf(ParsedPath(p), hash))
  }

  /** The de-duplication of `_stage_3_download_single`: keep the name when it is
      free, else probe `base_1+ext`, `base_2+ext`, ... with `base, ext = splitext(name)`. */
  method DownloadSaveName(filename: string, existing: set<string>) returns (savePath: string)
    ensures savePath == FirstFreeName(SplitExt(filename).0, SplitExt(filename).1, existing)
    ensures savePath !in existing
  {
    var (base, ext) := SplitExt(filename);
    savePath := filename;
    if savePath in existing {
      var counter := 1;
      var tempPath := Candidate(base, ext, counter);
      while tempPath in existing
        invariant 1 <= counter <= |existing|
        invariant tempPath == Candidate(base, ext, counter)
        invariant forall j :: 0 <= j < counter ==> Candidate(base, ext, j) in existing
        decreases |existing| - counter
      {
        CandidatesCount(base, ext, existing, counter + 1);
        counter := counter + 1;
        tempPath := Candidate(base, ext, counter);
      }
      FirstFreeNameIs(base, ext, existing, counter);
      savePath := tempPath;
    } else {
      FirstFreeNameIs(base, ext, existing, 0);
    }
  }

  // ---------------------------------------------------------------------------
  // A batch of downloads all named before any file is created

  /** The names the batch gets in `run_crawler`'s stage 3 as written when every
      task has chosen its name before any task opens its file (each chooses,
      then awaits the GET request): all are probed against the same directory. */
  ghost function ConcurrentNames(files: seq<string>, existing: set<string>): (names: seq<string>)
    ensures |names| == |files|
    ensures forall i :: 0 <= i < |names| ==> names[i] !in existing
  {
    if files == [] then []
    else
      var (base, ext) := SplitExt(files[0]);
      [FirstFreeName(base, ext, existing)] + ConcurrentNames(files[1..], existing)
  }

  /** Two downloads whose URLs end in the same free name, such as
      `https://example.com/a/report.pdf` and `https://example.com/b/report.pdf`,
      are both saved under it when named together: the second overwrites the first. */
  lemma ConcurrentNamesCollide(name: string, existing: set<string>)
    requires name !in existing
    ensures ConcurrentNames([name, name], existing) == [name, name]
  {
    var (base, ext) := SplitExt(name);
    FirstFreeNameWhenFree(base, ext, existing);
    assert ConcurrentNames([name, name][1..], existing) == [name] + ConcurrentNames([], existing);
  }
}
