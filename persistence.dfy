/**
  The checkpoint between the stages: `_save_discovery_results` writes each set
  as `'\n'.join(sorted(urls))`, `_load_urls_from_disk` reads a file back as
  its stripped non-blank lines (or `[]` when the file is missing), and
  `run_crawler` keeps the loaded download URLs with a high-value extension.
  The discovery directory is modelled as a map from file name to contents.
 */
module Persistence {
  import opened Strings
  import opened Extensions

  const ScrapeFile := "urls_to_scrape.txt"
  const DownloadFile := "files_to_download.txt"

  // ---------------------------------------------------------------------------
  // Python's ordering of strings and `sorted`

  /** `a < b` on Python strings: lexicographic by code point. */
  predicate Below(a: string, b: string)
  {
    if a == [] then b != []
    else if b == [] then false
    else if a[0] != b[0] then a[0] < b[0]
    else Below(a[1..], b[1..])
  }

  lemma {:induction false} BelowIrreflexive(a: string)
    ensures !Below(a, a)
  {
    if a != [] {
      BelowIrreflexive(a[1..]);
    }
  }

  lemma {:induction false} BelowTransitive(a: string, b: string, c: string)
    requires Below(a, b) && Below(b, c)
    ensures Below(a, c)
  {
    if a != [] && b != [] && c != [] && a[0] == b[0] == c[0] {
      BelowTransitive(a[1..], b[1..], c[1..]);
    }
  }

  lemma {:induction false} BelowTotal(a: string, b: string)
    requires a != b
    ensures Below(a, b) != Below(b, a)
  {
    if a != [] && b != [] && a[0] == b[0] {
      assert a == [a[0]] + a[1..] && b == [b[0]] + b[1..];
      BelowTotal(a[1..], b[1..]);
    }
  }

  predicate IsLeast(m: string, s: set<string>)
  {
    m in s && forall y :: y in s && y != m ==> Below(m, y)
  }

  /** Every non-empty finite set of strings has a least element. */
  lemma {:induction false} LeastExists(s: set<string>)
    requires s != {}
    ensures exists m :: IsLeast(m, s)
    decreases |s|
  {
    var x :| x in s;
    var rest := s - {x};
    if rest != {} {
      LeastExists(rest);
      var m :| IsLeast(m, rest);
      BelowTotal(x, m);
      if Below(x, m) {
        forall y | y in s && y != x
          ensures Below(x, y)
        {
          if y != m {
            BelowTransitive(x, m, y);
          }
        }
        assert IsLeast(x, s);
      } else {
        assert IsLeast(m, s);
      }
    } else {
      assert s == {x};
      assert IsLeast(x, s);
    }
  }

  lemma LeastUnique(s: set<string>)
    ensures forall a, b :: IsLeast(a, s) && IsLeast(b, s) ==> a == b
  {
    forall a, b | IsLeast(a, s) && IsLeast(b, s)
      ensures a == b
    {
      if a != b {
        BelowTotal(a, b);
      }
    }
  }

  predicate StrictlySorted(xs: seq<string>)
  {
    forall i, j :: 0 <= i < j < |xs| ==> Below(xs[i], xs[j])
  }

  /** `sorted(s)` of a set of strings: its elements, each once, in increasing order. */
  function SortedList(s: set<string>): (r: seq<string>)
    ensures |r| == |s|
    ensures forall x :: x in r <==> x in s
    ensures StrictlySorted(r)
    decreases |s|
  {
    if s == {} then []
    else
      LeastExists(s);
      LeastUnique(s);
      var m :| IsLeast(m, s);
      [m] + SortedList(s - {m})
  }

  /** Two strictly increasing lists with the same elements are the same list. */
  lemma {:induction false} SortedUnique(a: seq<string>, b: seq<string>)
    requires StrictlySorted(a) && StrictlySorted(b)
    requires forall x :: x in a <==> x in b
    ensures a == b
    decreases |a|
  {
    if a != [] {
      assert a[0] in a;
    }
    if b != [] {
      assert b[0] in b;
    }
    if a != [] && b != [] {
      if a[0] != b[0] {
        assert b[0] in a;
        assert a[0] in b;
        var i :| 0 <= i < |a| && a[i] == b[0];
        var j :| 0 <= j < |b| && b[j] == a[0];
        assert Below(a[0], b[0]);
        assert Below(b[0], a[0]);
        BelowTotal(a[0], b[0]);
        assert false;
      }
      forall x
        ensures x in a[1..] <==> x in b[1..]
      {
        if x in a[1..] {
          var i :| 1 <= i < |a| && a[i] == x;
          BelowIrreflexive(a[0]);
          assert x != b[0];
          assert x in a;
          assert x in b;
          var j :| 0 <= j < |b| && b[j] == x;
          assert b[1..][j - 1] == x;
        }
        if x in b[1..] {
          var i :| 1 <= i < |b| && b[i] == x;
          BelowIrreflexive(b[0]);
          assert x != a[0];
          assert x in b;
          assert x in a;
          var j :| 0 <= j < |a| && a[j] == x;
          assert a[1..][j - 1] == x;
        }
      }
      SortedUnique(a[1..], b[1..]);
      assert a == [a[0]] + a[1..] && b == [b[0]] + b[1..];
    }
  }

  // ---------------------------------------------------------------------------
  // Save and load

  /** What `_save_discovery_results` writes for one set: `'\n'.join(sorted(urls))`. */
  function Serialize(urls: set<string>): (r: string)
    ensures (forall u :: u in urls ==> '\n' !in u) ==>
      SplitOn(r, '\n') == if urls == {} then [""] else SortedList(urls)
  {
    var xs := SortedList(urls);
    if forall u :: u in urls ==> '\n' !in u then
      if xs == [] then
        assert SplitOn("", '\n') == [""];
        JoinWith(xs, '\n')
      else
        assert forall k :: 0 <= k < |xs| ==> xs[k] in urls;
        SplitJoin(xs, '\n');
        JoinWith(xs, '\n')
    else JoinWith(xs, '\n')
  }

  /** Reading in text mode turns `\r\n` and a lone `\r` into `\n`. */
  function TranslateNewlines(t: string): (r: string)
    ensures '\r' !in r
    ensures '\r' !in t ==> r == t
  {
    if t == [] then []
    else if t[0] == '\r' then
      if |t| > 1 && t[1] == '\n' then "\n" + TranslateNewlines(t[2..]) else "\n" + TranslateNewlines(t[1..])
    else [t[0]] + TranslateNewlines(t[1..])
  }

  /** `[line.strip() for line in lines if line.strip()]`. */
  function StrippedNonBlank(lines: seq<string>): (r: seq<string>)
    ensures forall k :: 0 <= k < |r| ==> r[k] != "" && Strip(r[k]) == r[k]
    ensures |r| <= |lines|
  {
    if lines == [] then []
    else
      var s := Strip(lines[0]);
      var rest := StrippedNonBlank(lines[1..]);
      if s == "" then rest
      else
        StripIdempotent(lines[0]);
        assert forall k :: 0 < k <= |rest| ==> ([s] + rest)[k] == rest[k - 1];
        [s] + rest
  }

  /** Some line of `lines` strips to `x`. */
  ghost predicate StripsTo(lines: seq<string>, x: string)
  {
    exists k :: 0 <= k < |lines| && Strip(lines[k]) == x
  }

  /** The comprehension keeps exactly the non-empty stripped lines. */
  lemma {:induction false} StrippedNonBlankMembers(lines: seq<string>)
    ensures forall x :: x in StrippedNonBlank(lines) <==> x != "" && StripsTo(lines, x)
  {
    if lines != [] {
      var s := Strip(lines[0]);
      var rest := StrippedNonBlank(lines[1..]);
      StrippedNonBlankMembers(lines[1..]);
      assert StrippedNonBlank(lines) == if s == "" then rest else [s] + rest;
      forall x | x != "" && (exists k :: 0 <= k < |lines| && Strip(lines[k]) == x)
        ensures x in StrippedNonBlank(lines)
      {
        var k :| 0 <= k < |lines| && Strip(lines[k]) == x;
        if k > 0 {
          assert Strip(lines[1..][k - 1]) == x;
        }
      }
      forall x | x in StrippedNonBlank(lines)
        ensures x != "" && exists k :: 0 <= k < |lines| && Strip(lines[k]) == x
      {
        if x != s {
          assert x in rest;
          var k :| 0 <= k < |lines[1..]| && Strip(lines[1..][k]) == x;
          assert Strip(lines[k + 1]) == x;
        }
      }
    }
  }

  /** The comprehension distributes over concatenation of its input. */
  lemma {:induction false} StrippedNonBlankAppend(a: seq<string>, b: seq<string>)
    ensures StrippedNonBlank(a + b) == StrippedNonBlank(a) + StrippedNonBlank(b)
  {
    if a != [] {
      assert (a + b)[1..] == a[1..] + b;
      StrippedNonBlankAppend(a[1..], b);
    } else {
      assert a + b == b;
    }
  }

  lemma StripIdempotent(s: string)
    ensures Strip(Strip(s)) == Strip(s)
  {
    var t := Strip(s);
    if t != [] {
      assert LStrip(s)[..|t|] == t;
      StripNoSurroundingSpace(t);
    }
  }

  /** The lines a file's contents yield: the pieces between newlines (each
      line's own `\n` is removed by `strip` anyway). */
  function LoadLines(content: string): (r: seq<string>)
    ensures forall x :: x in r <==> x != "" && StripsTo(SplitOn(TranslateNewlines(content), '\n'), x)
  {
    var lines := SplitOn(TranslateNewlines(content), '\n');
    StrippedNonBlankMembers(lines);
    StrippedNonBlank(lines)
  }

  /** `_load_urls_from_disk(name)`: `[]` when the file does not exist. */
  function LoadUrls(disk: map<string, string>, name: string): (r: seq<string>)
    ensures name !in disk ==> r == []
    ensures forall k :: 0 <= k < |r| ==> r[k] != "" && Strip(r[k]) == r[k]
  {
    if name in disk then LoadLines(disk[name]) else []
  }

  /** A URL that a line of the file reproduces exactly. */
  predicate Storable(u: string)
  {
    u != "" && Strip(u) == u && '\n' !in u && '\r' !in u
  }

  /** Every URL of the set is storable. */
  predicate AllStorable(urls: set<string>)
  {
    forall u :: u in urls ==> Storable(u)
  }

  lemma {:induction false} JoinWithoutReturn(xs: seq<string>)
    requires forall k :: 0 <= k < |xs| ==> '\r' !in xs[k]
    ensures '\r' !in JoinWith(xs, '\n')
  {
    if |xs| > 1 {
      JoinWithoutReturn(xs[1..]);
    }
  }

  lemma {:induction false} StrippedNonBlankClean(lines: seq<string>)
    requires forall k :: 0 <= k < |lines| ==> Storable(lines[k])
    ensures StrippedNonBlank(lines) == lines
  {
    if lines != [] {
      StrippedNonBlankClean(lines[1..]);
      assert lines == [lines[0]] + lines[1..];
    }
  }

  /** The lines of a storable set, sorted, are each storable. */
  lemma SortedStorable(urls: set<string>)
    requires AllStorable(urls)
    ensures forall k :: 0 <= k < |SortedList(urls)| ==> Storable(SortedList(urls)[k])
  {
    var xs := SortedList(urls);
    forall k | 0 <= k < |xs|
      ensures Storable(xs[k])
    {
      assert xs[k] in urls;
    }
  }

  /** The saved text has no `\r`, and its lines are the sorted set (or one
      empty line for the empty set). */
  lemma SerializedLines(urls: set<string>)
    requires AllStorable(urls)
    ensures TranslateNewlines(Serialize(urls)) == Serialize(urls)
    ensures SplitOn(Serialize(urls), '\n') == if urls == {} then [""] else SortedList(urls)
  {
    var xs := SortedList(urls);
    SortedStorable(urls);
    JoinWithoutReturn(xs);
  }

  /** Loading what was saved gives the set back in sorted order, when every
      entry is non-empty, without surrounding white space, and on one line. */
  lemma SaveLoad(urls: set<string>)
    requires AllStorable(urls)
    ensures LoadLines(Serialize(urls)) == SortedList(urls)
  {
    SerializedLines(urls);
    if urls == {} {
      assert StrippedNonBlank([""]) == [];
    } else {
      SortedStorable(urls);
      StrippedNonBlankClean(SortedList(urls));
    }
  }

  /** `_save_discovery_results` on the discovery directory: both files
      written, every other file left as it was. */
  function SaveBoth(disk: map<string, string>, toScrape: set<string>, toDownload: set<string>)
    : (r: map<string, string>)
    ensures r.Keys == disk.Keys + {ScrapeFile, DownloadFile}
    ensures forall f :: f in disk && f != ScrapeFile && f != DownloadFile ==> r[f] == disk[f]
  {
    disk[ScrapeFile := Serialize(toScrape)][DownloadFile := Serialize(toDownload)]
  }

  /** Each saved list loads back as the sorted set. */
  lemma SaveBothLoad(disk: map<string, string>, toScrape: set<string>, toDownload: set<string>)
    ensures AllStorable(toScrape) ==>
      LoadUrls(SaveBoth(disk, toScrape, toDownload), ScrapeFile) == SortedList(toScrape)
    ensures AllStorable(toDownload) ==>
      LoadUrls(SaveBoth(disk, toScrape, toDownload), DownloadFile) == SortedList(toDownload)
  {
    var r := SaveBoth(disk, toScrape, toDownload);
    assert r[ScrapeFile] == Serialize(toScrape) && r[DownloadFile] == Serialize(toDownload);
    if AllStorable(toScrape) {
      SaveLoad(toScrape);
    }
    if AllStorable(toDownload) {
      SaveLoad(toDownload);
    }
  }

  // ---------------------------------------------------------------------------
  // The stage-3 worklist

  /** `[url for url in urls if url.lower().endswith(HIGH_VALUE_DATA_EXTENSIONS)]`. */
  function HighValueFiles(urls: seq<string>): (r: seq<string>)
    ensures forall u :: u in r <==> u in urls && IsHighValue(u)
    ensures |r| <= |urls|
  {
    if urls == [] then []
    else if IsHighValue(urls[0]) then [urls[0]] + HighValueFiles(urls[1..])
    else HighValueFiles(urls[1..])
  }

  /** The filter distributes over concatenation: the high-value files of a
      list come in the order the list gives them. */
  lemma {:induction false} HighValueFilesAppend(a: seq<string>, b: seq<string>)
    ensures HighValueFiles(a + b) == HighValueFiles(a) + HighValueFiles(b)
  {
    if a != [] {
      assert (a + b)[1..] == a[1..] + b;
      HighValueFilesAppend(a[1..], b);
    } else {
      assert a + b == b;
    }
  }

  /** Filtering a sorted list gives a sorted list. */
  lemma {:induction false} HighValueFilesSorted(urls: seq<string>)
    requires StrictlySorted(urls)
    ensures StrictlySorted(HighValueFiles(urls))
  {
    if urls != [] {
      HighValueFilesSorted(urls[1..]);
      var rest := HighValueFiles(urls[1..]);
      if IsHighValue(urls[0]) {
        forall j | 0 <= j < |rest|
          ensures Below(urls[0], rest[j])
        {
          assert rest[j] in urls[1..];
        }
      }
    }
  }

  /** The stage-3 worklist after a save and a load is the high-value part of
      the download set, in sorted order. */
  lemma HighValueWorklist(downloads: set<string>)
    requires AllStorable(downloads)
    ensures HighValueFiles(LoadLines(Serialize(downloads)))
         == SortedList(set u | u in downloads && IsHighValue(u))
  {
    SaveLoad(downloads);
    var xs := SortedList(downloads);
    HighValueFilesSorted(xs);
    SortedUnique(HighValueFiles(xs), SortedList(set u | u in downloads && IsHighValue(u)));
  }
}
