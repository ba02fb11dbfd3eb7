/**
  The Python `str` operations the crawler relies on, over `seq<char>`:
  `find`/`rfind`, `startswith`/`endswith`, substring `in`, `lower`, `strip`,
  `split`/`join`, `replace` and `str(n)` for naturals.
 */
module Strings {

  // ---------------------------------------------------------------------------
  // Searching

  /** Index of the first character of `s` in `cs`; `|s|` when there is none. */
  function IndexOfAny(s: string, cs: set<char>): (i: nat)
    ensures i <= |s|
    ensures forall j :: 0 <= j < i ==> s[j] !in cs
    ensures i < |s| ==> s[i] in cs
  {
    if s == [] then 0 else if s[0] in cs then 0 else 1 + IndexOfAny(s[1..], cs)
  }

  /** The three facts in IndexOfAny's contract pin its value down. */
  lemma IndexOfAnyIs(s: string, cs: set<char>, k: nat)
    requires k <= |s|
    requires forall j :: 0 <= j < k ==> s[j] !in cs
    requires k < |s| ==> s[k] in cs
    ensures IndexOfAny(s, cs) == k
  {
  }

  lemma IndexOfAnyAppend(a: string, b: string, cs: set<char>)
    requires forall j :: 0 <= j < |a| ==> a[j] !in cs
    ensures IndexOfAny(a + b, cs) == |a| + IndexOfAny(b, cs)
  {
    var k := IndexOfAny(b, cs);
    IndexOfAnyIs(a + b, cs, |a| + k);
  }

  predicate NoneOf(s: string, cs: set<char>)
  {
    forall i :: 0 <= i < |s| ==> s[i] !in cs
  }

  lemma NoneOfAppend(a: string, b: string, cs: set<char>)
    requires NoneOf(a, cs) && NoneOf(b, cs)
    ensures NoneOf(a + b, cs)
  {
  }

  /** Splitting at the first occurrence of `c`: what precedes it, and what
      follows it (empty when `c` does not occur). */
  function SplitAtFirst(s: string, c: char): (r: (string, string))
    ensures |r.0| <= |s| && r.0 == s[..|r.0|]
    ensures NoneOf(r.0, {c})
    ensures |r.0| < |s| ==> s[|r.0|] == c && r.1 == s[|r.0| + 1..]
    ensures |r.0| == |s| ==> r.1 == ""
  {
    var i := IndexOfAny(s, {c});
    (s[..i], if i < |s| then s[i + 1..] else "")
  }

  /** Splitting `head + c + tail` at `c`, when `head` holds no `c`. */
  lemma SplitAtFirstOf(head: string, c: char, tail: string, present: bool)
    requires NoneOf(head, {c})
    requires !present ==> tail == ""
    ensures SplitAtFirst(head + (if present then [c] + tail else ""), c) == (head, tail)
  {
    var s := head + (if present then [c] + tail else "");
    assert forall j :: 0 <= j < |head| ==> s[j] == head[j];
    IndexOfAnyIs(s, {c}, |head|);
    assert s[..|head|] == head;
    if present {
      assert s[|head| + 1..] == tail;
    }
  }

  /** Python's `s.rfind(c)`: the last index of `c`, or -1. */
  function LastIndexOf(s: string, c: char): (i: int)
    ensures -1 <= i < |s|
    ensures 0 <= i ==> s[i] == c
    ensures forall j :: i < j < |s| ==> s[j] != c
  {
    if s == [] then -1
    else if s[|s| - 1] == c then |s| - 1
    else LastIndexOf(s[..|s| - 1], c)
  }

  predicate StartsWith(s: string, prefix: string)
  {
    |prefix| <= |s| && s[..|prefix|] == prefix
  }

  predicate EndsWith(s: string, suffix: string)
  {
    |suffix| <= |s| && s[|s| - |suffix|..] == suffix
  }

  /** Python's `s.startswith(tuple)`. */
  predicate StartsWithAny(s: string, prefixes: seq<string>)
  {
    exists k :: 0 <= k < |prefixes| && StartsWith(s, prefixes[k])
  }

  /** Python's `s.endswith(tuple)`. */
  predicate EndsWithAny(s: string, suffixes: seq<string>)
  {
    exists k :: 0 <= k < |suffixes| && EndsWith(s, suffixes[k])
  }

  lemma EndsWithAnyConcat(s: string, xs: seq<string>, ys: seq<string>)
    ensures EndsWithAny(s, xs + ys) <==> EndsWithAny(s, xs) || EndsWithAny(s, ys)
  {
    if EndsWithAny(s, xs + ys) {
      var k :| 0 <= k < |xs + ys| && EndsWith(s, (xs + ys)[k]);
      if k < |xs| {
        assert EndsWith(s, xs[k]);
      } else {
        assert EndsWith(s, ys[k - |xs|]);
      }
    }
    if EndsWithAny(s, xs) {
      var k :| 0 <= k < |xs| && EndsWith(s, xs[k]);
      assert (xs + ys)[k] == xs[k];
    }
    if EndsWithAny(s, ys) {
      var k :| 0 <= k < |ys| && EndsWith(s, ys[k]);
      assert (xs + ys)[|xs| + k] == ys[k];
    }
  }

  /** Python's substring test `sub in s`. */
  predicate Contains(s: string, sub: string)
  {
    exists i :: 0 <= i <= |s| && OccursAt(s, sub, i)
  }

  predicate OccursAt(s: string, sub: string, i: nat)
  {
    i + |sub| <= |s| && s[i..i + |sub|] == sub
  }

  // ---------------------------------------------------------------------------
  // Case

  predicate IsAsciiUpper(c: char) { 'A' <= c <= 'Z' }

  predicate IsAsciiLetter(c: char) { 'A' <= c <= 'Z' || 'a' <= c <= 'z' }

  predicate IsAsciiDigit(c: char) { 48 <= c as int <= 57 }

  function ToLowerChar(c: char): char
  {
    if IsAsciiUpper(c) then (c as int + 32) as char else c
  }

  /** `s.lower()` on the ASCII letters (the only ones the crawler compares against). */
  function ToLower(s: string): (r: string)
    ensures |r| == |s|
    ensures forall i :: 0 <= i < |s| ==> r[i] == ToLowerChar(s[i])
  {
    if s == [] then [] else [ToLowerChar(s[0])] + ToLower(s[1..])
  }

  lemma ToLowerIdempotent(s: string)
    ensures ToLower(ToLower(s)) == ToLower(s)
  {
  }

  // ---------------------------------------------------------------------------
  // Whitespace and stripping

  /** `c.isspace()` in Python 3: the ASCII whitespace, the four separators
      U+001C..U+001F, and Unicode's space characters. */
  predicate IsSpace(c: char)
  {
    var n := c as int;
    (9 <= n <= 13) || (28 <= n <= 32) || n == 0x85 || n == 0xA0 || n == 0x1680
    || (0x2000 <= n <= 0x200A) || n == 0x2028 || n == 0x2029 || n == 0x202F
    || n == 0x205F || n == 0x3000
  }

  function LStrip(s: string): (r: string)
    ensures |r| <= |s| && r == s[|s| - |r|..]
    ensures r == [] || !IsSpace(r[0])
    ensures forall i :: 0 <= i < |s| - |r| ==> IsSpace(s[i])
  {
    if s != [] && IsSpace(s[0]) then LStrip(s[1..]) else s
  }

  function RStrip(s: string): (r: string)
    ensures |r| <= |s| && r == s[..|r|]
    ensures r == [] || !IsSpace(r[|r| - 1])
    ensures forall i :: |r| <= i < |s| ==> IsSpace(s[i])
  {
    if s != [] && IsSpace(s[|s| - 1]) then RStrip(s[..|s| - 1]) else s
  }

  /** Python's `s.strip()`. */
  function Strip(s: string): (r: string)
  {
    RStrip(LStrip(s))
  }

  lemma StripNoSurroundingSpace(s: string)
    requires s == [] || (!IsSpace(s[0]) && !IsSpace(s[|s| - 1]))
    ensures Strip(s) == s
  {
  }

  /** Python's `s.rstrip(c)`. */
  function RStripChar(s: string, c: char): (r: string)
    ensures |r| <= |s| && r == s[..|r|]
    ensures r == [] || r[|r| - 1] != c
    ensures forall i :: |r| <= i < |s| ==> s[i] == c
  {
    if s != [] && s[|s| - 1] == c then RStripChar(s[..|s| - 1], c) else s
  }

  /** Python's `s.lstrip(c)`. */
  function LStripChar(s: string, c: char): (r: string)
    ensures |r| <= |s| && r == s[|s| - |r|..]
    ensures r == [] || r[0] != c
    ensures forall i :: 0 <= i < |s| - |r| ==> s[i] == c
  {
    if s != [] && s[0] == c then LStripChar(s[1..], c) else s
  }

  /** Python's `s.strip(c)`. */
  function StripChar(s: string, c: char): string
  {
    RStripChar(LStripChar(s, c), c)
  }

  /** Removes every character in `cs` (a chain of `s.replace(x, "")`). */
  function RemoveChars(s: string, cs: set<char>): (r: string)
    ensures forall i :: 0 <= i < |r| ==> r[i] !in cs && r[i] in s
    ensures (forall i :: 0 <= i < |s| ==> s[i] !in cs) ==> r == s
  {
    if s == [] then []
    else if s[0] in cs then RemoveChars(s[1..], cs)
    else [s[0]] + RemoveChars(s[1..], cs)
  }

  /** Python's `s.replace(a, b)` for single characters. */
  function ReplaceChar(s: string, a: char, b: char): (r: string)
    ensures |r| == |s|
    ensures forall i :: 0 <= i < |s| ==> r[i] == (if s[i] == a then b else s[i])
  {
    if s == [] then [] else [if s[0] == a then b else s[0]] + ReplaceChar(s[1..], a, b)
  }

  // ---------------------------------------------------------------------------
  // split / join

  /** Python's `c.join(xs)` for a one-character separator. */
  function JoinWith(xs: seq<string>, c: char): string
  {
    if |xs| == 0 then ""
    else if |xs| == 1 then xs[0]
    else xs[0] + [c] + JoinWith(xs[1..], c)
  }

  /** Python's `s.split(c)`: never empty, pieces free of `c`, and joining them back gives `s`. */
  function SplitOn(s: string, c: char): (r: seq<string>)
    ensures |r| >= 1
    ensures forall k :: 0 <= k < |r| ==> c !in r[k]
    ensures JoinWith(r, c) == s
    decreases |s|
  {
    var p := SplitAtFirst(s, c);
    if |p.0| == |s| then [s]
    else
      assert s == p.0 + [c] + p.1;
      [p.0] + SplitOn(p.1, c)
  }

  /** Splitting undoes joining when no piece holds the separator. */
  lemma {:induction false} SplitJoin(xs: seq<string>, c: char)
    requires |xs| >= 1
    requires forall k :: 0 <= k < |xs| ==> c !in xs[k]
    ensures SplitOn(JoinWith(xs, c), c) == xs
  {
    if |xs| == 1 {
      SplitAtFirstOf(xs[0], c, "", false);
      assert xs[0] + "" == xs[0];
      assert SplitAtFirst(xs[0], c) == (xs[0], "");
    } else {
      var tail := JoinWith(xs[1..], c);
      var joined := JoinWith(xs, c);
      assert joined == xs[0] + ([c] + tail);
      SplitAtFirstOf(xs[0], c, tail, true);
      assert SplitAtFirst(joined, c) == (xs[0], tail);
      SplitJoin(xs[1..], c);
      assert SplitOn(joined, c) == [xs[0]] + SplitOn(tail, c);
      assert [xs[0]] + xs[1..] == xs;
    }
  }

  // ---------------------------------------------------------------------------
  // Decimal rendering of naturals

  function DigitChar(d: nat): (c: char)
    requires d < 10
    ensures IsAsciiDigit(c)
  {
    (48 + d) as char
  }

  /** `str(n)` for a natural number. */
  function NatToString(n: nat): (r: string)
    ensures |r| >= 1
    ensures forall i :: 0 <= i < |r| ==> IsAsciiDigit(r[i])
    decreases n
  {
    if n < 10 then [DigitChar(n)] else NatToString(n / 10) + [DigitChar(n % 10)]
  }

  /** The value of a string of decimal digits. */
  function DecimalValue(s: string): nat
    requires forall i :: 0 <= i < |s| ==> IsAsciiDigit(s[i])
  {
    if s == [] then 0
    else
      var last := s[|s| - 1];
      assert IsAsciiDigit(last);
      DecimalValue(s[..|s| - 1]) * 10 + (last as int - 48)
  }

  lemma {:induction false} DecimalValueOfNatToString(n: nat)
    ensures DecimalValue(NatToString(n)) == n
    decreases n
  {
    var r := NatToString(n);
    if n >= 10 {
      DecimalValueOfNatToString(n / 10);
      assert r[..|r| - 1] == NatToString(n / 10);
    }
  }

  /** Distinct numbers print differently. */
  lemma NatToStringInjective(m: nat, n: nat)
    requires NatToString(m) == NatToString(n)
    ensures m == n
  {
    DecimalValueOfNatToString(m);
    DecimalValueOfNatToString(n);
  }
}
