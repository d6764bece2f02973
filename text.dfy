/**
 * String helpers with the semantics of the Python built-ins the analyst uses:
 * `str.find`, `in`, `str.startswith`, `str.strip`, `str.join`, `str.lower`
 * and `str.splitlines`. Strings are sequences of characters.
 */
module Text {

  /** `p` occurs in `s` starting at index `i`. */
  predicate OccursAt(s: string, p: string, i: nat)
  {
    i + |p| <= |s| && s[i..i + |p|] == p
  }

  /**
   * `s.find(p, start)`: the least index at or after `start` where `p` occurs,
   * or -1 when there is none.
   */
  function Find(s: string, p: string, start: nat): (r: int)
    requires start <= |s|
    ensures r == -1 || (start <= r && r + |p| <= |s|)
    decreases |s| - start
  {
    if start + |p| > |s| then -1
    else if s[start..start + |p|] == p then start
    else if start == |s| then -1
    else Find(s, p, start + 1)
  }

  /** What `Find` returns is an occurrence with none before it, and -1 means there is none at all. */
  lemma {:induction false} FindSpec(s: string, p: string, start: nat)
    requires start <= |s|
    ensures Find(s, p, start) != -1 ==> IsNextAfter(s, p, start, Find(s, p, start))
    ensures Find(s, p, start) == -1 ==> NoneAfter(s, p, start)
    decreases |s| - start
  {
    if start + |p| > |s| {
    } else if s[start..start + |p|] == p {
    } else if start == |s| {
    } else {
      FindSpec(s, p, start + 1);
    }
  }

  /** `i` is the first place `p` occurs in `s`. */
  predicate IsFirst(s: string, p: string, i: nat)
  {
    OccursAt(s, p, i) && forall j :: 0 <= j < i ==> !OccursAt(s, p, j)
  }

  /** `i` is the first place at or after `from` where `p` occurs in `s`. */
  predicate IsNextAfter(s: string, p: string, from: nat, i: nat)
  {
    from <= i && OccursAt(s, p, i) && forall j :: from <= j < i ==> !OccursAt(s, p, j)
  }

  /** `p` does not occur in `s` at or after `from`. */
  predicate NoneAfter(s: string, p: string, from: nat)
  {
    forall j :: from <= j <= |s| ==> !OccursAt(s, p, j)
  }

  /** `Find` returns exactly the next occurrence, or -1 when there is none. */
  lemma FindIsNext(s: string, p: string, from: nat, i: nat)
    requires from <= |s|
    requires IsNextAfter(s, p, from, i)
    ensures Find(s, p, from) == i
  {
    FindSpec(s, p, from);
  }

  lemma FindNone(s: string, p: string, from: nat)
    requires from <= |s|
    requires NoneAfter(s, p, from)
    ensures Find(s, p, from) == -1
  {
    FindSpec(s, p, from);
  }

  /** Occurrences in a suffix are occurrences in the whole string, shifted. */
  lemma OccursInSuffix(s: string, p: string, d: nat, k: nat)
    requires d <= |s|
    ensures OccursAt(s[d..], p, k) <==> OccursAt(s, p, d + k)
  {
    if d + k + |p| <= |s| {
      assert s[d..][k..k + |p|] == s[d + k..d + k + |p|];
    }
  }

  /** Searching a suffix finds the same occurrence as searching the whole string from there. */
  lemma {:induction false} FindInSuffix(s: string, p: string, d: nat, k: nat)
    requires d + k <= |s|
    ensures Find(s[d..], p, k) == if Find(s, p, d + k) == -1 then -1 else Find(s, p, d + k) - d
    decreases |s| - d - k
  {
    OccursInSuffix(s, p, d, k);
    if d + k + |p| > |s| {
    } else if OccursAt(s, p, d + k) {
    } else if d + k == |s| {
    } else {
      FindInSuffix(s, p, d, k + 1);
    }
  }

  /** An occurrence that ends inside `x` is the same in `x + y` and in `x`. */
  lemma OccursInPrefix(x: string, y: string, p: string, k: nat)
    requires k + |p| <= |x|
    ensures OccursAt(x + y, p, k) <==> OccursAt(x, p, k)
  {
    assert (x + y)[k..k + |p|] == x[k..k + |p|];
  }

  /** A slice of a slice is a slice. */
  lemma SliceOfSlice(s: string, a: nat, b: nat, k: nat, n: nat)
    requires a <= b <= |s| && k + n <= b - a
    ensures s[a..b][k..k + n] == s[a + k..a + k + n]
  {
    var x, y := s[a..b][k..k + n], s[a + k..a + k + n];
    assert |x| == |y|;
    forall t | 0 <= t < n
      ensures x[t] == y[t]
    {
    }
  }

  /** A pattern whose first character is absent does not occur. */
  lemma {:induction false} AbsentLead(s: string, p: string)
    requires p != [] && p[0] !in s
    ensures !Contains(s, p)
  {
    forall j | 0 <= j <= |s|
      ensures !OccursAt(s, p, j)
    {
      if j + |p| <= |s| {
        assert s[j..j + |p|][0] == s[j];
      }
    }
    FindNone(s, p, 0);
  }

  /** An occurrence in a middle part is an occurrence in the whole, shifted by the first part. */
  lemma OccursInMiddle(a: string, b: string, c: string, p: string, k: nat)
    requires OccursAt(b, p, k)
    ensures OccursAt(a + b + c, p, |a| + k)
  {
    assert (a + b + c)[|a| + k..|a| + k + |p|] == b[k..k + |p|];
  }

  /** `p in s`. */
  predicate Contains(s: string, p: string)
  {
    Find(s, p, 0) != -1
  }

  lemma ContainsIff(s: string, p: string)
    ensures Contains(s, p) <==> exists i: nat :: OccursAt(s, p, i)
  {
    FindSpec(s, p, 0);
    if exists i: nat :: OccursAt(s, p, i) {
      var i: nat :| OccursAt(s, p, i);
      assert i <= |s|;
    }
  }

  /** `s.startswith(p)`. */
  predicate StartsWith(s: string, p: string)
  {
    |p| <= |s| && s[..|p|] == p
  }

  /** `s.endswith(p)`. */
  predicate EndsWith(s: string, p: string)
  {
    |p| <= |s| && s[|s| - |p|..] == p
  }

  /** The characters for which Python's `str.isspace()` is true. */
  const Spaces: set<char> := {' ', '\t', '\n', '\U{B}', '\U{C}', '\r', '\U{1C}', '\U{1D}', '\U{1E}', '\U{1F}',
    '\U{85}', '\U{A0}', '\U{1680}', '\U{2000}', '\U{2001}', '\U{2002}', '\U{2003}', '\U{2004}', '\U{2005}',
    '\U{2006}', '\U{2007}', '\U{2008}', '\U{2009}', '\U{200A}', '\U{2028}', '\U{2029}', '\U{202F}',
    '\U{205F}', '\U{3000}'}

  predicate IsSpace(c: char)
  {
    c in Spaces
  }

  /** `s.lstrip()`: `s` without its leading white space. */
  function TrimStart(s: string): (r: string)
  {
    if s != [] && IsSpace(s[0]) then TrimStart(s[1..]) else s
  }

  /** `s.rstrip()`: `s` without its trailing white space. */
  function TrimEnd(s: string): (r: string)
  {
    if s != [] && IsSpace(s[|s| - 1]) then TrimEnd(s[..|s| - 1]) else s
  }

  /** `TrimStart` drops exactly the leading white space: a suffix of `s`, all spaces before it, none at its head. */
  lemma {:induction false} TrimStartSpec(s: string)
    ensures |TrimStart(s)| <= |s| && TrimStart(s) == s[|s| - |TrimStart(s)|..]
    ensures forall k :: 0 <= k < |s| - |TrimStart(s)| ==> IsSpace(s[k])
    ensures TrimStart(s) != [] ==> !IsSpace(TrimStart(s)[0])
    decreases |s|
  {
    if s != [] && IsSpace(s[0]) {
      var t := s[1..];
      TrimStartSpec(t);
      var r := TrimStart(t);
      assert TrimStart(s) == r;
      assert t[|t| - |r|..] == s[|s| - |r|..];
      forall k | 0 <= k < |s| - |r|
        ensures IsSpace(s[k])
      {
        if k > 0 {
          assert s[k] == t[k - 1];
        }
      }
    }
  }

  /** `TrimEnd` drops exactly the trailing white space: a prefix of `s`, all spaces after it, none at its end. */
  lemma {:induction false} TrimEndSpec(s: string)
    ensures |TrimEnd(s)| <= |s| && TrimEnd(s) == s[..|TrimEnd(s)|]
    ensures forall k :: |TrimEnd(s)| <= k < |s| ==> IsSpace(s[k])
    ensures TrimEnd(s) != [] ==> !IsSpace(TrimEnd(s)[|TrimEnd(s)| - 1])
    decreases |s|
  {
    if s != [] && IsSpace(s[|s| - 1]) {
      TrimEndSpec(s[..|s| - 1]);
      var r := TrimEnd(s[..|s| - 1]);
      assert s[..|s| - 1][..|r|] == s[..|r|];
      forall k | |r| <= k < |s| - 1
        ensures IsSpace(s[k])
      {
        assert s[k] == s[..|s| - 1][k];
      }
    }
  }

  /** `s.strip()`. */
  function Strip(s: string): (r: string)
  {
    TrimEnd(TrimStart(s))
  }

  /** A string with no white space at either end. */
  predicate IsStripped(s: string)
  {
    s != [] ==> !IsSpace(s[0]) && !IsSpace(s[|s| - 1])
  }

  /** Where `Strip(s)` starts in `s`: the number of leading white-space characters. */
  function StripStart(s: string): (r: nat)
  {
    TrimStartSpec(s);
    |s| - |TrimStart(s)|
  }

  /**
   * `Strip(s)` is the slice of `s` that drops exactly the white space at both
   * ends: everything before it and after it is white space, and it has no
   * white space at either end.
   */
  lemma {:induction false} StripIsSlice(s: string)
    ensures StripStart(s) + |Strip(s)| <= |s|
    ensures Strip(s) == s[StripStart(s)..StripStart(s) + |Strip(s)|]
    ensures forall k :: 0 <= k < StripStart(s) ==> IsSpace(s[k])
    ensures forall k :: StripStart(s) + |Strip(s)| <= k < |s| ==> IsSpace(s[k])
    ensures IsStripped(Strip(s))
  {
    var t := TrimStart(s);
    var r := TrimEnd(t);
    TrimStartSpec(s);
    TrimEndSpec(t);
    var i := |s| - |t|;
    assert r == t[..|r|];
    assert t[..|r|] == s[i..i + |r|];
    forall k | i + |r| <= k < |s|
      ensures IsSpace(s[k])
    {
      assert s[k] == t[k - i];
    }
    if r != [] {
      assert r[0] == t[0];
    }
  }

  /** A string with no white space at either end is its own strip. */
  lemma StripOfStripped(s: string)
    requires IsStripped(s)
    ensures Strip(s) == s
  {
    assert TrimStart(s) == s;
  }

  /** `strip` is idempotent. */
  lemma {:induction false} StripIdempotent(s: string)
    ensures Strip(Strip(s)) == Strip(s)
  {
    StripIsSlice(s);
    StripOfStripped(Strip(s));
  }

  /** Leading white space does not change `lstrip`. */
  lemma {:induction false} TrimStartSkipsSpaces(ws: string, x: string)
    requires forall c :: c in ws ==> IsSpace(c)
    ensures TrimStart(ws + x) == TrimStart(x)
    decreases |ws|
  {
    if ws != [] {
      assert (ws + x)[0] == ws[0];
      assert (ws + x)[1..] == ws[1..] + x;
      TrimStartSkipsSpaces(ws[1..], x);
    } else {
      assert ws + x == x;
    }
  }

  /** Trailing white space does not change `rstrip`. */
  lemma {:induction false} TrimEndSkipsSpaces(x: string, ws: string)
    requires forall c :: c in ws ==> IsSpace(c)
    ensures TrimEnd(x + ws) == TrimEnd(x)
    decreases |ws|
  {
    if ws != [] {
      var n := |x + ws|;
      assert (x + ws)[n - 1] == ws[|ws| - 1];
      assert (x + ws)[..n - 1] == x + ws[..|ws| - 1];
      TrimEndSkipsSpaces(x, ws[..|ws| - 1]);
    } else {
      assert x + ws == x;
    }
  }

  /** Stripping white space around a stripped core gives the core. */
  lemma {:induction false} StripSurrounded(ws1: string, core: string, ws2: string)
    requires forall c :: c in ws1 ==> IsSpace(c)
    requires forall c :: c in ws2 ==> IsSpace(c)
    requires IsStripped(core)
    ensures Strip(ws1 + core + ws2) == core
  {
    assert ws1 + core + ws2 == ws1 + (core + ws2);
    TrimStartSkipsSpaces(ws1, core + ws2);
    if core == [] {
      assert core + ws2 == ws2 + [];
      TrimStartSkipsSpaces(ws2, []);
    } else {
      assert (core + ws2)[0] == core[0];
      TrimEndSkipsSpaces(core, ws2);
      StripOfStripped(core);
    }
  }

  /** A string whose first character is not white space strips to a string starting with it. */
  lemma {:induction false} StripKeepsFirst(s: string)
    requires s != [] && !IsSpace(s[0])
    ensures Strip(s) != [] && Strip(s)[0] == s[0]
  {
    TrimEndSpec(s);
  }

  /** `sep.join(xs)`. */
  function Join(xs: seq<string>, sep: string): (r: string)
    decreases |xs|
  {
    if |xs| == 0 then ""
    else if |xs| == 1 then xs[0]
    else xs[0] + sep + Join(xs[1..], sep)
  }

  /** Where `xs[i]` starts in `Join(xs, sep)`. */
  function JoinOffset(xs: seq<string>, sep: string, i: nat): (r: nat)
    requires i <= |xs|
    decreases i
  {
    if i == 0 then 0 else JoinOffset(xs, sep, i - 1) + |xs[i - 1]| + |sep|
  }

  /** Every element appears in the joined string, at its offset, in order. */
  lemma {:induction false} JoinContainsAt(xs: seq<string>, sep: string, i: nat)
    requires i < |xs|
    ensures OccursAt(Join(xs, sep), xs[i], JoinOffset(xs, sep, i))
    ensures i + 1 < |xs| ==> OccursAt(Join(xs, sep), sep, JoinOffset(xs, sep, i) + |xs[i]|)
    decreases i
  {
    if |xs| == 1 {
      SelfOccurs(xs[0]);
    } else if i == 0 {
      JoinHeadAt(xs, sep);
    } else {
      JoinContainsAt(xs[1..], sep, i - 1);
      assert xs[1..][i - 1] == xs[i];
      JoinCons(xs, sep);
      JoinOffsetShift(xs, sep, i);
      ShiftOccurrences(Join(xs, sep), xs[0] + sep, Join(xs[1..], sep), xs[i], sep,
                       JoinOffset(xs[1..], sep, i - 1), i + 1 < |xs|);
    }
  }

  /** The first element opens the joined string and the separator follows it. */
  lemma JoinHeadAt(xs: seq<string>, sep: string)
    requires 2 <= |xs|
    ensures OccursAt(Join(xs, sep), xs[0], 0)
    ensures OccursAt(Join(xs, sep), sep, |xs[0]|)
  {
    var rest := Join(xs[1..], sep);
    SelfOccurs(xs[0]);
    OccursInMiddle([], xs[0], sep + rest, xs[0], 0);
    assert [] + xs[0] + (sep + rest) == Join(xs, sep);
    SelfOccurs(sep);
    OccursInMiddle(xs[0], sep, rest, sep, 0);
  }

  /** Occurrences in `rest` reappear in `lead + rest`, shifted by `|lead|`. */
  lemma ShiftOccurrences(whole: string, lead: string, rest: string, p: string, sep: string, o: nat, next: bool)
    requires whole == lead + rest
    requires OccursAt(rest, p, o)
    requires next ==> OccursAt(rest, sep, o + |p|)
    ensures OccursAt(whole, p, |lead| + o)
    ensures next ==> OccursAt(whole, sep, |lead| + o + |p|)
  {
    OccursAfter(lead, rest, p, o);
    if next {
      OccursAfter(lead, rest, sep, o + |p|);
    }
  }

  /** A join of two or more elements: the head, a separator, then the join of the tail. */
  lemma JoinCons(xs: seq<string>, sep: string)
    requires 2 <= |xs|
    ensures Join(xs, sep) == (xs[0] + sep) + Join(xs[1..], sep)
  {
  }

  /** An occurrence keeps its place, shifted, when text is put in front. */
  lemma OccursAfter(a: string, b: string, p: string, k: nat)
    requires OccursAt(b, p, k)
    ensures OccursAt(a + b, p, |a| + k)
  {
    assert (a + b)[|a| + k..|a| + k + |p|] == b[k..k + |p|];
  }

  lemma SelfOccurs(s: string)
    ensures OccursAt(s, s, 0)
  {
    assert s[0..|s|] == s;
  }

  lemma {:induction false} JoinOffsetShift(xs: seq<string>, sep: string, i: nat)
    requires 0 < i <= |xs|
    ensures JoinOffset(xs, sep, i) == |xs[0]| + |sep| + JoinOffset(xs[1..], sep, i - 1)
    decreases i
  {
    if i > 1 {
      JoinOffsetShift(xs, sep, i - 1);
    }
  }

  /** Element offsets grow strictly: the elements appear in their order. */
  lemma {:induction false} JoinOffsetMonotone(xs: seq<string>, sep: string, i: nat, j: nat)
    requires i < j <= |xs|
    ensures JoinOffset(xs, sep, i) + |xs[i]| + |sep| <= JoinOffset(xs, sep, j)
    decreases j - i
  {
    if j > i + 1 {
      JoinOffsetMonotone(xs, sep, i, j - 1);
    }
  }

  /** ASCII lower-casing of one character. */
  function LowerChar(c: char): (r: char)
    ensures 'A' <= c <= 'Z' ==> 'a' <= r <= 'z' && r as int == c as int - 'A' as int + 'a' as int
    ensures !('A' <= c <= 'Z') ==> r == c
  {
    if 'A' <= c <= 'Z' then (c as int - 'A' as int + 'a' as int) as char else c
  }

  /** `s.lower()`, for ASCII letters. */
  function Lower(s: string): (r: string)
    ensures |r| == |s| && forall i :: 0 <= i < |s| ==> r[i] == LowerChar(s[i])
  {
    seq(|s|, i requires 0 <= i < |s| => LowerChar(s[i]))
  }

  /** The characters `str.splitlines()` ends a line at (with "\r\n" as one boundary). */
  const LineBreaks: set<char> := {'\n', '\U{B}', '\U{C}', '\r', '\U{1C}', '\U{1D}', '\U{1E}', '\U{85}', '\U{2028}', '\U{2029}'}

  predicate IsLineBreak(c: char)
  {
    c in LineBreaks
  }

  /** Index of the first line boundary in `s`, or `|s|`. */
  function LineEnd(s: string): (r: nat)
    ensures r <= |s| && (r < |s| ==> IsLineBreak(s[r]))
    ensures forall k :: 0 <= k < r ==> !IsLineBreak(s[k])
  {
    if s == [] || IsLineBreak(s[0]) then 0 else 1 + LineEnd(s[1..])
  }

  /** `s.splitlines()`: the lines of `s` without their boundaries; a final boundary adds no empty line. */
  function SplitLines(s: string): (r: seq<string>)
    ensures forall k :: 0 <= k < |r| ==> forall c :: c in r[k] ==> !IsLineBreak(c)
    decreases |s|
  {
    if s == [] then []
    else
      var e := LineEnd(s);
      if e == |s| then [s]
      else
        var next := if s[e] == '\r' && e + 1 < |s| && s[e + 1] == '\n' then e + 2 else e + 1;
        [s[..e]] + SplitLines(s[next..])
  }

  /** A line without boundary characters. */
  predicate IsSingleLine(s: string)
  {
    forall c :: c in s ==> !IsLineBreak(c)
  }

  /** Joining non-empty single lines with "\n" and splitting again gives them back. */
  lemma {:induction false} SplitJoinedLines(ls: seq<string>)
    requires forall k :: 0 <= k < |ls| ==> ls[k] != "" && IsSingleLine(ls[k])
    ensures SplitLines(Join(ls, "\n")) == ls
    decreases |ls|
  {
    if |ls| == 0 {
    } else if |ls| == 1 {
      LineEndOfSingleLine(ls[0], "");
    } else {
      var rest := Join(ls[1..], "\n");
      assert Join(ls, "\n") == ls[0] + "\n" + rest;
      SplitAfterLine(ls[0], rest);
      SplitJoinedLines(ls[1..]);
      assert ls == [ls[0]] + ls[1..];
    }
  }

  /** A single line followed by "\n" splits off as the first line. */
  lemma SplitAfterLine(a: string, rest: string)
    requires a != "" && IsSingleLine(a)
    ensures SplitLines(a + "\n" + rest) == [a] + SplitLines(rest)
  {
    var s := a + "\n" + rest;
    LineEndOfSingleLine(a, "\n" + rest);
    assert a + ("\n" + rest) == s;
    assert s[|a|] == '\n';
    assert s[..|a|] == a;
    assert s[|a| + 1..] == rest;
  }

  lemma {:induction false} LineEndOfSingleLine(a: string, b: string)
    requires IsSingleLine(a)
    requires b == [] || IsLineBreak(b[0])
    ensures LineEnd(a + b) == |a|
    decreases |a|
  {
    if a != [] {
      assert (a + b)[0] == a[0];
      assert (a + b)[1..] == a[1..] + b;
      LineEndOfSingleLine(a[1..], b);
    } else {
      assert a + b == b;
    }
  }
}
