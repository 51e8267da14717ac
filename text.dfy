/**
 * The Python string operations the project relies on, stated over `seq<char>`:
 * ASCII case mapping, `startswith`, the `in` substring test, `replace`, `strip`,
 * `split` and `join`.
 */
module Text {

  /** The characters Python's `str.isspace()` accepts; `str.strip()` removes them. */
  const Whitespace: set<char> := {
    ' ', '\t', '\n', '\U{0B}', '\U{0C}', '\r', '\U{1C}', '\U{1D}', '\U{1E}', '\U{1F}',
    '\U{85}', '\U{A0}', '\U{1680}', '\U{2000}', '\U{2001}', '\U{2002}', '\U{2003}',
    '\U{2004}', '\U{2005}', '\U{2006}', '\U{2007}', '\U{2008}', '\U{2009}', '\U{200A}',
    '\U{2028}', '\U{2029}', '\U{202F}', '\U{205F}', '\U{3000}'
  }

  /** The zero-width space, which Python does not count as whitespace. */
  const ZeroWidthSpace: char := '\U{200B}'

  // ---------------------------------------------------------------- case

  predicate IsUpper(c: char) { 'A' <= c <= 'Z' }
  predicate IsLower(c: char) { 'a' <= c <= 'z' }

  function LowerChar(c: char): char { if IsUpper(c) then (c as int + 32) as char else c }
  function UpperChar(c: char): char { if IsLower(c) then (c as int - 32) as char else c }

  predicate NoUpper(s: string) { forall i :: 0 <= i < |s| ==> !IsUpper(s[i]) }
  predicate NoLower(s: string) { forall i :: 0 <= i < |s| ==> !IsLower(s[i]) }

  /** `str.lower()` on ASCII letters. */
  function Lower(s: string): (r: string)
    ensures |r| == |s| && NoUpper(r)
    ensures forall i :: 0 <= i < |s| ==> r[i] == LowerChar(s[i])
  {
    seq(|s|, i requires 0 <= i < |s| => LowerChar(s[i]))
  }

  /** `str.upper()` on ASCII letters. */
  function Upper(s: string): (r: string)
    ensures |r| == |s| && NoLower(r)
    ensures forall i :: 0 <= i < |s| ==> r[i] == UpperChar(s[i])
  {
    seq(|s|, i requires 0 <= i < |s| => UpperChar(s[i]))
  }

  /** Lowercasing a string that has no capital letters changes nothing. */
  lemma LowerNoUpper(s: string)
    requires NoUpper(s)
    ensures Lower(s) == s
  {
  }

  lemma LowerIdempotent(s: string)
    ensures Lower(Lower(s)) == Lower(s)
  {
    LowerNoUpper(Lower(s));
  }

  lemma LowerConcat(a: string, b: string)
    ensures Lower(a + b) == Lower(a) + Lower(b)
  {
  }

  /** Lowercasing never introduces a character that is not a lowercase letter. */
  lemma LowerKeepsAbsent(s: string, c: char)
    requires c !in s && !IsLower(c)
    ensures c !in Lower(s)
  {
    forall i | 0 <= i < |s|
      ensures Lower(s)[i] != c
    {
      assert s[i] != c;
    }
  }

  // ---------------------------------------------------------------- substrings

  /** `s.startswith(p)`. */
  predicate StartsWith(s: string, p: string)
  {
    |p| <= |s| && s[..|p|] == p
  }

  /** Python's `p in s`: some position of `s` starts an occurrence of `p`. */
  predicate Contains(s: string, p: string)
    decreases |s|
  {
    StartsWith(s, p) || (|s| > 0 && Contains(s[1..], p))
  }

  lemma {:induction false} ContainsAt(s: string, p: string, i: nat)
    requires i <= |s| && StartsWith(s[i..], p)
    ensures Contains(s, p)
    decreases i
  {
    if i > 0 {
      assert s[1..][i - 1..] == s[i..];
      ContainsAt(s[1..], p, i - 1);
    }
  }

  lemma {:induction false} ContainsWitness(s: string, p: string) returns (i: nat)
    requires Contains(s, p)
    ensures i <= |s| && StartsWith(s[i..], p)
    decreases |s|
  {
    if StartsWith(s, p) {
      i := 0;
    } else {
      var j := ContainsWitness(s[1..], p);
      assert s[1..][j..] == s[j + 1..];
      i := j + 1;
    }
  }

  /** If no position of `s` starts an occurrence of `p`, then `p` is not in `s`. */
  lemma NotContainsNoStart(s: string, p: string)
    requires forall i :: 0 <= i <= |s| ==> !StartsWith(s[i..], p)
    ensures !Contains(s, p)
  {
    if Contains(s, p) {
      var i := ContainsWitness(s, p);
    }
  }

  /** A pattern one of whose characters never occurs in `s` is not in `s`. */
  lemma {:induction false} NotContainsByChar(s: string, p: string, k: nat)
    requires k < |p| && p[k] !in s
    ensures !Contains(s, p)
    decreases |s|
  {
    assert |p| <= |s| ==> s[..|p|][k] == s[k];
    if |s| > 0 {
      NotContainsByChar(s[1..], p, k);
    }
  }

  lemma {:induction false} ContainsSuffix(s: string, p: string, k: nat)
    requires k <= |s| && Contains(s[k..], p)
    ensures Contains(s, p)
  {
    var i := ContainsWitness(s[k..], p);
    assert s[k..][i..] == s[k + i..];
    ContainsAt(s, p, k + i);
  }

  lemma {:induction false} ContainsPrefix(s: string, p: string, k: nat)
    requires k <= |s| && Contains(s[..k], p)
    ensures Contains(s, p)
  {
    var i := ContainsWitness(s[..k], p);
    assert s[i..][..|p|] == s[..k][i..][..|p|];
    ContainsAt(s, p, i);
  }

  /** A text that differs from `p` at a position inside both does not start with `p`. */
  lemma DiffersAt(s: string, p: string, k: nat)
    requires k < |p| && (k >= |s| || s[k] != p[k])
    ensures !StartsWith(s, p)
  {
    if |p| <= |s| {
      assert s[..|p|][k] == s[k];
    }
  }

  /** A pattern whose colon would have to fall on the only colon of `s`, at a place where it does not fit, never occurs in `s`. */
  lemma NoMatchAcrossColon(s: string, j: int, pat: string, k: nat)
    requires k < |pat| && pat[k] == ':'
    requires forall i :: 0 <= i < |s| && s[i] == ':' ==> i == j
    requires k <= j <= |s| ==> !StartsWith(s[j - k..], pat)
    ensures !Contains(s, pat)
  {
    forall i | 0 <= i <= |s|
      ensures !StartsWith(s[i..], pat)
    {
      if i + k != j {
        assert k < |s[i..]| ==> s[i..][k] == s[i + k];
        DiffersAt(s[i..], pat, k);
      }
    }
    NotContainsNoStart(s, pat);
  }

  // ---------------------------------------------------------------- replace

  /**
   * `s.replace(p, r)`: every occurrence of `p`, scanning from the left and
   * without overlaps, is replaced by `r`.
   */
  function ReplaceAll(s: string, p: string, r: string): string
    requires |p| > 0
    decreases |s|
  {
    if |s| == 0 then ""
    else if StartsWith(s, p) then r + ReplaceAll(s[|p|..], p, r)
    else [s[0]] + ReplaceAll(s[1..], p, r)
  }

  /** A text without the pattern is left as it is. */
  lemma {:induction false} ReplaceAbsent(s: string, p: string, r: string)
    requires |p| > 0 && !Contains(s, p)
    ensures ReplaceAll(s, p, r) == s
    decreases |s|
  {
    if |s| > 0 {
      ReplaceAbsent(s[1..], p, r);
    }
  }

  /** A pattern with a character the text lacks is never replaced. */
  lemma ReplaceAbsentChar(s: string, p: string, r: string, k: nat)
    requires k < |p| && p[k] !in s
    ensures ReplaceAll(s, p, r) == s
  {
    NotContainsByChar(s, p, k);
    ReplaceAbsent(s, p, r);
  }

  /** After replacing a one-character pattern by text without it, the character is gone. */
  lemma {:induction false} ReplaceRemovesChar(s: string, p: string, r: string)
    requires |p| == 1 && p[0] !in r
    ensures p[0] !in ReplaceAll(s, p, r)
    decreases |s|
  {
    if |s| > 0 {
      if StartsWith(s, p) {
        ReplaceRemovesChar(s[1..], p, r);
      } else {
        assert s[0] != p[0];
        ReplaceRemovesChar(s[1..], p, r);
      }
    }
  }

  /** Replacing never introduces a character found neither in `s` nor in `r`. */
  lemma {:induction false} ReplaceKeepsAbsent(s: string, p: string, r: string, c: char)
    requires |p| > 0 && c !in s && c !in r
    ensures c !in ReplaceAll(s, p, r)
    decreases |s|
  {
    if |s| > 0 {
      if StartsWith(s, p) {
        ReplaceKeepsAbsent(s[|p|..], p, r, c);
      } else {
        ReplaceKeepsAbsent(s[1..], p, r, c);
      }
    }
  }

  /** A replacement no longer than the pattern never makes the string longer. */
  lemma {:induction false} ReplaceNotLonger(s: string, p: string, r: string)
    requires |p| > 0 && |r| <= |p|
    ensures |ReplaceAll(s, p, r)| <= |s|
    decreases |s|
  {
    if |s| > 0 {
      if StartsWith(s, p) {
        ReplaceNotLonger(s[|p|..], p, r);
      } else {
        ReplaceNotLonger(s[1..], p, r);
      }
    }
  }

  /** A leading part in which no occurrence starts passes through a replacement untouched. */
  lemma {:induction false} ReplaceAfterPrefix(a: string, b: string, p: string, r: string)
    requires |p| > 0
    requires forall i :: 0 <= i < |a| ==> !StartsWith((a + b)[i..], p)
    ensures ReplaceAll(a + b, p, r) == a + ReplaceAll(b, p, r)
    decreases |a|
  {
    if |a| > 0 {
      assert !StartsWith((a + b)[0..], p);
      assert (a + b)[1..] == a[1..] + b;
      forall i | 0 <= i < |a[1..]|
        ensures !StartsWith((a[1..] + b)[i..], p)
      {
        assert (a[1..] + b)[i..] == (a + b)[i + 1..];
      }
      ReplaceAfterPrefix(a[1..], b, p, r);
    }
  }

  /** A string that begins with the pattern has that occurrence replaced first. */
  lemma ReplaceLeading(s: string, p: string, r: string)
    requires |p| > 0 && StartsWith(s, p)
    ensures ReplaceAll(s, p, r) == r + ReplaceAll(s[|p|..], p, r)
  {
  }

  // ---------------------------------------------------------------- strip

  /** `s.lstrip(chars)` with `chars` given as a set. */
  function LStrip(s: string, cs: set<char>): (r: string)
    ensures |r| <= |s| && r == s[|s| - |r|..]
    ensures r == [] || r[0] !in cs
    ensures forall i :: 0 <= i < |s| - |r| ==> s[i] in cs
    decreases |s|
  {
    if |s| > 0 && s[0] in cs then LStrip(s[1..], cs) else s
  }

  /** `s.rstrip(chars)` with `chars` given as a set. */
  function RStrip(s: string, cs: set<char>): (r: string)
    ensures |r| <= |s| && r == s[..|r|]
    ensures r == [] || r[|r| - 1] !in cs
    ensures forall i :: |r| <= i < |s| ==> s[i] in cs
    decreases |s|
  {
    if |s| > 0 && s[|s| - 1] in cs then RStrip(s[..|s| - 1], cs) else s
  }

  /** `s.strip(chars)`; `Strip(s, Whitespace)` is `s.strip()`. */
  function Strip(s: string, cs: set<char>): (r: string)
    ensures |r| <= |s|
    ensures r == [] || (r[0] !in cs && r[|r| - 1] !in cs)
    ensures forall c :: c in r ==> c in s
  {
    var l := LStrip(s, cs);
    var r := RStrip(l, cs);
    assert forall c :: c in r ==> c in l;
    r
  }

  /** A string that neither begins nor ends with a stripped character is its own strip. */
  lemma StripUnchanged(s: string, cs: set<char>)
    requires s == [] || (s[0] !in cs && s[|s| - 1] !in cs)
    ensures Strip(s, cs) == s
  {
  }

  /** Stripping drops a trailing run of stripped characters and nothing before it. */
  lemma {:induction false} RStripTrailing(x: string, y: string, cs: set<char>)
    requires x == [] || x[|x| - 1] !in cs
    requires forall i :: 0 <= i < |y| ==> y[i] in cs
    ensures RStrip(x + y, cs) == x
    decreases |y|
  {
    if |y| > 0 {
      assert (x + y)[..|x + y| - 1] == x + y[..|y| - 1];
      RStripTrailing(x, y[..|y| - 1], cs);
    } else {
      assert x + y == x;
    }
  }

  // ---------------------------------------------------------------- split and join

  /** `sep.join(parts)`. */
  function Join(parts: seq<string>, sep: string): string
  {
    if |parts| == 0 then ""
    else if |parts| == 1 then parts[0]
    else parts[0] + sep + Join(parts[1..], sep)
  }

  /**
   * `s.split(sep)`: the pieces between the occurrences of `sep` found from the left.
   * Joining the pieces with `sep` gives back `s`, and no piece contains `sep`.
   */
  function Split(s: string, sep: string): (parts: seq<string>)
    requires |sep| > 0
    ensures |parts| >= 1
    ensures |parts[0]| <= |s| && s[..|parts[0]|] == parts[0]
    ensures Join(parts, sep) == s
    ensures forall k :: 0 <= k < |parts| ==> !Contains(parts[k], sep)
    decreases |s|
  {
    if |s| == 0 then [""]
    else if StartsWith(s, sep) then
      var t := Split(s[|sep|..], sep);
      assert s == sep + s[|sep|..];
      assert ([""] + t)[1..] == t;
      assert !Contains("", sep);
      [""] + t
    else
      var t := Split(s[1..], sep);
      var head := [s[0]] + t[0];
      assert head[1..] == t[0];
      HeadWithoutSeparator(s, sep, head);
      JoinExtendHead(s[0], t, sep);
      assert ([head] + t[1..])[1..] == t[1..];
      [head] + t[1..]
  }

  lemma HeadWithoutSeparator(s: string, sep: string, head: string)
    requires |head| >= 1 && |head| <= |s| && head == s[..|head|]
    requires !StartsWith(s, sep) && !Contains(head[1..], sep)
    ensures !Contains(head, sep)
  {
    assert |sep| <= |head| ==> head[..|sep|] == s[..|sep|];
  }

  lemma JoinExtendHead(c: char, t: seq<string>, sep: string)
    requires |t| >= 1
    ensures Join([[c] + t[0]] + t[1..], sep) == [c] + Join(t, sep)
  {
    if |t| > 1 {
      assert ([[c] + t[0]] + t[1..])[1..] == t[1..];
    }
  }

  /** The separator's last character occurs nowhere else in it. */
  predicate LastCharUnique(sep: string)
  {
    |sep| > 0 && sep[|sep| - 1] !in sep[..|sep| - 1]
  }

  /** A text without the separator splits into itself alone. */
  lemma {:induction false} SplitNoSeparator(x: string, sep: string)
    requires |sep| > 0 && !Contains(x, sep)
    ensures Split(x, sep) == [x]
    decreases |x|
  {
    if |x| > 0 {
      SplitNoSeparator(x[1..], sep);
      assert [x[0]] + x[1..] == x;
    }
  }

  /** A separator whose last character is unique cannot straddle the end of a piece. */
  lemma NoStraddle(x: string, sep: string, rest: string)
    requires LastCharUnique(sep) && |x| > 0 && !Contains(x, sep)
    ensures !StartsWith(x + sep + rest, sep)
  {
    var s := x + sep + rest;
    if |sep| <= |x| {
      assert s[..|sep|] == x[..|sep|];
    } else {
      // the last character of sep would sit inside the copy of sep that follows x
      var m := |sep| - |x|;
      assert s[|sep| - 1] == sep[m - 1];
      assert sep[..|sep| - 1][m - 1] == sep[m - 1];
    }
  }

  /** A piece followed by the separator is split off as the first piece. */
  lemma {:induction false} SplitFirstPiece(x: string, sep: string, rest: string)
    requires LastCharUnique(sep) && !Contains(x, sep)
    ensures Split(x + sep + rest, sep) == [x] + Split(rest, sep)
    decreases |x|
  {
    var s := x + sep + rest;
    if |x| == 0 {
      assert s == sep + rest;
      assert s[..|sep|] == sep;
      assert s[|sep|..] == rest;
    } else {
      NoStraddle(x, sep, rest);
      assert s[1..] == x[1..] + sep + rest;
      assert !Contains(x[1..], sep);
      SplitFirstPiece(x[1..], sep, rest);
      assert [x[0]] + x[1..] == x;
    }
  }

  /** Splitting a join gives back the pieces, when no piece contains the separator. */
  lemma {:induction false} SplitJoin(parts: seq<string>, sep: string)
    requires LastCharUnique(sep) && |parts| >= 1
    requires forall k :: 0 <= k < |parts| ==> !Contains(parts[k], sep)
    ensures Split(Join(parts, sep), sep) == parts
    decreases |parts|
  {
    if |parts| == 1 {
      SplitNoSeparator(parts[0], sep);
    } else {
      SplitJoin(parts[1..], sep);
      SplitFirstPiece(parts[0], sep, Join(parts[1..], sep));
      assert [parts[0]] + parts[1..] == parts;
    }
  }

  /** With a one-character separator absent from `b`, `b` is the last piece of `a + sep + b`. */
  lemma {:induction false} SplitLastPiece(a: string, c: char, b: string)
    requires c !in b
    ensures Split(a + [c] + b, [c]) == Split(a, [c]) + [b]
    decreases |a|
  {
    var sep := [c];
    if |a| == 0 {
      NotContainsByChar(b, sep, 0);
      SplitFirstPiece("", sep, b);
      SplitNoSeparator(b, sep);
      assert a + [c] + b == "" + sep + b;
    } else {
      var s := a + [c] + b;
      assert s[1..] == a[1..] + [c] + b;
      SplitLastPiece(a[1..], c, b);
      var t, u := Split(s[1..], sep), Split(a[1..], sep);
      assert t == u + [b];
      if a[0] == c {
        assert StartsWith(s, sep) && StartsWith(a, sep);
        assert Split(s, sep) == [""] + t;
        assert Split(a, sep) == [""] + u;
      } else {
        assert !StartsWith(s, sep) && !StartsWith(a, sep);
        assert Split(s, sep) == [[s[0]] + t[0]] + t[1..];
        assert Split(a, sep) == [[a[0]] + u[0]] + u[1..];
        assert t[0] == u[0] && t[1..] == u[1..] + [b];
      }
    }
  }

  // ---------------------------------------------------------------- regular-expression substitution

  /**
   * `re.sub(pattern, r, s)` for a pattern that never matches the empty
   * string: `m(t)` is the length of the pattern's match at the start of `t`
   * (0 when it does not match there). Scanning goes left to right; each match
   * is replaced by `r` and scanning resumes right after it.
   */
  function RegexSub(s: string, m: string -> nat, r: string): string
    decreases |s|
  {
    if |s| == 0 then []
    else if 0 < m(s) <= |s| then r + RegexSub(s[m(s)..], m, r)
    else [s[0]] + RegexSub(s[1..], m, r)
  }

  /** A prefix at none of whose positions the pattern matches is copied unchanged. */
  lemma {:induction false} RegexSubSkip(x: string, y: string, m: string -> nat, r: string)
    requires forall i :: 0 <= i < |x| ==> m((x + y)[i..]) == 0
    ensures RegexSub(x + y, m, r) == x + RegexSub(y, m, r)
    decreases |x|
  {
    if |x| > 0 {
      assert (x + y)[0..] == x + y;
      assert (x + y)[1..] == x[1..] + y;
      forall i | 0 <= i < |x| - 1
        ensures m((x[1..] + y)[i..]) == 0
      {
        assert (x[1..] + y)[i..] == (x + y)[i + 1..];
      }
      RegexSubSkip(x[1..], y, m, r);
    }
  }

  /** A text at none of whose positions the pattern matches is left unchanged. */
  lemma RegexSubNone(s: string, m: string -> nat, r: string)
    requires forall i :: 0 <= i < |s| ==> m(s[i..]) == 0
    ensures RegexSub(s, m, r) == s
  {
    assert s + [] == s;
    RegexSubSkip(s, [], m, r);
  }
}
