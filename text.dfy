/**
 * String helpers with Python's meaning: str.strip/lstrip/rstrip, str.startswith,
 * the `in` substring test and str.join.
 *
 * Whitespace is Python's str.isspace() restricted to ASCII (tab, line feed,
 * vertical tab, form feed, carriage return, the four separators 0x1C-0x1F and
 * space); the same set is what `\s` matches in a `re` pattern. Word characters
 * (`\w`) are ASCII letters, digits and underscore.
 */
module Text {

  const Whitespace: set<char> :=
    {' ', '\t', '\n', '\U{0B}', '\U{0C}', '\r', '\U{1C}', '\U{1D}', '\U{1E}', '\U{1F}'}

  predicate IsSpace(c: char) {
    c in Whitespace
  }

  predicate IsWordChar(c: char) {
    ('a' <= c <= 'z') || ('A' <= c <= 'Z') || ('0' <= c <= '9') || c == '_'
  }

  predicate AllIn(s: string, cs: set<char>) {
    forall i :: 0 <= i < |s| ==> s[i] in cs
  }

  /** `s.lstrip(chars)`: the longest suffix of `s` not starting with a character of `cs`. */
  function TrimStart(s: string, cs: set<char>): (r: string)
    ensures |r| <= |s| && r == s[|s| - |r|..]
    ensures forall i :: 0 <= i < |s| - |r| ==> s[i] in cs
    ensures r == [] || r[0] !in cs
  {
    if s != [] && s[0] in cs then
      var r := TrimStart(s[1..], cs);
      assert s[1..][|s| - 1 - |r|..] == s[|s| - |r|..];
      assert forall i :: 0 < i < |s| - |r| ==> s[i] == s[1..][..|s| - 1 - |r|][i - 1];
      r
    else
      s
  }

  /** `s.rstrip(chars)`: the longest prefix of `s` not ending with a character of `cs`. */
  function TrimEnd(s: string, cs: set<char>): (r: string)
    ensures |r| <= |s| && r == s[..|r|]
    ensures forall i :: |r| <= i < |s| ==> s[i] in cs
    ensures r == [] || r[|r| - 1] !in cs
  {
    if s != [] && s[|s| - 1] in cs then
      var r := TrimEnd(s[..|s| - 1], cs);
      assert s[..|s| - 1][..|r|] == s[..|r|];
      assert forall i :: |r| <= i < |s| - 1 ==> s[i] == s[..|s| - 1][|r|..][i - |r|];
      r
    else
      s
  }

  /** `s.lstrip()` */
  function LStrip(s: string): string {
    TrimStart(s, Whitespace)
  }

  /** `s.strip()` */
  function Strip(s: string): (r: string)
    ensures |r| <= |s|
    ensures r == [] <==> AllIn(s, Whitespace)
    ensures r != [] ==> !IsSpace(r[0]) && !IsSpace(r[|r| - 1])
  {
    var t := TrimEnd(s, Whitespace);
    var r := TrimStart(t, Whitespace);
    TrimBoth(s, Whitespace, t, r);
    r
  }

  /** What `strip()` leaves is a contiguous part of its input, and only whitespace is removed around it. */
  lemma StripInfix(s: string)
    ensures exists a :: TrimmedInfix(s, Strip(s), a, Whitespace)
  {
    var t := TrimEnd(s, Whitespace);
    var r := TrimStart(t, Whitespace);
    assert TrimmedInfix(s, r, |t| - |r|, Whitespace) by {
      TrimBoth(s, Whitespace, t, r);
    }
    assert r == Strip(s);
  }

  /** `r` occurs in `s` at `a`, and every character before and after it is in `cs`. */
  predicate TrimmedInfix(s: string, r: string, a: nat, cs: set<char>)
  {
    OccursAt(s, r, a) && AllIn(s[..a], cs) && AllIn(s[a + |r|..], cs)
  }

  /**
   * Trimming a set of characters from both ends: the result is empty exactly when
   * every character is in the set; otherwise it neither starts nor ends with one;
   * it is an infix, and all around it is made of characters of the set.
   */
  lemma TrimBoth(s: string, cs: set<char>, t: string, r: string)
    requires |t| <= |s| && t == s[..|t|] && forall i :: |t| <= i < |s| ==> s[i] in cs
    requires t == [] || t[|t| - 1] !in cs
    requires |r| <= |t| && r == t[|t| - |r|..] && forall i :: 0 <= i < |t| - |r| ==> t[i] in cs
    requires r == [] || r[0] !in cs
    ensures r == [] <==> AllIn(s, cs)
    ensures r != [] ==> r[0] !in cs && r[|r| - 1] !in cs
    ensures |r| <= |t| && TrimmedInfix(s, r, |t| - |r|, cs)
  {
    TrimBothEmpty(s, cs, t, r);
    TrimBothInfix(s, cs, t, r);
    TrimBothEnds(cs, t, r);
  }

  /** A suffix of a string that does not end in `cs`, and that does not start in `cs` itself, has neither end in `cs`. */
  lemma TrimBothEnds(cs: set<char>, t: string, r: string)
    requires |r| <= |t| && r == t[|t| - |r|..] && (r == [] || r[0] !in cs) && (t == [] || t[|t| - 1] !in cs)
    ensures r != [] ==> r[0] !in cs && r[|r| - 1] !in cs
  {
    assert r != [] ==> r[|r| - 1] == t[|t| - 1];
  }

  /** Trimming both ends empties exactly the strings made only of trimmed characters. */
  lemma TrimBothEmpty(s: string, cs: set<char>, t: string, r: string)
    requires |t| <= |s| && t == s[..|t|] && forall i :: |t| <= i < |s| ==> s[i] in cs
    requires |r| <= |t| && r == t[|t| - |r|..] && (forall i :: 0 <= i < |t| - |r| ==> t[i] in cs) && (r == [] || r[0] !in cs)
    ensures r == [] <==> AllIn(s, cs)
  {
    if r == [] {
      forall i | 0 <= i < |s| ensures s[i] in cs {
        if i < |t| { assert s[i] == t[i]; }
      }
    } else {
      assert r[0] == s[|t| - |r|];
      NotAllIn(s, |t| - |r|, cs);
    }
  }

  lemma NotAllIn(s: string, i: nat, cs: set<char>)
    requires i < |s| && s[i] !in cs
    ensures !AllIn(s, cs)
  {
  }

  /** Trimming both ends keeps an infix of the string, and everything around it is made of trimmed characters. */
  lemma TrimBothInfix(s: string, cs: set<char>, t: string, r: string)
    requires |t| <= |s| && t == s[..|t|] && forall i :: |t| <= i < |s| ==> s[i] in cs
    requires |r| <= |t| && r == t[|t| - |r|..] && forall i :: 0 <= i < |t| - |r| ==> t[i] in cs
    ensures TrimmedInfix(s, r, |t| - |r|, cs)
  {
    var a := |t| - |r|;
    assert t[a..] == s[a..|t|];
    forall i | 0 <= i < a ensures s[..a][i] in cs {
      assert s[i] == t[i];
    }
    var u := s[a + |r|..];
    forall j | 0 <= j < |u| ensures u[j] in cs {
      assert u[j] == s[|t| + j];
    }
  }

  predicate StartsWith(s: string, prefix: string) {
    |prefix| <= |s| && s[..|prefix|] == prefix
  }

  /** `pattern` occurs in `s` starting at index `i`. */
  predicate OccursAt(s: string, pattern: string, i: int) {
    0 <= i <= |s| - |pattern| && s[i..i + |pattern|] == pattern
  }

  /** Python's `pattern in s`. */
  predicate Contains(s: string, pattern: string) {
    exists i | 0 <= i <= |s| - |pattern| :: OccursAt(s, pattern, i)
  }

  /** An occurrence in a suffix is an occurrence in the whole string. */
  lemma ContainsSuffix(s: string, n: nat, pattern: string)
    requires n <= |s| && Contains(s[n..], pattern)
    ensures Contains(s, pattern)
  {
    var j :| 0 <= j <= |s| - n - |pattern| && OccursAt(s[n..], pattern, j);
    assert s[n + j..n + j + |pattern|] == s[n..][j..j + |pattern|];
    assert OccursAt(s, pattern, n + j);
  }

  /** Index of the first occurrence of `c` in `s`, or -1 (`s.find(c)`). */
  function IndexOf(s: string, c: char): (r: int)
    ensures -1 <= r < |s|
    ensures r >= 0 ==> s[r] == c
    ensures c !in s[..if r < 0 then |s| else r]
  {
    if s == [] then -1
    else if s[0] == c then 0
    else
      var r := IndexOf(s[1..], c);
      assert s == [s[0]] + s[1..];
      if r < 0 then -1 else r + 1
  }

  /** The concatenation of a sequence of strings (`"".join(parts)`). */
  function Concat(parts: seq<string>): string {
    if parts == [] then [] else Concat(parts[..|parts| - 1]) + parts[|parts| - 1]
  }

  /** `sep.join(parts)` */
  function Join(parts: seq<string>, sep: string): string {
    if parts == [] then []
    else if |parts| == 1 then parts[0]
    else Join(parts[..|parts| - 1], sep) + sep + parts[|parts| - 1]
  }

  /** Trimming the start of `a + b` stops inside `a` unless `a` is made only of trimmed characters. */
  lemma {:induction false} TrimStartAppend(a: string, b: string, cs: set<char>)
    requires !AllIn(a, cs)
    ensures TrimStart(a + b, cs) == TrimStart(a, cs) + b
  {
    assert a != [];
    if a[0] in cs {
      assert (a + b)[1..] == a[1..] + b;
      TrimStartAppend(a[1..], b, cs);
    }
  }

  /** Trimming the start of a string made only of trimmed characters leaves nothing. */
  lemma TrimStartAll(s: string, cs: set<char>)
    requires AllIn(s, cs)
    ensures TrimStart(s, cs) == []
  {
  }

  /** Trimming the end of `a + b` removes exactly `b` when `b` is made of trimmed characters and `a` does not end with one. */
  lemma {:induction false} TrimEndAppend(a: string, b: string, cs: set<char>)
    requires AllIn(b, cs) && (a == [] || a[|a| - 1] !in cs)
    ensures TrimEnd(a + b, cs) == a
    decreases |b|
  {
    if b == [] {
      assert a + b == a;
    } else {
      assert (a + b)[..|a + b| - 1] == a + b[..|b| - 1];
      TrimEndAppend(a, b[..|b| - 1], cs);
    }
  }

  /** In `v + [c] + rest` with no `c` in `v`, the first `c` is the one right after `v`. */
  lemma IndexOfAfter(v: string, c: char, rest: string)
    requires c !in v
    ensures IndexOf(v + [c] + rest, c) == |v|
  {
    var s := v + [c] + rest;
    assert s[|v|] == c;
    assert s[..|v|] == v;
  }

  /** Stripping a wider set of characters from the end leaves a prefix of what the narrower set leaves. */
  lemma TrimEndWider(s: string, narrow: set<char>, wide: set<char>)
    requires narrow <= wide
    ensures
      var n, w := TrimEnd(s, narrow), TrimEnd(s, wide);
      |w| <= |n| && w == n[..|w|]
  {
  }
}
