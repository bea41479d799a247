/**
 * `find_comma_outside_quotes`: the split point of an `#EXTINF` line between its
 * attribute section and its display name. A single flag flips on every double
 * quote; the first comma seen while the flag is off is the split point. Quote
 * balance is never checked, so an odd quote shifts (or hides) the split point.
 */
module Comma {

  /** Number of double-quote characters in `s`. */
  function QuoteCount(s: string): nat {
    if s == [] then 0 else QuoteCount(s[..|s| - 1]) + (if s[|s| - 1] == '"' then 1 else 0)
  }

  /** The quote flag after reading `s` from a closed-quote start. */
  function InQuotes(s: string): bool {
    if s == [] then false else InQuotes(s[..|s| - 1]) != (s[|s| - 1] == '"')
  }

  /** The flag is on exactly after an odd number of quotes. */
  lemma {:induction false} InQuotesParity(s: string)
    ensures InQuotes(s) <==> QuoteCount(s) % 2 == 1
  {
    if s != [] {
      InQuotesParity(s[..|s| - 1]);
    }
  }

  /** `s[i]` is a comma read while the quote flag is off. */
  predicate UnquotedCommaAt(s: string, i: int) {
    0 <= i < |s| && s[i] == ',' && !InQuotes(s[..i])
  }

  /** An unquoted comma is a comma preceded by an even number of double quotes. */
  lemma UnquotedCommaAtIff(s: string, i: int)
    ensures UnquotedCommaAt(s, i) <==> 0 <= i < |s| && s[i] == ',' && QuoteCount(s[..i]) % 2 == 0
  {
    if 0 <= i < |s| {
      InQuotesParity(s[..i]);
    }
  }

  predicate NoUnquotedComma(s: string) {
    forall j :: 0 <= j < |s| ==> !UnquotedCommaAt(s, j)
  }

  /**
   * Reference definition: the least index holding an unquoted comma, or -1 when
   * there is none.
   */
  function FirstUnquotedComma(s: string): (r: int)
    ensures -1 <= r < |s|
    ensures r >= 0 ==> UnquotedCommaAt(s, r)
    ensures forall j :: 0 <= j < (if r < 0 then |s| else r) ==> !UnquotedCommaAt(s, j)
  {
    FirstFrom(s, 0)
  }

  /** The result is -1 exactly when no comma lies outside quotes. */
  lemma NoCommaIffNone(s: string)
    ensures FirstUnquotedComma(s) == -1 <==> NoUnquotedComma(s)
  {
  }

  function FirstFrom(s: string, k: nat): (r: int)
    requires k <= |s|
    ensures r == -1 || k <= r < |s|
    ensures r >= 0 ==> UnquotedCommaAt(s, r)
    ensures forall j :: k <= j < (if r < 0 then |s| else r) ==> !UnquotedCommaAt(s, j)
    decreases |s| - k
  {
    if k == |s| then -1
    else if UnquotedCommaAt(s, k) then k
    else FirstFrom(s, k + 1)
  }

  /** The source's loop: scan once, toggling `inQuotes` on every double quote. */
  method FindCommaOutsideQuotes(s: string) returns (idx: int)
    ensures idx == FirstUnquotedComma(s)
    ensures idx == -1 <==> NoUnquotedComma(s)
  {
    var inQuotes := false;
    var i := 0;
    while i < |s|
      invariant 0 <= i <= |s|
      invariant inQuotes == InQuotes(s[..i])
      invariant forall j :: 0 <= j < i ==> !UnquotedCommaAt(s, j)
    {
      assert s[..i + 1][..i] == s[..i];
      if s[i] == '"' {
        inQuotes := !inQuotes;
      } else if s[i] == ',' && !inQuotes {
        FirstIsUnique(s, i);
        return i;
      }
      i := i + 1;
    }
    FirstIsUnique(s, -1);
    return -1;
  }

  /** The two facts "r is a comma and no earlier one is" pin down FirstUnquotedComma. */
  lemma FirstIsUnique(s: string, r: int)
    requires -1 <= r < |s|
    requires r >= 0 ==> UnquotedCommaAt(s, r)
    requires forall j :: 0 <= j < (if r < 0 then |s| else r) ==> !UnquotedCommaAt(s, j)
    ensures r == FirstUnquotedComma(s)
  {
    var f := FirstUnquotedComma(s);
  }

  lemma {:induction false} InQuotesAppend(a: string, b: string)
    ensures InQuotes(a + b) == (InQuotes(a) != InQuotes(b))
    decreases |b|
  {
    if b != [] {
      assert (a + b)[..|a + b| - 1] == a + b[..|b| - 1];
      InQuotesAppend(a, b[..|b| - 1]);
    } else {
      assert a + b == a;
    }
  }

  lemma {:induction false} InQuotesNone(s: string)
    requires '"' !in s
    ensures !InQuotes(s)
  {
    if s != [] {
      assert '"' !in s[..|s| - 1];
      InQuotesNone(s[..|s| - 1]);
    }
  }

  /**
   * `p"v"` with no quote and no comma in `p` and no quote in `v`: every comma
   * is quoted and the flag ends off.
   */
  lemma QuotedValueBalanced(p: string, v: string)
    requires '"' !in p && ',' !in p && '"' !in v
    ensures CommasQuotedFrom(p + "\"" + v + "\"", false) && !InQuotes(p + "\"" + v + "\"")
  {
    var a := p + "\"";
    assert CommasQuotedFrom("\"", true) && InQuotes("\"") by {
      assert "\""[..0] == [];
    }
    assert CommasQuotedFrom(a, false) && InQuotes(a) by {
      InQuotesNone(p);
      InQuotesAppend(p, "\"");
    }
    assert CommasQuotedFrom(v, true) && !InQuotes(v) by {
      InQuotesNone(v);
      forall j | 0 <= j < |v| && v[j] == ',' ensures true != InQuotes(v[..j]) {
        assert '"' !in v[..j];
        InQuotesNone(v[..j]);
      }
    }
    var b := a + v;
    assert CommasQuotedFrom(b, false) && InQuotes(b) by {
      CommasQuotedConcat(a, v, false);
      InQuotesAppend(a, v);
    }
    CommasQuotedConcat(b, "\"", false);
    InQuotesAppend(b, "\"");
  }

  /**
   * Text appended after the split point does not move it: the scan stops at the
   * first unquoted comma and never reads beyond.
   */
  lemma FirstUnquotedCommaExtend(s: string, t: string)
    requires FirstUnquotedComma(s) >= 0
    ensures FirstUnquotedComma(s + t) == FirstUnquotedComma(s)
  {
    var r := FirstUnquotedComma(s);
    forall j | 0 <= j <= r
      ensures UnquotedCommaAt(s + t, j) == UnquotedCommaAt(s, j)
    {
      assert (s + t)[..j] == s[..j];
    }
    FirstIsUnique(s + t, r);
  }

  /**
   * Every comma of `s` is inside quotes when the scan enters `s` with the quote
   * flag set to `q`.
   */
  predicate CommasQuotedFrom(s: string, q: bool) {
    forall j :: 0 <= j < |s| && s[j] == ',' ==> q != InQuotes(s[..j])
  }

  /** Position `j` of `a + b`, seen from `a` or from `b`. */
  lemma ConcatAt(a: string, b: string, j: int)
    requires 0 <= j < |a| + |b|
    ensures j < |a| ==> (a + b)[j] == a[j] && InQuotes((a + b)[..j]) == InQuotes(a[..j])
    ensures j >= |a| ==> (a + b)[j] == b[j - |a|] && InQuotes((a + b)[..j]) == (InQuotes(a) != InQuotes(b[..j - |a|]))
  {
    if j < |a| {
      assert (a + b)[..j] == a[..j];
    } else {
      assert (a + b)[..j] == a + b[..j - |a|];
      InQuotesAppend(a, b[..j - |a|]);
    }
  }

  /** Quoting of commas composes over concatenation, carrying the flag across. */
  lemma CommasQuotedConcat(a: string, b: string, q: bool)
    requires CommasQuotedFrom(a, q) && CommasQuotedFrom(b, q != InQuotes(a))
    ensures CommasQuotedFrom(a + b, q)
  {
    forall j | 0 <= j < |a + b| && (a + b)[j] == ','
      ensures q != InQuotes((a + b)[..j])
    {
      ConcatAt(a, b, j);
    }
  }

  /** The converse: a concatenation that keeps its commas quoted keeps them quoted in both parts. */
  lemma CommasQuotedSplit(a: string, b: string, q: bool)
    requires CommasQuotedFrom(a + b, q)
    ensures CommasQuotedFrom(a, q) && CommasQuotedFrom(b, q != InQuotes(a))
  {
    forall j | 0 <= j < |a| && a[j] == ','
      ensures q != InQuotes(a[..j])
    {
      ConcatAt(a, b, j);
    }
    forall k | 0 <= k < |b| && b[k] == ','
      ensures (q != InQuotes(a)) != InQuotes(b[..k])
    {
      ConcatAt(a, b, |a| + k);
    }
  }

  /**
   * What lies before a split point keeps its commas quoted and leaves the quote
   * flag off.
   */
  lemma BeforeFirstComma(s: string)
    requires FirstUnquotedComma(s) >= 0
    ensures var idx := FirstUnquotedComma(s);
      CommasQuotedFrom(s[..idx], false) && !InQuotes(s[..idx])
  {
    var idx := FirstUnquotedComma(s);
    var left := s[..idx];
    forall j | 0 <= j < |left| && left[j] == ',' ensures InQuotes(left[..j]) {
      assert left[..j] == s[..j];
      assert !UnquotedCommaAt(s, j);
    }
  }

  /** Text that keeps its commas quoted and leaves the flag off, then a comma: the split point is that comma. */
  lemma FirstCommaAfterBalanced(a: string, rest: string)
    requires CommasQuotedFrom(a, false) && !InQuotes(a)
    requires rest != [] && rest[0] == ','
    ensures FirstUnquotedComma(a + rest) == |a|
  {
    var s := a + rest;
    assert s[..|a|] == a;
    forall j | 0 <= j < |a| ensures !UnquotedCommaAt(s, j) {
      assert s[..j] == a[..j];
      assert s[j] == a[j];
    }
    FirstIsUnique(s, |a|);
  }
}
