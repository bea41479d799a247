/**
 * `rebuild_extinf_with_group_id`: injects ` group_id="G"` right before the split
 * comma of an entry line, after deleting every whitespace-led `group_id="..."`
 * already on the left of that comma (the `re.sub` of `\s+group_id="[^"]*"`).
 */
module Rewrite {
  import opened Text
  import opened Comma
  import opened Wrappers

  /** `group_id="`, the literal part of the pattern after its leading whitespace. */
  const GroupIdOpen: string := "group_id=\""

  /** The attribute the rewriter inserts: ` group_id="G"`. */
  function GroupIdAttr(g: string): string {
    " " + GroupIdOpen + g + "\""
  }

  /** Length of the run of whitespace that starts `s`. */
  function SpaceLen(s: string): (n: nat)
    ensures n <= |s|
    ensures n == |s| || !IsSpace(s[n])
  {
    if s != [] && IsSpace(s[0]) then 1 + SpaceLen(s[1..]) else 0
  }

  /** Every character of the run is whitespace. */
  lemma {:induction false} SpaceLenSpaces(s: string)
    ensures forall i :: 0 <= i < SpaceLen(s) ==> IsSpace(s[i])
    decreases |s|
  {
    if s != [] && IsSpace(s[0]) {
      SpaceLenSpaces(s[1..]);
      forall i | 0 < i < SpaceLen(s) ensures IsSpace(s[i]) {
        assert s[i] == s[1..][i - 1];
      }
    }
  }

  /**
   * `m` is one match of `\s+group_id="[^"]*"`: a non-empty whitespace run, the
   * literal `group_id="`, a quote-free value and a closing quote.
   */
  predicate IsGroupIdMatch(m: string) {
    var w := SpaceLen(m);
    && 0 < w
    && w + |GroupIdOpen| < |m|
    && m[w..w + |GroupIdOpen|] == GroupIdOpen
    && m[|m| - 1] == '"'
    && '"' !in m[w + |GroupIdOpen|..|m| - 1]
  }

  /** Length of the match of `\s+group_id="[^"]*"` at the very start of `s`, if any. */
  function GroupIdAt(s: string): (r: Option<nat>)
    ensures r.Some? ==> 0 < r.value <= |s| && IsGroupIdMatch(s[..r.value])
  {
    var w := SpaceLen(s);
    if w == 0 || !StartsWith(s[w..], GroupIdOpen) then None
    else
      var q := IndexOf(s[w + |GroupIdOpen|..], '"');
      if q < 0 then None
      else
        var n := w + |GroupIdOpen| + q + 1;
        assert SpaceLen(s[..n]) == w by { SpaceLenPrefix(s, n); }
        assert s[..n][w + |GroupIdOpen|..n - 1] == s[w + |GroupIdOpen|..][..q];
        Some(n)
  }

  /** The whitespace run of a prefix is the whitespace run of the whole, if the prefix reaches past it. */
  lemma SpaceLenPrefix(s: string, n: nat)
    requires SpaceLen(s) < n <= |s|
    ensures SpaceLen(s[..n]) == SpaceLen(s)
  {
    var w := SpaceLen(s);
    var v := SpaceLen(s[..n]);
    SpaceLenSpaces(s);
    SpaceLenSpaces(s[..n]);
    assert s[..n][w] == s[w];
  }

  /** `re.sub(r'\s+group_id="[^"]*"', "", s)`: every match, scanning left to right, is deleted. */
  function StripGroupIds(s: string): (r: string)
    ensures |r| <= |s|
    decreases |s|
  {
    if s == [] then []
    else match GroupIdAt(s)
      case Some(n) => StripGroupIds(s[n..])
      case None => [s[0]] + StripGroupIds(s[1..])
  }

  /**
   * `rebuild_extinf_with_group_id(line, attrs, g)`. The attribute map argument is
   * unused by the source and left out. With no unquoted comma the source's index
   * is -1, and Python's negative slicing then cuts before the last character.
   */
  function Rebuild(line: string, g: string): (r: string)
    ensures FirstUnquotedComma(line) >= 0 ==>
      var idx := FirstUnquotedComma(line);
      r == StripGroupIds(line[..idx]) + GroupIdAttr(g) + line[idx..]
  {
    var idx := FirstUnquotedComma(line);
    var cut := if idx >= 0 then idx else if |line| > 0 then |line| - 1 else 0;
    StripGroupIds(line[..cut]) + GroupIdAttr(g) + line[cut..]
  }

  /** Whatever the line, the result carries ` group_id=`, the text `main` counts. */
  lemma RebuildMarks(line: string, g: string)
    ensures Contains(Rebuild(line, g), " group_id=")
  {
    var idx := FirstUnquotedComma(line);
    var cut := if idx >= 0 then idx else if |line| > 0 then |line| - 1 else 0;
    AttrMarks(StripGroupIds(line[..cut]), g, line[cut..]);
  }

  lemma AttrMarks(left: string, g: string, right: string)
    ensures OccursAt(left + GroupIdAttr(g) + right, " group_id=", |left|)
  {
    var attr := GroupIdAttr(g);
    var r := left + attr + right;
    assert r == left + (attr + right);
    assert attr[..10] == " group_id=";
    assert r[|left|..|left| + 10] == attr[..10];
  }

  /** A match written out is matched back in full, whatever follows it. */
  lemma GroupIdAtMatch(m: string, rest: string)
    requires IsGroupIdMatch(m)
    ensures GroupIdAt(m + rest) == Some(|m|)
  {
    var s := m + rest;
    var w := SpaceLen(m);
    var k := w + |GroupIdOpen|;
    SpaceLenSpaces(m);
    SpaceLenSpaces(s);
    assert s[w] == m[w] == 'g';
    assert SpaceLen(s) == w;
    assert s[w..][..|GroupIdOpen|] == m[w..k];
    var v := m[k..|m| - 1];
    assert m == m[..k] + v + "\"";
    assert s[k..] == v + ['"'] + rest;
    IndexOfAfter(v, '"', rest);
  }

  /** A whitespace-led `group_id="..."` at the front is deleted and the scan resumes after it. */
  lemma StripRemovesMatch(m: string, rest: string)
    requires IsGroupIdMatch(m)
    ensures StripGroupIds(m + rest) == StripGroupIds(rest)
  {
    GroupIdAtMatch(m, rest);
    assert (m + rest)[|m|..] == rest;
  }

  lemma GroupIdOpenHasNoSpace()
    ensures forall i :: 0 <= i < |GroupIdOpen| ==> !IsSpace(GroupIdOpen[i])
  {
  }

  /**
   * No match starts at the front of `x + y` when `x` holds no `group_id="`, `y`
   * is empty or starts with whitespace, and `x` does not end with whitespace
   * (or nothing follows it).
   */
  lemma NoMatchInPlain(x: string, y: string)
    requires x != [] && !Contains(x, GroupIdOpen)
    requires !IsSpace(x[|x| - 1]) || y == []
    requires y == [] || IsSpace(y[0])
    ensures GroupIdAt(x + y) == None
  {
    var s := x + y;
    var w := SpaceLen(s);
    var k := |GroupIdOpen|;
    SpaceLenSpaces(s);
    if w > 0 {
      if y != [] {
        assert s[|x| - 1] == x[|x| - 1];
        assert w <= |x| - 1;
      }
      if w + k <= |x| {
        assert !OccursAt(x, GroupIdOpen, w);
        assert s[w..][..k] == x[w..w + k];
      } else if y != [] && w + k <= |s| {
        GroupIdOpenHasNoSpace();
        assert s[|x|] == y[0];
        assert s[w..][..k][|x| - w] == s[|x|];
      }
    }
  }

  /**
   * `x` holds no `group_id="`, and a match cannot straddle the boundary into `y`:
   * `y` is empty or starts with whitespace, and then `x` does not end with whitespace.
   */
  predicate PlainBefore(x: string, y: string) {
    && !Contains(x, GroupIdOpen)
    && (x == [] || y == [] || !IsSpace(x[|x| - 1]))
    && (y == [] || IsSpace(y[0]))
  }

  lemma PlainBeforeTail(x: string, y: string)
    requires x != [] && PlainBefore(x, y)
    ensures PlainBefore(x[1..], y)
  {
    ContainsTail(x, GroupIdOpen);
    if x[1..] != [] {
      assert x[1..][|x[1..]| - 1] == x[|x| - 1];
    }
  }

  /** Text holding no `group_id="` is copied through untouched, up to whitespace that may start a match. */
  lemma {:induction false} StripSkipsPlain(x: string, y: string)
    requires PlainBefore(x, y)
    ensures StripGroupIds(x + y) == x + StripGroupIds(y)
    decreases |x|
  {
    if x == [] {
      assert x + y == y;
    } else {
      NoMatchInPlain(x, y);
      StripPlainStep(x, y);
      PlainBeforeTail(x, y);
      StripSkipsPlain(x[1..], y);
      ConsPrefix(x, StripGroupIds(x + y), StripGroupIds(x[1..] + y), StripGroupIds(y));
    }
  }

  lemma ConsPrefix(x: string, r: string, r': string, t: string)
    requires x != [] && r == [x[0]] + r' && r' == x[1..] + t
    ensures r == x + t
  {
    assert [x[0]] + x[1..] == x;
  }

  lemma StripPlainStep(x: string, y: string)
    requires x != [] && GroupIdAt(x + y) == None
    ensures StripGroupIds(x + y) == [x[0]] + StripGroupIds(x[1..] + y)
  {
    var s := x + y;
    StripCopiesChar(s);
    assert s[0] == x[0];
    assert s[1..] == x[1..] + y;
  }

  /** Where no match starts, the first character is copied and the scan moves one character on. */
  lemma StripCopiesChar(s: string)
    requires s != [] && GroupIdAt(s) == None
    ensures StripGroupIds(s) == [s[0]] + StripGroupIds(s[1..])
  {
  }

  lemma ContainsTail(x: string, p: string)
    requires x != [] && !Contains(x, p)
    ensures !Contains(x[1..], p)
  {
    forall i | 0 <= i <= |x| - 1 - |p| ensures !OccursAt(x[1..], p, i) {
      assert !OccursAt(x, p, i + 1);
      assert x[i + 1..i + 1 + |p|] == x[1..][i..i + |p|];
    }
  }

  /** Without any `group_id="` the substitution changes nothing. */
  lemma StripIdentity(s: string)
    requires !Contains(s, GroupIdOpen)
    ensures StripGroupIds(s) == s
  {
    assert PlainBefore(s, []);
    StripSkipsPlain(s, []);
    assert s + [] == s;
  }

  /**
   * Every whitespace-led `group_id="..."` goes, not only the first: after plain
   * text, a match is deleted and the rest is processed in turn.
   */
  lemma StripEvery(x: string, m: string, rest: string)
    requires !Contains(x, GroupIdOpen) && (x == [] || !IsSpace(x[|x| - 1]))
    requires IsGroupIdMatch(m)
    ensures StripGroupIds(x + m + rest) == x + StripGroupIds(rest)
  {
    assert x + m + rest == x + (m + rest);
    assert IsSpace((m + rest)[0]);
    assert PlainBefore(x, m + rest);
    StripSkipsPlain(x, m + rest);
    StripRemovesMatch(m, rest);
  }

  /** Two inserted attributes in a row are both removed, not only the first. */
  lemma StripTwoInARow(g1: string, g2: string)
    requires '"' !in g1 && '"' !in g2
    ensures StripGroupIds(GroupIdAttr(g1) + GroupIdAttr(g2)) == []
  {
    var m1, m2 := GroupIdAttr(g1), GroupIdAttr(g2);
    AttrIsMatch(g1);
    AttrIsMatch(g2);
    StripRemovesMatch(m1, m2);
    StripRemovesMatch(m2, []);
    assert m2 + [] == m2;
  }

  /** A deleted match holds exactly two quotes, so it leaves the quote flag as it found it. */
  lemma MatchLeavesFlag(m: string)
    requires IsGroupIdMatch(m)
    ensures !InQuotes(m)
  {
    var w := SpaceLen(m);
    var k := w + |GroupIdOpen|;
    var spaces, open, v, close := m[..w], m[w..k], m[k..|m| - 1], [m[|m| - 1]];
    SpaceLenSpaces(m);
    assert m == spaces + open + v + close;
    assert open == GroupIdOpen[..9] + "\"";
    assert close == "\"";
    assert '"' !in spaces by {
      forall i | 0 <= i < w ensures spaces[i] != '"' { assert IsSpace(m[i]); }
    }
    InQuotesNone(spaces);
    InQuotesNone(GroupIdOpen[..9]);
    InQuotesNone(v);
    assert InQuotes("\"") by { assert "\""[..0] == []; }
    InQuotesAppend(GroupIdOpen[..9], "\"");
    InQuotesAppend(spaces, open);
    InQuotesAppend(spaces + open, v);
    InQuotesAppend(spaces + open + v, close);
  }

  /**
   * The substitution keeps every quoted comma quoted and leaves the quote flag
   * where it was: it deletes whole two-quote matches only.
   */
  lemma {:induction false} StripKeepsQuoting(s: string, q: bool)
    requires CommasQuotedFrom(s, q)
    ensures CommasQuotedFrom(StripGroupIds(s), q)
    ensures InQuotes(StripGroupIds(s)) == InQuotes(s)
    decreases |s|
  {
    if s != [] {
      match GroupIdAt(s)
      case Some(n) =>
        var m := s[..n];
        assert s == m + s[n..];
        MatchLeavesFlag(m);
        CommasQuotedSplit(m, s[n..], q);
        InQuotesAppend(m, s[n..]);
        StripKeepsQuoting(s[n..], q);
      case None =>
        var c := [s[0]];
        assert s == c + s[1..];
        CommasQuotedSplit(c, s[1..], q);
        StripKeepsQuoting(s[1..], q != InQuotes(c));
        CommasQuotedConcat(c, StripGroupIds(s[1..]), q);
        InQuotesAppend(c, s[1..]);
        InQuotesAppend(c, StripGroupIds(s[1..]));
    }
  }

  /** The inserted attribute keeps its commas quoted and leaves the flag off, when `g` has no quote. */
  lemma AttrBalanced(g: string)
    requires '"' !in g
    ensures CommasQuotedFrom(GroupIdAttr(g), false) && !InQuotes(GroupIdAttr(g))
  {
    var p := " " + GroupIdOpen[..9];
    assert GroupIdAttr(g) == p + "\"" + g + "\"";
    QuotedValueBalanced(p, g);
  }

  /**
   * After the rewrite the split point sits right after the inserted attribute,
   * so the display-name part is the original one (when the group id has no quote).
   */
  lemma RebuildSplitPoint(line: string, g: string)
    requires FirstUnquotedComma(line) >= 0 && '"' !in g
    ensures var idx := FirstUnquotedComma(line);
      FirstUnquotedComma(Rebuild(line, g)) == |StripGroupIds(line[..idx])| + |GroupIdAttr(g)|
  {
    var idx := FirstUnquotedComma(line);
    var left := StripGroupIds(line[..idx]);
    BeforeFirstComma(line);
    StripKeepsQuoting(line[..idx], false);
    AttrBalanced(g);
    CommasQuotedConcat(left, GroupIdAttr(g), false);
    InQuotesAppend(left, GroupIdAttr(g));
    assert line[idx..][0] == ',';
    FirstCommaAfterBalanced(left + GroupIdAttr(g), line[idx..]);
  }

  /** The text from the split comma on, display name included, is carried over unchanged. */
  lemma RebuildKeepsTail(line: string, g: string)
    requires FirstUnquotedComma(line) >= 0 && '"' !in g
    ensures var r := Rebuild(line, g);
      FirstUnquotedComma(r) >= 0 && r[FirstUnquotedComma(r)..] == line[FirstUnquotedComma(line)..]
  {
    var idx := FirstUnquotedComma(line);
    var left := StripGroupIds(line[..idx]);
    RebuildSplitPoint(line, g);
    assert Rebuild(line, g) == (left + GroupIdAttr(g)) + line[idx..];
  }

  /** The inserted attribute is itself one match of the removal pattern. */
  lemma AttrIsMatch(g: string)
    requires '"' !in g
    ensures IsGroupIdMatch(GroupIdAttr(g))
  {
    var m := GroupIdAttr(g);
    assert m[1..] == GroupIdOpen + g + "\"";
    assert SpaceLen(m[1..]) == 0;
    assert SpaceLen(m) == 1;
    assert m[1..11] == GroupIdOpen;
    assert m[11..|m| - 1] == g;
  }

  /** Text without `group_id="` that does not end in whitespace is plain before the inserted attribute. */
  lemma PlainBeforeAttr(left: string, g: string)
    requires !Contains(left, GroupIdOpen) && (left == [] || !IsSpace(left[|left| - 1]))
    ensures PlainBefore(left, GroupIdAttr(g))
  {
    assert GroupIdAttr(g)[0] == ' ';
  }

  /**
   * Rewriting an already rewritten line again gives the same line, provided the
   * attribute section left after the removal holds no `group_id="` and does not
   * end in whitespace.
   */
  lemma RebuildTwice(line: string, g: string)
    requires FirstUnquotedComma(line) >= 0 && '"' !in g
    requires var left := StripGroupIds(line[..FirstUnquotedComma(line)]);
      !Contains(left, GroupIdOpen) && (left == [] || !IsSpace(left[|left| - 1]))
    ensures Rebuild(Rebuild(line, g), g) == Rebuild(line, g)
  {
    var idx := FirstUnquotedComma(line);
    var left := StripGroupIds(line[..idx]);
    var attr := GroupIdAttr(g);
    var r1 := Rebuild(line, g);
    RebuildSplitPoint(line, g);
    var idx2 := |left| + |attr|;
    assert r1 == (left + attr) + line[idx..];
    assert r1[..idx2] == left + attr;
    assert r1[idx2..] == line[idx..];
    PlainBeforeAttr(left, g);
    StripSkipsPlain(left, attr);
    AttrIsMatch(g);
    StripRemovesMatch(attr, []);
    assert attr + [] == attr;
    assert left + [] == left;
  }

  /**
   * Without that proviso the rewrite is not idempotent: whitespace in front of the
   * comma joins the inserted attribute's space, and the second pass deletes it
   * together with the attribute before inserting a fresh one.
   */
  lemma RebuildEatsTrailingSpace(p: string, w: string, rest: string, g: string)
    requires !Contains(p, GroupIdOpen) && (p == [] || !IsSpace(p[|p| - 1]))
    requires CommasQuotedFrom(p, false) && !InQuotes(p)
    requires w != [] && AllIn(w, Whitespace)
    requires rest != [] && rest[0] == ',' && '"' !in g
    ensures Rebuild(p + w + rest, g) == p + w + GroupIdAttr(g) + rest
    ensures Rebuild(Rebuild(p + w + rest, g), g) == p + GroupIdAttr(g) + rest
  {
    SpaceTailBalanced(p, w);
    EatsFirstPass(p, w, rest, g);
    EatsSecondPass(p, w, rest, g);
  }

  lemma SpaceTailBalanced(p: string, w: string)
    requires CommasQuotedFrom(p, false) && !InQuotes(p)
    requires AllIn(w, Whitespace)
    ensures CommasQuotedFrom(p + w, false) && !InQuotes(p + w)
  {
    assert '"' !in w && ',' !in w by {
      forall i | 0 <= i < |w| ensures w[i] != '"' && w[i] != ',' { assert w[i] in Whitespace; }
    }
    InQuotesNone(w);
    InQuotesAppend(p, w);
    assert CommasQuotedFrom(w, false);
    CommasQuotedConcat(p, w, false);
  }

  lemma EatsFirstPass(p: string, w: string, rest: string, g: string)
    requires !Contains(p, GroupIdOpen) && AllIn(w, Whitespace)
    requires CommasQuotedFrom(p + w, false) && !InQuotes(p + w)
    requires rest != [] && rest[0] == ','
    ensures Rebuild(p + w + rest, g) == p + w + GroupIdAttr(g) + rest
  {
    var line := p + w + rest;
    FirstCommaAfterBalanced(p + w, rest);
    assert line[..|p + w|] == p + w;
    assert line[|p + w|..] == rest;
    NoOpenInSpaceTail(p, w);
    StripIdentity(p + w);
  }

  lemma EatsSecondPass(p: string, w: string, rest: string, g: string)
    requires !Contains(p, GroupIdOpen) && (p == [] || !IsSpace(p[|p| - 1]))
    requires CommasQuotedFrom(p + w, false) && !InQuotes(p + w)
    requires w != [] && AllIn(w, Whitespace)
    requires rest != [] && rest[0] == ',' && '"' !in g
    ensures Rebuild(p + w + GroupIdAttr(g) + rest, g) == p + GroupIdAttr(g) + rest
  {
    var left := p + w + GroupIdAttr(g);
    var r1 := left + rest;
    SecondPassSplit(p + w, rest, g);
    assert r1[..|left|] == left;
    assert r1[|left|..] == rest;
    SecondPassStrip(p, w, g);
  }

  lemma SecondPassSplit(pw: string, rest: string, g: string)
    requires CommasQuotedFrom(pw, false) && !InQuotes(pw)
    requires rest != [] && rest[0] == ',' && '"' !in g
    ensures FirstUnquotedComma(pw + GroupIdAttr(g) + rest) == |pw| + |GroupIdAttr(g)|
  {
    var attr := GroupIdAttr(g);
    AttrBalanced(g);
    CommasQuotedConcat(pw, attr, false);
    InQuotesAppend(pw, attr);
    FirstCommaAfterBalanced(pw + attr, rest);
  }

  lemma SecondPassStrip(p: string, w: string, g: string)
    requires !Contains(p, GroupIdOpen) && (p == [] || !IsSpace(p[|p| - 1]))
    requires w != [] && AllIn(w, Whitespace) && '"' !in g
    ensures StripGroupIds(p + w + GroupIdAttr(g)) == p
  {
    var w1 := w + GroupIdAttr(g);
    assert p + w + GroupIdAttr(g) == p + w1;
    SpaceRunMatch(w, g);
    assert PlainBefore(p, w1);
    StripSkipsPlain(p, w1);
    StripRemovesMatch(w1, []);
    assert w1 + [] == w1;
    assert p + [] == p;
  }

  /** Whitespace appended to text without `group_id="` adds no occurrence of it. */
  lemma NoOpenInSpaceTail(p: string, w: string)
    requires !Contains(p, GroupIdOpen) && AllIn(w, Whitespace)
    ensures !Contains(p + w, GroupIdOpen)
  {
    var s := p + w;
    forall i | 0 <= i <= |s| - |GroupIdOpen| ensures !OccursAt(s, GroupIdOpen, i) {
      if i + |GroupIdOpen| <= |p| {
        assert s[i..i + |GroupIdOpen|] == p[i..i + |GroupIdOpen|];
        assert !OccursAt(p, GroupIdOpen, i);
      } else {
        var j := i + |GroupIdOpen| - 1;
        assert IsSpace(s[j]) by { assert s[j] == w[j - |p|]; }
        assert s[i..i + |GroupIdOpen|][|GroupIdOpen| - 1] == s[j];
        assert GroupIdOpen[|GroupIdOpen| - 1] == '"';
        assert s[i..i + |GroupIdOpen|] != GroupIdOpen;
      }
    }
  }

  /** A whitespace run followed by the inserted attribute is one match. */
  lemma SpaceRunMatch(w: string, g: string)
    requires w != [] && AllIn(w, Whitespace) && '"' !in g
    ensures IsGroupIdMatch(w + GroupIdAttr(g))
  {
    AttrIsMatch(g);
    PrependSpaceMatch(w, GroupIdAttr(g));
  }

  /** More whitespace in front of a match is still a match. */
  lemma PrependSpaceMatch(w: string, t: string)
    requires AllIn(w, Whitespace) && IsGroupIdMatch(t)
    ensures IsGroupIdMatch(w + t)
  {
    var m := w + t;
    var a := SpaceLen(t);
    SpaceLenAppend(w, t);
    assert m[|w| + a..|w| + a + |GroupIdOpen|] == t[a..a + |GroupIdOpen|];
    assert m[|m| - 1] == t[|t| - 1];
    assert m[|w| + a + |GroupIdOpen|..|m| - 1] == t[a + |GroupIdOpen|..|t| - 1];
  }

  lemma {:induction false} SpaceLenAppend(w: string, t: string)
    requires AllIn(w, Whitespace)
    ensures SpaceLen(w + t) == |w| + SpaceLen(t)
    decreases |w|
  {
    if w != [] {
      assert (w + t)[1..] == w[1..] + t;
      assert w[0] in Whitespace;
      SpaceLenAppend(w[1..], t);
    } else {
      assert w + t == t;
    }
  }
}
