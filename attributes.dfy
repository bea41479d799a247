/**
 * Attribute extraction from the left side of an `#EXTINF` line: the findall of
 * the pattern `(\w+(?:-\w+)*)="([^"]*)"`, written as an explicit left-to-right
 * scanner. At each position the match is tried; on success the scan resumes
 * after it, otherwise one character further. For this pattern backtracking never
 * changes the outcome: a key must be followed by `=`, and every shorter key is
 * followed by a word character or a hyphen; a value must be followed by `"`, and
 * every shorter value is followed by a non-quote. So a greedy scan is the match.
 */
module Attributes {
  import opened Text
  import opened Wrappers

  datatype Attr = Attr(key: string, value: string)

  /** A key as the pattern accepts it, `\w+(?:-\w+)*`: word characters joined by single hyphens. */
  predicate IsKey(k: string)
    decreases |k|
  {
    |k| > 0 && IsWordChar(k[0]) && KeyRest(k[1..])
  }

  /** What may follow a word character inside a key. */
  predicate KeyRest(t: string)
    decreases |t|
  {
    || t == []
    || (IsWordChar(t[0]) && KeyRest(t[1..]))
    || (t[0] == '-' && IsKey(t[1..]))
  }

  predicate WellFormed(a: Attr) {
    IsKey(a.key) && '"' !in a.value
  }

  /** The text `key="value"`. */
  function Render(a: Attr): string {
    a.key + "=\"" + a.value + "\""
  }

  /** A key that ends `s[..n]` cannot be extended: no word character and no `-\w` follows. */
  predicate KeyStops(s: string, n: nat) {
    n >= |s| || (!IsWordChar(s[n]) && !(s[n] == '-' && n + 1 < |s| && IsWordChar(s[n + 1])))
  }

  /** Greedy length of `\w+(?:-\w+)*` at the start of `s`, 0 when no key starts there. */
  function KeyLen(s: string): (n: nat)
    ensures n <= |s|
    ensures n == 0 <==> s == [] || !IsWordChar(s[0])
    ensures n > 0 ==> IsKey(s[..n]) && KeyStops(s, n)
    decreases |s|
  {
    if s != [] && IsWordChar(s[0]) then
      var m := RestLen(s[1..]);
      assert s[..1 + m][1..] == s[1..][..m];
      1 + m
    else
      0
  }

  /** Greedy length of the part of a key that follows its first word character. */
  function RestLen(t: string): (n: nat)
    ensures n <= |t|
    ensures KeyRest(t[..n]) && KeyStops(t, n)
    decreases |t|
  {
    if t != [] && IsWordChar(t[0]) then
      var m := RestLen(t[1..]);
      assert t[..1 + m][1..] == t[1..][..m];
      1 + m
    else if 2 <= |t| && t[0] == '-' && IsWordChar(t[1]) then
      var m := KeyLen(t[1..]);
      assert t[..1 + m][1..] == t[1..][..m];
      1 + m
    else
      assert t[..0] == [];
      0
  }

  /** A character that can neither continue a key nor begin a `-\w` continuation. */
  predicate EndsKey(t: string) {
    t == [] || (!IsWordChar(t[0]) && t[0] != '-')
  }

  lemma {:induction false} KeyLenComplete(k: string, t: string)
    requires IsKey(k) && EndsKey(t)
    ensures KeyLen(k + t) == |k|
    decreases |k|, 1
  {
    assert (k + t)[1..] == k[1..] + t;
    RestLenComplete(k[1..], t);
  }

  lemma {:induction false} RestLenComplete(r: string, t: string)
    requires KeyRest(r) && EndsKey(t)
    ensures RestLen(r + t) == |r|
    decreases |r|, 0
  {
    if r == [] {
      assert r + t == t;
    } else if IsWordChar(r[0]) {
      assert (r + t)[1..] == r[1..] + t;
      RestLenComplete(r[1..], t);
    } else {
      assert (r + t)[1..] == r[1..] + t;
      KeyLenComplete(r[1..], t);
    }
  }

  /** The match of the attribute pattern at the very start of `s`, with its length. */
  function AttrAt(s: string): (r: Option<(Attr, nat)>)
    ensures r.Some? ==> 0 < r.value.1 <= |s|
  {
    AfterKey(s, KeyLen(s))
  }

  /** The rest of the match once a key of length `k` has been read: `="`, a value, `"`. */
  function AfterKey(s: string, k: nat): Option<(Attr, nat)>
    requires k <= |s|
  {
    if k == 0 || k + 2 > |s| || s[k] != '=' || s[k + 1] != '"' then None
    else
      var q := IndexOf(s[k + 2..], '"');
      if q < 0 then None else Some((Attr(s[..k], s[k + 2..k + 2 + q]), k + 3 + q))
  }

  /** A match is a non-empty prefix that is exactly a well-formed `key="value"`. */
  lemma AttrAtSound(s: string)
    ensures var r := AttrAt(s);
      r.Some? ==> 0 < r.value.1 <= |s| && s[..r.value.1] == Render(r.value.0) && WellFormed(r.value.0)
  {
    if AttrAt(s).Some? {
      AfterKeySound(s, KeyLen(s));
    }
  }

  /** What follows a key is matched as `="value"` exactly, with a value free of quotes. */
  lemma AfterKeySound(s: string, k: nat)
    requires k <= |s| && AfterKey(s, k).Some?
    ensures var r := AfterKey(s, k).value;
      r.1 <= |s| && r.0.key == s[..k] && '"' !in r.0.value && s[..r.1] == Render(r.0)
  {
    var q := IndexOf(s[k + 2..], '"');
    var v := s[k + 2..k + 2 + q];
    assert v == s[k + 2..][..q];
    assert s[..k + 3 + q] == s[..k] + "=\"" + v + "\"";
  }

  /** A well-formed attribute written out is matched back, whatever follows it. */
  lemma AttrAtRender(a: Attr, rest: string)
    requires WellFormed(a)
    ensures AttrAt(Render(a) + rest) == Some((a, |Render(a)|))
  {
    var s := Render(a) + rest;
    var k := |a.key|;
    RenderLayout(a, rest);
    KeyLenComplete(a.key, s[k..]);
    IndexOfAfter(a.value, '"', rest);
    AfterKeyFound(s, k, |a.value|);
  }

  /** Where the parts of a written-out attribute sit. */
  lemma RenderLayout(a: Attr, rest: string)
    ensures var s, k := Render(a) + rest, |a.key|;
      && k + 2 <= |s| && s[..k] == a.key && s[k] == '=' && s[k + 1] == '"'
      && s == a.key + s[k..]
      && s[k + 2..] == a.value + "\"" + rest
      && s[k + 2..k + 2 + |a.value|] == a.value
  {
  }

  /** After a key, `="` and a closing quote found at offset `q` make the match. */
  lemma AfterKeyFound(s: string, k: nat, q: nat)
    requires 0 < k && k + 2 <= |s| && s[k] == '=' && s[k + 1] == '"'
    requires IndexOf(s[k + 2..], '"') == q
    ensures AfterKey(s, k) == Some((Attr(s[..k], s[k + 2..k + 2 + q]), k + 3 + q))
  {
  }

  /** `ATTR_RE.findall(s)`: the non-overlapping matches, left to right. */
  function FindAll(s: string): (r: seq<Attr>)
    ensures forall i :: 0 <= i < |r| ==> WellFormed(r[i])
    decreases |s|
  {
    if s == [] then []
    else
      AttrAtSound(s);
      match AttrAt(s)
      case Some((a, n)) => [a] + FindAll(s[n..])
      case None => FindAll(s[1..])
  }

  /** Attributes written out one after another, each preceded by a space. */
  function Serialize(attrs: seq<Attr>): string {
    if attrs == [] then [] else " " + Render(attrs[0]) + Serialize(attrs[1..])
  }

  /** Round trip: extraction recovers every attribute of a serialized list, in order. */
  lemma {:induction false} FindAllSerialize(attrs: seq<Attr>)
    requires forall i :: 0 <= i < |attrs| ==> WellFormed(attrs[i])
    ensures FindAll(Serialize(attrs)) == attrs
  {
    if attrs != [] {
      var a := attrs[0];
      var tail := Serialize(attrs[1..]);
      var s := Serialize(attrs);
      assert s == " " + (Render(a) + tail);
      assert AttrAt(s) == None;
      assert s[1..] == Render(a) + tail;
      AttrAtRender(a, tail);
      assert (Render(a) + tail)[|Render(a)|..] == tail;
      FindAllSerialize(attrs[1..]);
    }
  }

  /** Every extracted attribute is written out somewhere in the input. */
  lemma {:induction false} FindAllOccurs(s: string, x: Attr)
    requires x in FindAll(s)
    ensures Contains(s, Render(x))
    decreases |s|
  {
    if AttrAt(s).Some? {
      var r := AttrAt(s).value;
      assert FindAll(s) == [r.0] + FindAll(s[r.1..]);
      if x == r.0 {
        assert OccursAt(s, Render(x), 0) by {
          AttrAtSound(s);
        }
      } else {
        FindAllOccurs(s[r.1..], x);
        ContainsSuffix(s, r.1, Render(x));
      }
    } else {
      assert FindAll(s) == FindAll(s[1..]);
      FindAllOccurs(s[1..], x);
      ContainsSuffix(s, 1, Render(x));
    }
  }

  /** Every character of a key is a word character or a hyphen. */
  lemma {:induction false} KeyChars(k: string, i: nat)
    requires IsKey(k) && i < |k|
    ensures IsWordChar(k[i]) || k[i] == '-'
    decreases |k|, 1
  {
    if i > 0 {
      RestChars(k[1..], i - 1);
    }
  }

  lemma {:induction false} RestChars(t: string, i: nat)
    requires KeyRest(t) && i < |t|
    ensures IsWordChar(t[i]) || t[i] == '-'
    decreases |t|, 0
  {
    if i > 0 {
      if IsWordChar(t[0]) {
        RestChars(t[1..], i - 1);
      } else {
        KeyChars(t[1..], i - 1);
      }
    }
  }

  /**
   * No match starts in non-empty text without `=` when what follows it can
   * neither continue a key nor be its `=`.
   */
  lemma NoAttrInPlain(p: string, t: string)
    requires p != [] && '=' !in p && EndsKey(t) && (t == [] || t[0] != '=')
    ensures AttrAt(p + t) == None
  {
    var s := p + t;
    var n := KeyLen(s);
    if n > |p| {
      assert s[..n][|p|] == t[0];
      KeyChars(s[..n], |p|);
    } else if n == |p| && t != [] {
      assert s[n] == t[0];
    } else if 0 < n < |p| {
      assert s[n] == p[n];
    }
  }

  /** Text without `=` in front of the rest adds no match and hides none. */
  lemma {:induction false} FindAllSkipPlain(p: string, t: string)
    requires '=' !in p && EndsKey(t) && (t == [] || t[0] != '=')
    ensures FindAll(p + t) == FindAll(t)
    decreases |p|
  {
    if p == [] {
      assert p + t == t;
    } else {
      NoAttrInPlain(p, t);
      assert (p + t)[1..] == p[1..] + t;
      FindAllSkipPlain(p[1..], t);
    }
  }

  /**
   * The left side of a real entry line: a marker such as `#EXTINF:-1` (any
   * text without `=`), then attributes each preceded by a space. Extraction
   * recovers exactly those attributes, in order.
   */
  lemma FindAllAfterPlain(p: string, attrs: seq<Attr>)
    requires '=' !in p
    requires forall i :: 0 <= i < |attrs| ==> WellFormed(attrs[i])
    ensures FindAll(p + Serialize(attrs)) == attrs
  {
    var t := Serialize(attrs);
    assert t != [] ==> t[0] == ' ';
    FindAllSkipPlain(p, t);
    FindAllSerialize(attrs);
  }

  /**
   * `{k: v for (k, v) in matches}`: the keys are exactly the matched keys (a
   * later duplicate overrides an earlier one, see ToMapLast).
   */
  function ToMap(attrs: seq<Attr>): (m: map<string, string>)
    ensures m.Keys == set i | 0 <= i < |attrs| :: attrs[i].key
  {
    if attrs == [] then map[]
    else
      var init := attrs[..|attrs| - 1];
      var last := attrs[|attrs| - 1];
      var m := ToMap(init);
      assert attrs == init + [last];
      m[last.key := last.value]
  }

  /** Index `i` holds the last attribute of `attrs` with key `k`. */
  predicate LastOf(attrs: seq<Attr>, k: string, i: int) {
    0 <= i < |attrs| && attrs[i].key == k && forall j :: i < j < |attrs| ==> attrs[j].key != k
  }

  /** Last occurrence wins: a key is bound to the value of its last match. */
  lemma {:induction false} ToMapLast(attrs: seq<Attr>, k: string, i: int)
    requires LastOf(attrs, k, i)
    ensures k in ToMap(attrs) && ToMap(attrs)[k] == attrs[i].value
  {
    var init := attrs[..|attrs| - 1];
    if i < |attrs| - 1 {
      assert LastOf(init, k, i);
      ToMapLast(init, k, i);
    }
  }
}
