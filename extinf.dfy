/**
 * `parse_extinf`: classifies one playlist line and, for a well-formed entry line,
 * returns its attribute map and its display name.
 */
module Extinf {
  import opened Text
  import opened Comma
  import opened Attributes

  const Marker: string := "#EXTINF"

  /** The characters `rstrip("\r\n")` removes. */
  const LineEnds: set<char> := {'\r', '\n'}

  /** The outcome of parsing one line; the first three are the source's warning strings. */
  datatype Parsed =
    | NotExtinf       // "Not EXTINF"
    | MissingComma    // "Missing comma delimiter"
    | EmptyName       // "Empty display name"
    | Entry(attrs: map<string, string>, display: string)

  /** `line.lstrip().startswith("#EXTINF")` */
  predicate IsEntryLine(line: string) {
    StartsWith(LStrip(line), Marker)
  }

  /** `line.rstrip("\r\n")` */
  function Raw(line: string): string {
    TrimEnd(line, LineEnds)
  }

  function ParseExtinf(line: string): (r: Parsed)
    ensures r.NotExtinf? <==> !IsEntryLine(Raw(line))
    ensures r.MissingComma? <==> IsEntryLine(Raw(line)) && NoUnquotedComma(Raw(line))
    ensures r.EmptyName? <==>
      && IsEntryLine(Raw(line))
      && FirstUnquotedComma(Raw(line)) >= 0
      && AllIn(Raw(line)[FirstUnquotedComma(Raw(line)) + 1..], Whitespace)
    ensures r.Entry? ==>
      var raw := Raw(line);
      var idx := FirstUnquotedComma(raw);
      && 0 <= idx < |raw|
      && r.display != []
      && r.display == Strip(raw[idx + 1..])
      && r.attrs == ToMap(FindAll(raw[..idx]))
  {
    var raw := Raw(line);
    if !IsEntryLine(raw) then NotExtinf else ParseEntry(raw)
  }

  /** The part of `parse_extinf` after the marker test, on the line without its terminator. */
  function ParseEntry(raw: string): (r: Parsed)
    ensures !r.NotExtinf?
    ensures r.MissingComma? <==> NoUnquotedComma(raw)
    ensures r.EmptyName? <==>
      FirstUnquotedComma(raw) >= 0 && AllIn(raw[FirstUnquotedComma(raw) + 1..], Whitespace)
    ensures r.Entry? ==>
      var idx := FirstUnquotedComma(raw);
      && 0 <= idx < |raw|
      && r.display != []
      && r.display == Strip(raw[idx + 1..])
      && r.attrs == ToMap(FindAll(raw[..idx]))
  {
    var idx := FirstUnquotedComma(raw);
    NoCommaIffNone(raw);
    if idx == -1 then MissingComma
    else
      var display := Strip(raw[idx + 1..]);
      if display == [] then EmptyName
      else Entry(ToMap(FindAll(raw[..idx])), display)
  }

  /**
   * A typical entry line after the marker test: text without `=`, `"` or `,`
   * (such as `#EXTINF:-1`), attributes each preceded by a space, a comma and a
   * display name. It parses to exactly those attributes and the stripped name.
   */
  lemma ParseEntryAttrs(p: string, attrs: seq<Attr>, name: string)
    requires '=' !in p && '"' !in p && ',' !in p
    requires forall i :: 0 <= i < |attrs| ==> WellFormed(attrs[i])
    requires Strip(name) != []
    ensures ParseEntry(p + Serialize(attrs) + "," + name) == Entry(ToMap(attrs), Strip(name))
  {
    SplitAfterAttrs(p, attrs, name);
    FindAllAfterPlain(p, attrs);
    ParseEntrySplit(p + Serialize(attrs), name, attrs);
  }

  /** With the split point right after `left` and a non-blank name after it, the line is an entry. */
  lemma ParseEntrySplit(left: string, name: string, attrs: seq<Attr>)
    requires FirstUnquotedComma(left + "," + name) == |left|
    requires FindAll(left) == attrs && Strip(name) != []
    ensures ParseEntry(left + "," + name) == Entry(ToMap(attrs), Strip(name))
  {
    var raw := left + "," + name;
    assert raw[..|left|] == left && raw[|left| + 1..] == name;
  }

  /**
   * The same for a whole playlist line that starts with the marker and whose
   * name does not end in a line terminator: `parse_extinf` returns exactly the
   * attributes written on it.
   */
  lemma ParseExtinfAttrs(p: string, attrs: seq<Attr>, name: string)
    requires StartsWith(p, Marker) && '=' !in p && '"' !in p && ',' !in p
    requires forall i :: 0 <= i < |attrs| ==> WellFormed(attrs[i])
    requires Strip(name) != [] && name[|name| - 1] !in LineEnds
    ensures ParseExtinf(p + Serialize(attrs) + "," + name) == Entry(ToMap(attrs), Strip(name))
  {
    MarkedLine(p, Serialize(attrs), name);
    ParseEntryAttrs(p, attrs, name);
  }

  /** A line that starts with the marker and does not end in a terminator is its own raw form and an entry line. */
  lemma MarkedLine(p: string, t: string, name: string)
    requires StartsWith(p, Marker) && name != [] && name[|name| - 1] !in LineEnds
    ensures var line := p + t + "," + name; Raw(line) == line && IsEntryLine(line)
  {
    var line := p + t + "," + name;
    assert line[..|Marker|] == p[..|Marker|];
    assert line[|line| - 1] == name[|name| - 1];
  }

  /** On such a line the split point is the comma right after the attributes. */
  lemma SplitAfterAttrs(p: string, attrs: seq<Attr>, name: string)
    requires '"' !in p && ',' !in p
    requires forall i :: 0 <= i < |attrs| ==> WellFormed(attrs[i])
    ensures FirstUnquotedComma(p + Serialize(attrs) + "," + name) == |p + Serialize(attrs)|
  {
    var left := p + Serialize(attrs);
    InQuotesNone(p);
    assert CommasQuotedFrom(p, false);
    SerializeBalanced(attrs);
    CommasQuotedConcat(p, Serialize(attrs), false);
    InQuotesAppend(p, Serialize(attrs));
    assert left + "," + name == left + ("," + name);
    FirstCommaAfterBalanced(left, "," + name);
  }

  /** Attributes written out one after another keep every comma quoted and leave the flag off. */
  lemma {:induction false} SerializeBalanced(attrs: seq<Attr>)
    requires forall i :: 0 <= i < |attrs| ==> WellFormed(attrs[i])
    ensures CommasQuotedFrom(Serialize(attrs), false) && !InQuotes(Serialize(attrs))
  {
    if attrs != [] {
      var head := " " + Render(attrs[0]);
      var tail := Serialize(attrs[1..]);
      assert Serialize(attrs) == head + tail;
      RenderBalanced(attrs[0]);
      SerializeBalanced(attrs[1..]);
      CommasQuotedConcat(head, tail, false);
      InQuotesAppend(head, tail);
    }
  }

  /** One attribute written out after a space keeps its commas quoted and leaves the flag off. */
  lemma RenderBalanced(a: Attr)
    requires WellFormed(a)
    ensures CommasQuotedFrom(" " + Render(a), false) && !InQuotes(" " + Render(a))
  {
    var p := " " + a.key + "=";
    forall i | 0 <= i < |p| ensures p[i] != '"' && p[i] != ',' {
      if 0 < i < |p| - 1 {
        KeyChars(a.key, i - 1);
      }
    }
    assert " " + Render(a) == p + "\"" + a.value + "\"";
    QuotedValueBalanced(p, a.value);
  }

  /**
   * The marker test `main` applies to the whole line agrees with the one
   * `parse_extinf` applies after stripping the line terminator, so an entry line
   * never parses as "Not EXTINF".
   */
  lemma EntryLineIffParsed(line: string)
    ensures IsEntryLine(line) <==> !ParseExtinf(line).NotExtinf?
  {
    MarkerIgnoresLineEnd(line);
  }

  lemma MarkerIgnoresLineEnd(line: string)
    ensures IsEntryLine(line) <==> IsEntryLine(Raw(line))
  {
    assert forall i :: 0 <= i < |Marker| ==> Marker[i] !in LineEnds;
    PrefixIgnoresTrimmedEnd(line, Whitespace, LineEnds, Marker);
  }

  /** Stripping a terminator made of characters absent from `m` does not change whether the left-trimmed text starts with `m`. */
  lemma PrefixIgnoresTrimmedEnd(line: string, ws: set<char>, ends: set<char>, m: string)
    requires ends <= ws
    requires forall i :: 0 <= i < |m| ==> m[i] !in ends
    requires m != []
    ensures StartsWith(TrimStart(line, ws), m) <==> StartsWith(TrimStart(TrimEnd(line, ends), ws), m)
  {
    var raw := TrimEnd(line, ends);
    var tail := line[|raw|..];
    assert line == raw + tail;
    assert AllIn(tail, ends) by {
      forall i | 0 <= i < |tail| ensures tail[i] in ends {
        assert tail[i] == line[|raw| + i];
      }
    }
    PrefixIgnoresTail(raw, tail, ws, ends, m);
  }

  /** Appending characters of `ends`, none of which occurs in `m`, does not change whether the left-trimmed text starts with `m`. */
  lemma PrefixIgnoresTail(raw: string, tail: string, ws: set<char>, ends: set<char>, m: string)
    requires ends <= ws && AllIn(tail, ends)
    requires forall i :: 0 <= i < |m| ==> m[i] !in ends
    requires m != []
    ensures StartsWith(TrimStart(raw + tail, ws), m) <==> StartsWith(TrimStart(raw, ws), m)
  {
    if AllIn(raw, ws) {
      assert AllIn(raw + tail, ws) by {
        forall i | 0 <= i < |raw + tail| ensures (raw + tail)[i] in ws {
          if i >= |raw| { assert (raw + tail)[i] == tail[i - |raw|]; }
        }
      }
      TrimStartAll(raw, ws);
      TrimStartAll(raw + tail, ws);
    } else {
      var x := TrimStart(raw, ws);
      assert TrimStart(raw + tail, ws) == x + tail by {
        TrimStartAppend(raw, tail, ws);
      }
      assert |x| < |m| && tail != [] ==> tail[0] != m[|x|] by {
        if |x| < |m| && tail != [] {
          assert tail[0] in ends;
        }
      }
      StartsWithAppend(x, tail, m);
    }
  }

  lemma StartsWithAppend(x: string, t: string, m: string)
    requires |x| < |m| && t != [] ==> t[0] != m[|x|]
    ensures StartsWith(x + t, m) <==> StartsWith(x, m)
  {
    if |x| >= |m| {
      assert (x + t)[..|m|] == x[..|m|];
    } else if t != [] && |x + t| >= |m| {
      assert (x + t)[..|m|][|x|] == t[0];
    }
  }
}
