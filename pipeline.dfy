/**
 * The pass `main` makes over the playlist: a cursor walks the lines, pairs every
 * `#EXTINF` line with the line after it (its URL), and for each pair decides to
 * keep it as it is, drop it into the drop log, or rewrite the entry line with the
 * channel's group id. Then the playlist text, the drop-log text and the two
 * reported counts are assembled.
 */
module Pipeline {
  import opened Wrappers
  import opened Text
  import opened Comma
  import opened Extinf
  import opened Rewrite
  import opened GroupMap

  /** The characters `rstrip("\n")` removes. */
  const LineFeed: set<char> := {'\n'}

  /**
   * The unit the cursor steps over: an entry line together with the line after it
   * (None at the end of the input), or any other single line.
   */
  datatype Chunk =
    | Lone(line: string)
    | Channel(line: string, next: Option<string>)

  /** What happens to one entry. */
  datatype Verdict =
    | Malformed               // parse warning or no attributes: kept as it is
    | Drop(record: string)    // blank `tvg-id`: removed and logged
    | Inject(group: string, rewritten: string) // mapped: the entry line is replaced by `rewritten`
    | Unmapped                // no group id for the channel: kept as it is

  /** The report `main` writes and prints. */
  datatype Report = Report(playlist: string, dropLog: string, droppedCount: nat, injectedCount: nat)

  /** `lines[i+1] if i+1 < len(lines) else ""` */
  function UrlOf(next: Option<string>): string {
    if next.Some? then next.value else ""
  }

  /** `(attrs.get("tvg-id") or "").strip()` */
  function TvgId(attrs: map<string, string>): string {
    Strip(if "tvg-id" in attrs then attrs["tvg-id"] else "")
  }

  /** `group_map.get(tvg_id, "").strip()` */
  function GroupFor(groups: map<string, string>, tvgId: string): string {
    Strip(if tvgId in groups then groups[tvgId] else "")
  }

  /** The rewritten entry line: the line feed is taken off, the group id put in, and a line feed put back. */
  function NewLine(line: string, g: string): (r: string)
    ensures r != [] && r[|r| - 1] == '\n'
  {
    Rebuild(TrimEnd(line, LineFeed), g) + "\n"
  }

  /**
   * The pairing of lines into chunks, as the cursor advances by one or two.
   * The test for an entry line is a parameter: the pairing does not depend on
   * what the test looks at, and `main` runs it with `IsEntryLine`.
   */
  function Chunks(lines: seq<string>, isEntry: string -> bool): (r: seq<Chunk>)
    ensures |r| <= |lines| <= 2 * |r|
    decreases |lines|
  {
    if lines == [] then []
    else if !isEntry(lines[0]) then [Lone(lines[0])] + Chunks(lines[1..], isEntry)
    else if |lines| == 1 then [Channel(lines[0], None)]
    else [Channel(lines[0], Some(lines[1]))] + Chunks(lines[2..], isEntry)
  }

  /** The lines a chunk was made of. */
  function LinesOf(c: Chunk): seq<string> {
    match c
    case Lone(line) => [line]
    case Channel(line, next) => [line] + (if next.Some? then [next.value] else [])
  }

  function Flatten(cs: seq<Chunk>): seq<string> {
    if cs == [] then [] else LinesOf(cs[0]) + Flatten(cs[1..])
  }

  /** The decision `main` takes for one entry line and the line after it (lines 92-113). */
  function Judge(line: string, url: string, groups: map<string, string>): (r: Verdict)
    ensures !r.Malformed? ==> ParseExtinf(line).Entry? && ParseExtinf(line).attrs != map[]
    ensures r.Inject? ==> r.group != [] && Contains(r.rewritten, " group_id=")
  {
    match ParseExtinf(line)
    case Entry(attrs, display) =>
      if attrs == map[] then Malformed
      else
        var tvgId := TvgId(attrs);
        if tvgId == [] then
          var name := if display != [] then display else "(no name)";
          Drop(name + " -> " + Strip(url))
        else
          var g := GroupFor(groups, tvgId);
          if g != [] then
            NewLineMarked(line, g);
            Inject(g, NewLine(line, g))
          else Unmapped
    case _ => Malformed
  }

  /** The lines an entry contributes to the output playlist, given its verdict. */
  function Output(line: string, url: string, v: Verdict): (r: seq<string>)
    ensures r == [] <==> v.Drop?
    ensures |r| <= 2 && (|r| == 2 <==> !v.Drop? && url != [])
    ensures |r| == 2 ==> r[1] == url
  {
    var tail := if url != [] then [url] else [];
    match v
    case Drop(_) => []
    case Inject(_, text) => [text] + tail
    case _ => [line] + tail
  }

  /**
   * The per-entry decision as a value: given an entry line and the text of the
   * line after it, what to do with the pair. The cursor loop is proved for any
   * decision and run with `Decide(groups)`.
   */
  type Decision = (string, string) -> Verdict

  function Decide(groups: map<string, string>): Decision {
    (line: string, url: string) => Judge(line, url, groups)
  }

  /** The lines a chunk contributes to the output playlist. */
  function Emit(c: Chunk, judge: Decision): (r: seq<string>)
    ensures |r| <= |LinesOf(c)|
    ensures c.Lone? ==> r == LinesOf(c)
  {
    match c
    case Lone(line) => [line]
    case Channel(line, next) => Output(line, UrlOf(next), judge(line, UrlOf(next)))
  }

  /** The drop records a chunk contributes. */
  function RecordsOf(c: Chunk, judge: Decision): seq<string> {
    if c.Channel? then
      match judge(c.line, UrlOf(c.next))
      case Drop(record) => [record]
      case _ => []
    else []
  }

  function Kept(cs: seq<Chunk>, judge: Decision): seq<string> {
    if cs == [] then [] else Emit(cs[0], judge) + Kept(cs[1..], judge)
  }

  function DropRecords(cs: seq<Chunk>, judge: Decision): seq<string> {
    if cs == [] then [] else RecordsOf(cs[0], judge) + DropRecords(cs[1..], judge)
  }

  /** The lines from position `i` on; empty once the cursor has stepped past the end. */
  function Suffix(lines: seq<string>, i: nat): seq<string> {
    if i <= |lines| then lines[i..] else []
  }

  /**
   * The cursor loop of `main` (lines 84-121): an entry line takes the next line
   * as its URL and the cursor moves by two; any other line is copied and the
   * cursor moves by one. Proved for any entry test and decision; `main` runs it
   * with `IsEntryLine` and `Decide` of the group map.
   */
  method RewriteLines(lines: seq<string>, isEntry: string -> bool, judge: Decision) returns (kept: seq<string>, dropped: seq<string>)
    ensures kept == Kept(Chunks(lines, isEntry), judge)
    ensures dropped == DropRecords(Chunks(lines, isEntry), judge)
  {
    kept := [];
    dropped := [];
    var i := 0;
    while i < |lines|
      invariant 0 <= i <= |lines| + 1
      invariant Kept(Chunks(lines, isEntry), judge) == kept + Kept(Chunks(Suffix(lines, i), isEntry), judge)
      invariant DropRecords(Chunks(lines, isEntry), judge) == dropped + DropRecords(Chunks(Suffix(lines, i), isEntry), judge)
      decreases |lines| + 1 - i
    {
      var out, records, next := Step(lines, i, isEntry, judge);
      ghost var cs := Chunks(Suffix(lines, i), isEntry);
      assert Kept(cs, judge) == out + Kept(cs[1..], judge);
      assert DropRecords(cs, judge) == records + DropRecords(cs[1..], judge);
      Associative(kept, out, Kept(cs[1..], judge));
      Associative(dropped, records, DropRecords(cs[1..], judge));
      kept := kept + out;
      dropped := dropped + records;
      i := next;
    }
  }

  /**
   * One step of the cursor at `i` (lines 89-121): the lines it appends to the
   * kept list and to the drop records, and where the cursor goes next. The step
   * consumes exactly the first chunk of the remaining lines.
   */
  method Step(lines: seq<string>, i: nat, isEntry: string -> bool, judge: Decision)
    returns (out: seq<string>, records: seq<string>, next: nat)
    requires i < |lines|
    ensures i < next <= |lines| + 1
    ensures
      var cs := Chunks(Suffix(lines, i), isEntry);
      && cs != []
      && cs[1..] == Chunks(Suffix(lines, next), isEntry)
      && out == Emit(cs[0], judge)
      && records == RecordsOf(cs[0], judge)
  {
    ChunksStep(lines, i, isEntry);
    var line := lines[i];
    if isEntry(line) {
      var following := if i + 1 < |lines| then Some(lines[i + 1]) else None;
      var url := if i + 1 < |lines| then lines[i + 1] else "";
      assert url == UrlOf(following);
      var verdict := judge(line, url);
      if verdict.Drop? {
        out, records := [], [verdict.record];
      } else {
        var first := match verdict case Inject(_, text) => text case _ => line;
        out := [first];
        if url != [] {
          out := out + [url];
        }
        records := [];
      }
      next := i + 2;
    } else {
      out, records, next := [line], [], i + 1;
    }
  }

  lemma Associative(a: seq<string>, b: seq<string>, c: seq<string>)
    ensures a + b + c == a + (b + c)
  {
  }

  /** One step of the cursor: the chunk at `i` and where the cursor goes next. */
  lemma ChunksStep(lines: seq<string>, i: nat, isEntry: string -> bool)
    requires i < |lines|
    ensures !isEntry(lines[i]) ==> Chunks(lines[i..], isEntry) == [Lone(lines[i])] + Chunks(Suffix(lines, i + 1), isEntry)
    ensures isEntry(lines[i]) ==>
      Chunks(lines[i..], isEntry) ==
        [Channel(lines[i], if i + 1 < |lines| then Some(lines[i + 1]) else None)] + Chunks(Suffix(lines, i + 2), isEntry)
  {
    var s := lines[i..];
    assert s[0] == lines[i];
    if i + 1 < |lines| {
      assert s[1] == lines[i + 1];
      assert s[2..] == Suffix(lines, i + 2);
    }
    assert s[1..] == Suffix(lines, i + 1);
  }

  /** `"\n".join(dropped) + ("\n" if dropped else "")` */
  function DropLogText(records: seq<string>): (r: string)
    ensures r == [] <==> records == []
    ensures records != [] ==> r[|r| - 1] == '\n'
  {
    Join(records, "\n") + (if records != [] then "\n" else "")
  }

  /** `sum(1 for l in kept if ' group_id=' in l)` */
  function InjectedCount(kept: seq<string>): (r: nat)
    ensures r <= |kept|
  {
    if kept == [] then 0
    else (if Contains(kept[0], " group_id=") then 1 else 0) + InjectedCount(kept[1..])
  }

  /** The whole run once both inputs are read: the group map first, then the playlist pass. */
  method UpdatePlaylist(table: Table, lines: seq<string>) returns (r: Result<Report, MapError>)
    ensures r.Failure? <==> HeaderError(table.header).Some?
    ensures r.Failure? ==> Some(r.error) == HeaderError(table.header)
    ensures r.Success? ==>
      var cs := Chunks(lines, IsEntryLine);
      var judge := Decide(MapOf(table.rows));
      r.value == Report(
        Concat(Kept(cs, judge)),
        DropLogText(DropRecords(cs, judge)),
        |DropRecords(cs, judge)|,
        InjectedCount(Kept(cs, judge)))
  {
    var groups := ReadGroupMap(table);
    if groups.Failure? {
      return Failure(groups.error);
    }
    var kept, dropped := RewriteLines(lines, IsEntryLine, Decide(groups.value));
    return Success(Report(Concat(kept), DropLogText(dropped), |dropped|, InjectedCount(kept)));
  }

  // ---------------------------------------------------------------------------
  // The cursor's pairing of lines
  // ---------------------------------------------------------------------------

  lemma FlattenCons(c: Chunk, rest: seq<Chunk>)
    ensures Flatten([c] + rest) == LinesOf(c) + Flatten(rest)
  {
    assert ([c] + rest)[0] == c;
    assert ([c] + rest)[1..] == rest;
  }

  /** The number of lines the first chunk takes. */
  function HeadSize(lines: seq<string>, isEntry: string -> bool): nat
    requires lines != []
  {
    if isEntry(lines[0]) && |lines| > 1 then 2 else 1
  }

  lemma ChunksHead(lines: seq<string>, isEntry: string -> bool)
    requires lines != []
    ensures HeadSize(lines, isEntry) <= |lines|
    ensures Chunks(lines, isEntry)[1..] == Chunks(lines[HeadSize(lines, isEntry)..], isEntry)
    ensures Chunks(lines, isEntry) != [] && LinesOf(Chunks(lines, isEntry)[0]) == lines[..HeadSize(lines, isEntry)]
  {
    var k := HeadSize(lines, isEntry);
    var c := if k == 2 then Channel(lines[0], Some(lines[1]))
      else if isEntry(lines[0]) then Channel(lines[0], None)
      else Lone(lines[0]);
    var cs := Chunks(lines, isEntry);
    assert cs == [c] + Chunks(lines[k..], isEntry);
    assert cs[0] == c && cs[1..] == Chunks(lines[k..], isEntry);
    assert LinesOf(c) == lines[..k];
  }

  /** Every input line lands in exactly one chunk, and the chunks keep the input order. */
  lemma {:induction false} ChunksCover(lines: seq<string>, isEntry: string -> bool)
    ensures Flatten(Chunks(lines, isEntry)) == lines
    decreases |lines|
  {
    if lines != [] {
      var k := HeadSize(lines, isEntry);
      ChunksHead(lines, isEntry);
      ChunksCover(lines[k..], isEntry);
      assert lines == lines[..k] + lines[k..];
    }
  }

  /**
   * Lone chunks hold lines that are not entry lines, Channel chunks are headed by
   * an entry line, and only the last chunk can be an entry without a URL.
   */
  predicate Paired(cs: seq<Chunk>, isEntry: string -> bool) {
    forall k | 0 <= k < |cs| ::
      && (cs[k].Lone? ==> !isEntry(cs[k].line))
      && (cs[k].Channel? ==> isEntry(cs[k].line) && (cs[k].next.None? ==> k == |cs| - 1))
  }

  lemma {:induction false} ChunksPaired(lines: seq<string>, isEntry: string -> bool)
    ensures Paired(Chunks(lines, isEntry), isEntry)
    decreases |lines|
  {
    if lines != [] {
      if !isEntry(lines[0]) {
        ChunksPaired(lines[1..], isEntry);
        PairedCons(Lone(lines[0]), Chunks(lines[1..], isEntry), isEntry);
      } else if |lines| > 1 {
        ChunksPaired(lines[2..], isEntry);
        PairedCons(Channel(lines[0], Some(lines[1])), Chunks(lines[2..], isEntry), isEntry);
      }
    }
  }

  lemma PairedCons(c: Chunk, rest: seq<Chunk>, isEntry: string -> bool)
    requires Paired(rest, isEntry)
    requires c.Lone? ==> !isEntry(c.line)
    requires c.Channel? ==> isEntry(c.line) && c.next.Some?
    ensures Paired([c] + rest, isEntry)
  {
    var cs := [c] + rest;
    forall k | 0 <= k < |cs|
      ensures cs[k].Lone? ==> !isEntry(cs[k].line)
      ensures cs[k].Channel? ==> isEntry(cs[k].line) && (cs[k].next.None? ==> k == |cs| - 1)
    {
      if k > 0 {
        assert cs[k] == rest[k - 1];
      }
    }
  }

  /**
   * The line after an entry line is taken as its URL whatever it holds: even
   * another entry line is never judged as an entry, and the cursor resumes after it.
   */
  lemma UrlIsNeverJudged(entry: string, url: string, rest: seq<string>, isEntry: string -> bool)
    requires isEntry(entry)
    ensures Chunks([entry, url] + rest, isEntry) == [Channel(entry, Some(url))] + Chunks(rest, isEntry)
  {
    var lines := [entry, url] + rest;
    assert lines[0] == entry && lines[1] == url;
    assert lines[2..] == rest;
  }

  // ---------------------------------------------------------------------------
  // The output as an edit of the input
  // ---------------------------------------------------------------------------

  /** What happens to one input line. */
  datatype Edit =
    | Keep                   // copied unchanged
    | Delete                 // not written
    | Rewrite(text: string)  // replaced by the entry line with the group id put in

  function Applied(line: string, e: Edit): seq<string> {
    match e
    case Keep => [line]
    case Delete => []
    case Rewrite(text) => [text]
  }

  /** The output of applying one edit per line, in order. */
  function Apply(lines: seq<string>, edits: seq<Edit>): seq<string>
    requires |edits| == |lines|
  {
    if lines == [] then [] else Applied(lines[0], edits[0]) + Apply(lines[1..], edits[1..])
  }

  /** The edits a chunk makes: a dropped pair is deleted, an empty URL line is not written. */
  function EditsOf(c: Chunk, judge: Decision): (es: seq<Edit>)
    ensures |es| == |LinesOf(c)|
  {
    match c
    case Lone(_) => [Keep]
    case Channel(line, next) =>
      var v := judge(line, UrlOf(next));
      var head := match v case Drop(_) => Delete case Inject(_, text) => Rewrite(text) case _ => Keep;
      var tail := if next.None? then [] else if v.Drop? || next.value == [] then [Delete] else [Keep];
      [head] + tail
  }

  function Edits(cs: seq<Chunk>, judge: Decision): (es: seq<Edit>)
    ensures |es| == |Flatten(cs)|
  {
    if cs == [] then [] else EditsOf(cs[0], judge) + Edits(cs[1..], judge)
  }

  /** Only entry lines are rewritten. */
  predicate RewritesEntriesOnly(lines: seq<string>, edits: seq<Edit>, isEntry: string -> bool)
    requires |edits| == |lines|
  {
    RewritesBy(lines, edits, OfEntry(isEntry))
  }

  /** The relation that holds of a rewritten line exactly when it is an entry line. */
  function OfEntry(isEntry: string -> bool): (string, string) -> bool {
    (line: string, text: string) => isEntry(line)
  }

  lemma {:induction false} ApplyAppend(a: seq<string>, ea: seq<Edit>, b: seq<string>, eb: seq<Edit>)
    requires |ea| == |a| && |eb| == |b|
    ensures Apply(a + b, ea + eb) == Apply(a, ea) + Apply(b, eb)
    decreases |a|
  {
    if a == [] {
      assert a + b == b && ea + eb == eb;
    } else {
      assert (a + b)[0] == a[0] && (ea + eb)[0] == ea[0];
      assert (a + b)[1..] == a[1..] + b && (ea + eb)[1..] == ea[1..] + eb;
      ApplyAppend(a[1..], ea[1..], b, eb);
      Associative(Applied(a[0], ea[0]), Apply(a[1..], ea[1..]), Apply(b, eb));
    }
  }

  lemma EmitIsEdit(c: Chunk, judge: Decision, isEntry: string -> bool)
    ensures Emit(c, judge) == Apply(LinesOf(c), EditsOf(c, judge))
    ensures c.Lone? || isEntry(c.line) ==> RewritesEntriesOnly(LinesOf(c), EditsOf(c, judge), isEntry)
  {
    var ls, es := LinesOf(c), EditsOf(c, judge);
    assert Apply(ls, es) == Applied(ls[0], es[0]) + Apply(ls[1..], es[1..]);
    if |ls| == 2 {
      assert ls[1..][1..] == [] && es[1..][1..] == [];
      assert Apply(ls[1..], es[1..]) == Applied(ls[1], es[1]);
      assert !es[1].Rewrite?;
    }
  }

  lemma {:induction false} KeptIsEdit(cs: seq<Chunk>, judge: Decision, isEntry: string -> bool)
    requires forall k | 0 <= k < |cs| :: cs[k].Channel? ==> isEntry(cs[k].line)
    ensures Kept(cs, judge) == Apply(Flatten(cs), Edits(cs, judge))
    ensures RewritesEntriesOnly(Flatten(cs), Edits(cs, judge), isEntry)
  {
    if cs != [] {
      var c, rest := cs[0], cs[1..];
      assert cs == [c] + rest;
      forall k | 0 <= k < |rest| && rest[k].Channel? ensures isEntry(rest[k].line) {
        assert rest[k] == cs[k + 1];
      }
      KeptIsEdit(rest, judge, isEntry);
      EmitIsEdit(c, judge, isEntry);
      FlattenCons(c, rest);
      ApplyAppend(LinesOf(c), EditsOf(c, judge), Flatten(rest), Edits(rest, judge));
      RewritesByAppend(LinesOf(c), EditsOf(c, judge), Flatten(rest), Edits(rest, judge), OfEntry(isEntry));
    }
  }

  /**
   * The output playlist is the input with one edit per line applied in order:
   * each output line is an input line copied unchanged or the rewritten form of
   * an entry line, and no line moves.
   */
  lemma OutputIsEditOfInput(lines: seq<string>, judge: Decision, isEntry: string -> bool)
    ensures
      var edits := Edits(Chunks(lines, isEntry), judge);
      && |edits| == |lines|
      && Kept(Chunks(lines, isEntry), judge) == Apply(lines, edits)
      && RewritesEntriesOnly(lines, edits, isEntry)
  {
    ChunksCover(lines, isEntry);
    ChunksPaired(lines, isEntry);
    KeptIsEdit(Chunks(lines, isEntry), judge, isEntry);
  }

  /** The group id `main` would put into `line`: the one looked up for its trimmed `tvg-id`. */
  function LineGroup(groups: map<string, string>, line: string): string {
    var p := ParseExtinf(line);
    if p.Entry? then GroupFor(groups, TvgId(p.attrs)) else ""
  }

  /** `text` is `line` rebuilt with the non-blank group id `groups` gives its channel. */
  predicate RebuildsTo(groups: map<string, string>, line: string, text: string) {
    LineGroup(groups, line) != [] && text == NewLine(line, LineGroup(groups, line))
  }

  /**
   * With the decision built from a group map, every rewritten output line is its
   * input line rebuilt with the group id looked up for that line's channel.
   */
  lemma RewritesAreRebuilt(lines: seq<string>, groups: map<string, string>, isEntry: string -> bool)
    ensures
      var edits := Edits(Chunks(lines, isEntry), Decide(groups));
      && |edits| == |lines|
      && forall i | 0 <= i < |lines| && edits[i].Rewrite? :: RebuildsTo(groups, lines[i], edits[i].text)
  {
    var cs, judge := Chunks(lines, isEntry), Decide(groups);
    var ok := (line: string, text: string) => RebuildsTo(groups, line, text);
    forall k | 0 <= k < |cs| && cs[k].Channel?
      ensures var v := judge(cs[k].line, UrlOf(cs[k].next)); v.Inject? ==> ok(cs[k].line, v.rewritten)
    {
      DecideRewrites(cs[k].line, UrlOf(cs[k].next), groups);
    }
    ChunksCover(lines, isEntry);
    EditsRewriteBy(cs, judge, ok);
  }

  lemma DecideRewrites(line: string, url: string, groups: map<string, string>)
    ensures var v := Decide(groups)(line, url); v.Inject? ==> RebuildsTo(groups, line, v.rewritten)
  {
    JudgeRewrites(line, url, groups);
  }

  /** Every rewritten line stands in relation `ok` to the text that replaces it. */
  predicate RewritesBy(lines: seq<string>, edits: seq<Edit>, ok: (string, string) -> bool)
    requires |edits| == |lines|
  {
    forall i | 0 <= i < |lines| && edits[i].Rewrite? :: ok(lines[i], edits[i].text)
  }

  lemma {:induction false} EditsRewriteBy(cs: seq<Chunk>, judge: Decision, ok: (string, string) -> bool)
    requires forall k | 0 <= k < |cs| && cs[k].Channel? ::
      var v := judge(cs[k].line, UrlOf(cs[k].next)); v.Inject? ==> ok(cs[k].line, v.rewritten)
    ensures RewritesBy(Flatten(cs), Edits(cs, judge), ok)
  {
    if cs != [] {
      var c, rest := cs[0], cs[1..];
      forall k | 0 <= k < |rest| && rest[k].Channel?
        ensures var v := judge(rest[k].line, UrlOf(rest[k].next)); v.Inject? ==> ok(rest[k].line, v.rewritten)
      {
        assert rest[k] == cs[k + 1];
      }
      EditsRewriteBy(rest, judge, ok);
      ChunkRewritesBy(c, judge, ok);
      FlattenCons(c, rest);
      RewritesByAppend(LinesOf(c), EditsOf(c, judge), Flatten(rest), Edits(rest, judge), ok);
    }
  }

  lemma ChunkRewritesBy(c: Chunk, judge: Decision, ok: (string, string) -> bool)
    requires c.Channel? ==> var v := judge(c.line, UrlOf(c.next)); v.Inject? ==> ok(c.line, v.rewritten)
    ensures RewritesBy(LinesOf(c), EditsOf(c, judge), ok)
  {
    var ls, es := LinesOf(c), EditsOf(c, judge);
    assert |ls| == 2 ==> !es[1].Rewrite?;
    assert ls[0] == c.line;
  }

  lemma RewritesByAppend(a: seq<string>, ea: seq<Edit>, b: seq<string>, eb: seq<Edit>, ok: (string, string) -> bool)
    requires |ea| == |a| && |eb| == |b|
    requires RewritesBy(a, ea, ok) && RewritesBy(b, eb, ok)
    ensures RewritesBy(a + b, ea + eb, ok)
  {
    forall i | 0 <= i < |a + b| && (ea + eb)[i].Rewrite? ensures ok((a + b)[i], (ea + eb)[i].text) {
      if i >= |a| {
        assert (ea + eb)[i] == eb[i - |a|] && (a + b)[i] == b[i - |a|];
      } else {
        assert (ea + eb)[i] == ea[i] && (a + b)[i] == a[i];
      }
    }
  }

  // ---------------------------------------------------------------------------
  // Counting entries
  // ---------------------------------------------------------------------------

  /** The number of entries whose verdict satisfies `p`. */
  function Tally(cs: seq<Chunk>, judge: Decision, p: Verdict -> bool): nat {
    if cs == [] then 0
    else
      var here := if cs[0].Channel? && p(judge(cs[0].line, UrlOf(cs[0].next))) then 1 else 0;
      here + Tally(cs[1..], judge, p)
  }

  function Entries(cs: seq<Chunk>): nat {
    if cs == [] then 0 else (if cs[0].Channel? then 1 else 0) + Entries(cs[1..])
  }

  /** Every entry is dropped, passed through, or rewritten, and exactly one of them. */
  lemma {:induction false} EntriesPartition(cs: seq<Chunk>, judge: Decision)
    ensures Entries(cs) ==
      |DropRecords(cs, judge)| + Tally(cs, judge, (v: Verdict) => v.Malformed? || v.Unmapped?) + Tally(cs, judge, (v: Verdict) => v.Inject?)
  {
    if cs != [] {
      EntriesPartition(cs[1..], judge);
    }
  }

  lemma ContainsAppend(a: string, b: string, pattern: string)
    requires Contains(a, pattern)
    ensures Contains(a + b, pattern)
  {
    var i :| 0 <= i <= |a| - |pattern| && OccursAt(a, pattern, i);
    assert (a + b)[i..i + |pattern|] == a[i..i + |pattern|];
    assert OccursAt(a + b, pattern, i);
  }

  lemma {:induction false} InjectedCountAppend(a: seq<string>, b: seq<string>)
    ensures InjectedCount(a + b) == InjectedCount(a) + InjectedCount(b)
    decreases |a|
  {
    if a == [] {
      assert a + b == b;
    } else {
      assert (a + b)[0] == a[0];
      assert (a + b)[1..] == a[1..] + b;
      InjectedCountAppend(a[1..], b);
    }
  }

  /** Every rewritten line carries the marker the injected count looks for. */
  lemma NewLineMarked(line: string, g: string)
    ensures Contains(NewLine(line, g), " group_id=")
  {
    RebuildMarks(TrimEnd(line, LineFeed), g);
    ContainsAppend(Rebuild(TrimEnd(line, LineFeed), g), "\n", " group_id=");
  }

  /**
   * The reported injected count is at least the number of rewritten entries; it
   * can be more, because any kept line holding ` group_id=` is counted.
   */
  lemma {:induction false} InjectedCountBound(cs: seq<Chunk>, groups: map<string, string>)
    ensures var judge := Decide(groups); InjectedCount(Kept(cs, judge)) >= Tally(cs, judge, (v: Verdict) => v.Inject?)
  {
    var judge := Decide(groups);
    if cs != [] {
      var c := cs[0];
      InjectedCountBound(cs[1..], groups);
      InjectedCountAppend(Emit(c, judge), Kept(cs[1..], judge));
      if c.Channel? {
        EntryMarked(c.line, UrlOf(c.next), groups);
      }
    }
  }

  /** A rewritten entry's first output line is counted. */
  lemma EntryMarked(line: string, url: string, groups: map<string, string>)
    ensures var v := Judge(line, url, groups); v.Inject? ==> InjectedCount(Output(line, url, v)) >= 1
  {
    var v := Judge(line, url, groups);
    if v.Inject? {
      var out := Output(line, url, v);
      assert out[0] == v.rewritten;
    }
  }

  // ---------------------------------------------------------------------------
  // The drop log
  // ---------------------------------------------------------------------------

  /** Each record followed by a line feed. */
  function Terminated(records: seq<string>): string {
    if records == [] then [] else Terminated(records[..|records| - 1]) + records[|records| - 1] + "\n"
  }

  /**
   * The drop-log text is every record on a line of its own, in order, so it is
   * empty exactly when nothing was dropped and otherwise ends with a line feed.
   */
  lemma {:induction false} DropLogLines(records: seq<string>)
    ensures DropLogText(records) == Terminated(records)
  {
    if |records| > 1 {
      var init := records[..|records| - 1];
      DropLogLines(init);
    }
  }

  // ---------------------------------------------------------------------------
  // The decision for one entry
  // ---------------------------------------------------------------------------

  /**
   * The outcomes of one entry. The drop record always uses the display name: a
   * parsed entry never has an empty one, so the `"(no name)"` fallback is never taken.
   */
  lemma JudgeOutcomes(line: string, url: string, groups: map<string, string>)
    ensures
      var v := Judge(line, url, groups);
      var p := ParseExtinf(line);
      && (v.Malformed? <==> !p.Entry? || p.attrs == map[])
      && (v.Drop? <==> p.Entry? && p.attrs != map[] && TvgId(p.attrs) == [])
      && (v.Drop? ==> p.display != [] && v.record == p.display + " -> " + Strip(url))
      && (v.Unmapped? <==> p.Entry? && p.attrs != map[] && TvgId(p.attrs) != [] && GroupFor(groups, TvgId(p.attrs)) == [])
  {
  }

  /** A rewritten entry is replaced by the rebuilt line with the looked-up group id. */
  lemma JudgeRewrites(line: string, url: string, groups: map<string, string>)
    ensures
      var v := Judge(line, url, groups);
      var p := ParseExtinf(line);
      && (v.Inject? <==> p.Entry? && p.attrs != map[] && TvgId(p.attrs) != [] && GroupFor(groups, TvgId(p.attrs)) != [])
      && (v.Inject? ==> v.group == GroupFor(groups, TvgId(p.attrs)) && v.rewritten == NewLine(line, v.group))
  {
  }

  lemma StripOfTrimmed(s: string)
    requires Trimmed(s)
    ensures Strip(s) == s
  {
    TrimEndAppend(s, [], Whitespace);
    assert s + [] == s;
    assert !AllIn(s, Whitespace);
    TrimStartAppend(s[..1], s[1..], Whitespace);
    assert s[..1] + s[1..] == s;
  }

  /**
   * With the group map read from a table, an entry is rewritten exactly when its
   * channel id is a key of the map, and the group id put in is the mapped one.
   */
  lemma JudgeMapped(line: string, url: string, rows: seq<Row>)
    ensures
      var v := Judge(line, url, MapOf(rows));
      var p := ParseExtinf(line);
      && (v.Inject? <==> p.Entry? && p.attrs != map[] && TvgId(p.attrs) != [] && TvgId(p.attrs) in MapOf(rows))
      && (v.Inject? ==> v.group == MapOf(rows)[TvgId(p.attrs)] && Trimmed(v.group))
  {
    var p := ParseExtinf(line);
    if p.Entry? && p.attrs != map[] {
      var id := TvgId(p.attrs);
      if id in MapOf(rows) {
        MapOfTrimmed(rows);
        StripOfTrimmed(MapOf(rows)[id]);
      }
    }
  }

  /**
   * An entry that parsed is rewritten at the comma the parser split it at: the
   * line `main` hands to the rewriter (line feed taken off, a carriage return
   * kept) has the same first unquoted comma as the parsed text, so the rewriter's
   * no-comma path is never taken. When the group id holds no quote, the text from
   * that comma on, display name included, is carried into the new line unchanged.
   */
  lemma NewLineSplit(line: string, g: string)
    requires ParseExtinf(line).Entry?
    ensures
      var t := TrimEnd(line, LineFeed);
      var idx := FirstUnquotedComma(t);
      && idx == FirstUnquotedComma(Raw(line)) >= 0
      && NewLine(line, g) == StripGroupIds(t[..idx]) + GroupIdAttr(g) + t[idx..] + "\n"
      && ('"' !in g ==>
          var r := Rebuild(t, g);
          FirstUnquotedComma(r) >= 0 && r[FirstUnquotedComma(r)..] == t[idx..])
  {
    var t := TrimEnd(line, LineFeed);
    var idx := FirstUnquotedComma(t);
    SplitCommaSurvives(line);
    assert NewLine(line, g) == Rebuild(t, g) + "\n";
    if '"' !in g {
      RebuildKeepsTail(t, g);
    }
  }

  lemma SplitCommaSurvives(line: string)
    requires FirstUnquotedComma(Raw(line)) >= 0
    ensures FirstUnquotedComma(TrimEnd(line, LineFeed)) == FirstUnquotedComma(Raw(line))
  {
    var t := TrimEnd(line, LineFeed);
    var raw := Raw(line);
    TrimEndWider(line, LineFeed, LineEnds);
    assert t == raw + t[|raw|..];
    FirstUnquotedCommaExtend(raw, t[|raw|..]);
  }
}
