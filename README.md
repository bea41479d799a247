# Playlist group-id injection, modelled in Dafny

`app/update_playlist.py` rewrites an IPTV channel playlist (M3U). Each `#EXTINF`
entry line carries `key="value"` attributes, then a comma, then a display name.
The line after it is the channel's URL. A CSV table maps each channel id
(`tvg_id`) to a group id. The rewrite does three things:

- It puts ` group_id="G"` into every entry that parses with attributes and whose trimmed `tvg-id` maps to a non-blank group id. An `#EXTINF` line right after an entry is that entry's URL and is never rewritten.
- It drops every entry that parses with attributes and whose trimmed `tvg-id` is blank, and writes a drop-log line for it.
- It copies everything else unchanged.

This project models that engine and proves properties of it:

| file | module | source piece |
|---|---|---|
| `comma.dfy` | `Comma` | `find_comma_outside_quotes`, the quote-aware split point |
| `attributes.dfy` | `Attributes` | the `ATTR_RE` findall, as a left-to-right scanner, and the dict built from its matches |
| `extinf.dfy` | `Extinf` | `parse_extinf`, with its four outcomes |
| `group_map.dfy` | `GroupMap` | `read_group_map`: the header checks and the row loop |
| `rewrite.dfy` | `Rewrite` | `rebuild_extinf_with_group_id`, including the `re.sub` that removes existing group ids |
| `pipeline.dfy` | `Pipeline` | the cursor loop of `main`, the drop-log text and the injected count |
| `text.dfy` | `Text` | Python's `strip`/`lstrip`/`rstrip`, `startswith`, `in` and `join` |
| `wrappers.dfy` | `Wrappers` | `Option` and `Result` |

Modelling choices:

- Strings are `seq<char>`.
- Whitespace is the ASCII part of Python's `str.isspace()`. It is also what `\s` matches here.
- `\w` is ASCII letters, digits and underscore.
- The playlist is the list `splitlines(True)` yields: every line keeps its terminator.
- The CSV file is given already decoded, as a header (absent for an empty file) plus one field map per record, as `csv.DictReader` delivers it.
- The two `ValueError`s of `read_group_map` become a `Result` failure.

The cursor loop (`RewriteLines`) is an imperative method over the list of lines.
It is proved against a specification that first groups the lines into chunks:

- an entry line together with the line after it, which is its URL;
- or any other single line on its own.

The entry-line test and the per-entry decision are function values. The loop is
proved for any of them. `UpdatePlaylist` runs it with `IsEntryLine` and with
`Decide(groups)`, the decision built from the group map. A verdict to rewrite an
entry carries the rewritten line, which `Judge` builds exactly as line 111 does.

## Model

| member | source | states |
|---|---|---|
| Comma.FindCommaOutsideQuotes | app/update_playlist.py:13-20 | the loop's result equals the first unquoted comma, and is -1 exactly when no comma lies outside quotes |
| Comma.FirstUnquotedComma | app/update_playlist.py:13-20 | the result is -1 or an index holding a comma with the quote flag off; no earlier index holds one |
| Comma.InQuotesParity | app/update_playlist.py:14-17 | the quote flag after a prefix is on exactly when that prefix holds an odd number of `"` |
| Comma.UnquotedCommaAtIff | app/update_playlist.py:15-19 | index i is a split candidate iff it holds a comma and an even number of `"` precede it |
| Comma.FirstIsUnique | app/update_playlist.py:13-20 | any index with the first-unquoted-comma properties is the function's result |
| Comma.FirstUnquotedCommaExtend | app/update_playlist.py:15-19 | appending text never moves a split point that already exists, because the scan stops there |
| Comma.InQuotesAppend | app/update_playlist.py:16-17 | the flag over a concatenation is the exclusive-or of the flags over the parts |
| Comma.FirstCommaAfterBalanced | app/update_playlist.py:13-20 | after a prefix with balanced quotes and no unquoted comma, the split is at the next comma |
| Attributes.KeyLen | app/update_playlist.py:11 | the greedy key length at the start of a string is 0 iff no word character starts it; otherwise it covers a key that cannot be extended |
| Attributes.KeyLenComplete | app/update_playlist.py:11 | a key followed by a key terminator is matched in full |
| Attributes.AttrAt | app/update_playlist.py:11 | a match at the start of a string is non-empty and no longer than the string |
| Attributes.AttrAtSound | app/update_playlist.py:11 | a match at the start of a string is a prefix that is exactly `key="value"` for a well-formed attribute |
| Attributes.AttrAtRender | app/update_playlist.py:11 | a well-formed `key="value"` is matched back exactly, whatever follows it |
| Attributes.FindAll | app/update_playlist.py:11 | every extracted attribute has a well-formed key and a value without `"`; that each one occurs in the input, and which ones a real left side yields, are `FindAllOccurs` and `FindAllAfterPlain` |
| Attributes.FindAllSerialize | app/update_playlist.py:11 | round trip: extraction recovers every attribute of a space-separated list, in order |
| Attributes.FindAllOccurs | app/update_playlist.py:11 | every extracted attribute occurs, written out as `key="value"`, in the input |
| Attributes.FindAllSkipPlain | app/update_playlist.py:11 | text without `=` in front of the rest adds no match and hides none, when the rest does not begin inside a key or with `=` |
| Attributes.FindAllAfterPlain | app/update_playlist.py:11 | on a real left side, a marker such as `#EXTINF:-1` followed by space-separated attributes, extraction recovers exactly those attributes, in order |
| Attributes.ToMap | app/update_playlist.py:34 | the dict's keys are exactly the matched keys |
| Attributes.ToMapLast | app/update_playlist.py:34 | a key is bound to the value of its last match |
| Text.Strip | app/update_playlist.py:31 | `strip()` is empty exactly when the input is all whitespace, and otherwise neither starts nor ends with whitespace |
| Text.StripInfix | app/update_playlist.py:31 | what `strip()` leaves occurs in its input at some position, and everything before and after it there is whitespace |
| Text.TrimEnd | app/update_playlist.py:23 | `rstrip(chars)` leaves a prefix; the removed tail is made of those characters and the prefix does not end with one |
| Text.TrimStart | app/update_playlist.py:24 | `lstrip()` leaves a suffix; the removed head is whitespace and the suffix does not start with whitespace |
| Extinf.ParseExtinf | app/update_playlist.py:22-35 | "Not EXTINF" iff the line without CR/LF does not start with `#EXTINF` once left-stripped; "Missing comma" iff there is no unquoted comma; "Empty display name" iff the text after that comma is all whitespace; otherwise the attributes are the dict of the matches left of the comma and the display name is the non-empty stripped text after it |
| Extinf.ParseEntry | app/update_playlist.py:26-35 | never "Not EXTINF"; "Missing comma" iff no comma is outside quotes; "Empty display name" iff only whitespace follows the split comma; otherwise the display name is the stripped, non-empty text after that comma and the attributes are the dict of matches before it |
| Extinf.ParseEntryAttrs | app/update_playlist.py:26-35 | marker text without `=`, `"` or `,`, then well-formed attributes, a comma and a non-blank name: the split is at that comma, the attributes are the dict of exactly those attributes and the display name is the stripped name |
| Extinf.ParseExtinfAttrs | app/update_playlist.py:22-35 | the same for a whole line that starts with `#EXTINF` and does not end in CR or LF, so `#EXTINF:-1 tvg-id="X" ...,Name` maps `tvg-id` to `X` |
| Extinf.EntryLineIffParsed | app/update_playlist.py:90 | the marker test `main` applies to the raw line agrees with the parser's, so an entry line never comes back "Not EXTINF" |
| Extinf.MarkerIgnoresLineEnd | app/update_playlist.py:23-24 | stripping trailing CR/LF does not change whether a line starts with `#EXTINF` after left-stripping |
| GroupMap.HeaderError | app/update_playlist.py:45-48 | "no header" iff the header is absent or empty; no error iff both `tvg_id` and `group_id` are columns |
| GroupMap.Contribution | app/update_playlist.py:50-54 | a row adds a mapping iff both trimmed fields are non-empty, and that mapping is the trimmed pair |
| GroupMap.ReadGroupMap | app/update_playlist.py:37-55 | fails exactly on a header error, with that error; otherwise returns the mapping built by applying the qualifying rows in order |
| GroupMap.MapOf | app/update_playlist.py:49-54 | the mapping has at most one entry per row |
| GroupMap.MapOfKeys | app/update_playlist.py:49-54 | a channel id is mapped iff some qualifying row carries it |
| GroupMap.MapOfLastWins | app/update_playlist.py:54 | the last qualifying row for a channel id decides its group id |
| GroupMap.MapOfTrimmed | app/update_playlist.py:50-52 | every key and every group id in the mapping is non-empty and has no whitespace at either end |
| GroupMap.FoldKeys | app/update_playlist.py:54 | a key is in the folded dictionary iff some pair carries it |
| GroupMap.FoldLast | app/update_playlist.py:54 | the last pair for a key decides its value |
| Rewrite.SpaceLen | app/update_playlist.py:63 | the leading run of `\s` fits in the string and cannot be extended |
| Rewrite.SpaceLenSpaces | app/update_playlist.py:63 | every character of that run is whitespace |
| Rewrite.StripGroupIds | app/update_playlist.py:63 | removing matches never lengthens the text |
| Rewrite.GroupIdAt | app/update_playlist.py:63 | a match at the start of a string is whitespace, then `group_id="`, then non-quote characters, then `"` |
| Rewrite.PrependSpaceMatch | app/update_playlist.py:63 | more whitespace in front of a match is still one match, as `\s+` is greedy |
| Rewrite.StripRemovesMatch | app/update_playlist.py:63 | a match at the front is deleted entirely |
| Rewrite.StripIdentity | app/update_playlist.py:63 | text without `group_id="` is left unchanged by the removal |
| Rewrite.StripEvery | app/update_playlist.py:63 | a match after plain text is removed and the plain text kept, so every match is removed and not only the first |
| Rewrite.StripTwoInARow | app/update_playlist.py:63 | two ` group_id="..."` attributes in a row (quote-free ids) are both removed, leaving nothing |
| Rewrite.StripKeepsQuoting | app/update_playlist.py:63 | removing matches keeps every comma quoted and leaves the quote flag where it was |
| Rewrite.RebuildMarks | app/update_playlist.py:65 | every rewritten line contains ` group_id=` |
| Rewrite.RebuildSplitPoint | app/update_playlist.py:59-65 | after the rewrite, the first unquoted comma sits right after the inserted attribute (group id without `"`) |
| Rewrite.RebuildKeepsTail | app/update_playlist.py:59-65 | for a group id without `"`, the text from the split comma on, display name included, is carried over unchanged |
| Rewrite.AttrIsMatch | app/update_playlist.py:63-65 | the inserted attribute is itself one match of the removal pattern |
| Rewrite.Rebuild | app/update_playlist.py:57-65 | for a line with an unquoted comma, the result is the text left of that comma with every match removed, then ` group_id="G"`, then the comma and everything after it |
| Rewrite.RebuildTwice | app/update_playlist.py:57-65 | rewriting twice with the same group id gives the same line, provided the group id has no `"` and the left side left after removal has no `group_id="` and does not end in whitespace |
| Rewrite.RebuildEatsTrailingSpace | app/update_playlist.py:57-65 | with whitespace before the comma, the second rewrite deletes that whitespace, so the rewrite is not idempotent in general |
| Pipeline.RewriteLines | app/update_playlist.py:84-121 | the cursor loop's kept and dropped lists equal the chunk-wise specification, for any entry test and any per-entry decision |
| Pipeline.Step | app/update_playlist.py:89-121 | one cursor step consumes exactly the first chunk of the remaining lines, appends that chunk's output lines and drop records, and moves the cursor past it |
| Pipeline.Chunks | app/update_playlist.py:87-121 | the cursor advances by one or two lines per chunk: there are at most as many chunks as lines and at least half as many |
| Pipeline.Judge | app/update_playlist.py:92-113 | any verdict other than "malformed" comes from a line that parsed with attributes; a rewrite carries a non-blank group id and a new line that contains ` group_id=` |
| Pipeline.Output | app/update_playlist.py:93-117 | a dropped entry contributes no line and any other entry one or two; the second is the URL, written only when it is not empty |
| Pipeline.Emit | app/update_playlist.py:89-121 | a chunk never contributes more lines than it has, and a non-entry line is copied as it is |
| Pipeline.NewLine | app/update_playlist.py:111 | the rewritten entry line always ends with a line feed |
| Pipeline.UpdatePlaylist | app/update_playlist.py:80-131 | a header error is passed on; otherwise the report is the concatenated kept lines, the drop-log text, the number of drop records and the injected count |
| Pipeline.ChunksCover | app/update_playlist.py:87-121 | every input line is in exactly one chunk, and the chunks keep the input order |
| Pipeline.ChunksPaired | app/update_playlist.py:88-121 | lone lines are not entry lines; entry chunks start with an entry line; only the last entry can lack a URL line |
| Pipeline.ChunksHead | app/update_playlist.py:88-121 | the cursor takes two lines for an entry line that has a successor and one line otherwise |
| Pipeline.UrlIsNeverJudged | app/update_playlist.py:90-91 | the line after an entry line becomes its URL, even when it is itself an entry line; the cursor resumes after it |
| Pipeline.OutputIsEditOfInput | app/update_playlist.py:84-121 | the output is the input with one edit per line applied in order (keep, delete or rewrite), and only entry lines are rewritten |
| Pipeline.RewritesAreRebuilt | app/update_playlist.py:109-111 | with the decision built from a group map, every rewritten output line has a non-blank group id looked up for its channel, and is its input line rebuilt with that id |
| Pipeline.EntriesPartition | app/update_playlist.py:93-117 | the number of entries equals dropped plus passed through plus rewritten |
| Pipeline.InjectedCountBound | app/update_playlist.py:131 | with the decision built from a group map, the reported injected count is at least the number of rewritten entries |
| Pipeline.EntryMarked | app/update_playlist.py:111-115 | the output of a rewritten entry contributes at least one to the injected count |
| Pipeline.DropLogLines | app/update_playlist.py:127 | the drop-log text is each record followed by a line feed, in order |
| Pipeline.DropLogText | app/update_playlist.py:127 | the drop-log text is empty iff nothing was dropped, and otherwise ends in a line feed |
| Pipeline.JudgeOutcomes | app/update_playlist.py:92-113 | malformed iff the parse failed or found no attributes; dropped iff the trimmed `tvg-id` is empty, with record `display -> url.strip()` and a non-empty display name; unmapped iff the channel has no non-blank group |
| Pipeline.JudgeRewrites | app/update_playlist.py:109-111 | an entry is rewritten iff it parsed with attributes, a non-blank `tvg-id` and a non-blank group; the group is the looked-up one, and the replacement line is the rebuilt line without its line feed plus a line feed |
| Pipeline.JudgeMapped | app/update_playlist.py:109-111 | with the map read from a table, an entry is rewritten iff its channel id is a key, and the group id put in is the mapped one |
| Pipeline.NewLineSplit | app/update_playlist.py:111 | the rewriter splits a parsed entry at the parser's comma, so its no-comma path is never taken from `main`; the display part is carried over |
| Pipeline.InjectedCountAppend | app/update_playlist.py:131 | the injected count adds up over concatenated line lists |
| Pipeline.InjectedCount | app/update_playlist.py:131 | the injected count is at most the number of kept lines |

## Left out

- Environment-variable paths, the existence checks that exit with code 2, file reading and decoding, directory creation, file writes and the `print` calls (lines 68-82, 123-131). Only the strings these produce are modelled.
- `csv.DictReader`'s tokenisation (quoting, escapes, short rows). The table arrives already split into a header and field maps. A field the record lacks is an absent key.
- Unicode: whitespace and `\w` are the ASCII sets. Python's Unicode classes are wider.
- `app/update_epg.py` (network fetch, gzip, retries, atomic writes) and `app/server.py` (HTTP endpoints) are not part of this model. Both are I/O glue.
- The `attrs` argument of `rebuild_extinf_with_group_id` is unused by the source and is not a parameter of `Rewrite.Rebuild`.
- Rewrite.Rebuild: its contract covers only lines with an unquoted comma. The body also models the source's `-1` index, which cuts before the last character. `Pipeline.NewLineSplit` shows that `main` never reaches that path.
- Rewrite.RebuildKeepsTail: requires a group id without `"`. A quote inside the group id changes the quote flag, so the split point of the rewritten line can move. The group map does not exclude such ids.
- Rewrite.RebuildTwice: holds only under its stated proviso. Rewrite.RebuildEatsTrailingSpace shows why the proviso is needed.
- Pipeline.InjectedCountBound: is a lower bound, not an equality. The count includes any kept line that contains ` group_id=`: a URL line, an unmapped entry that already had the attribute, or a malformed entry.

Behaviour worth knowing:

- The `re.sub` at line 63 removes every whitespace-led `group_id="..."` left of the comma, not only the first one (`Rewrite.StripEvery`, `Rewrite.StripTwoInARow`).
- Rewriting a line twice with the same group id gives the same line only when the text left of the comma does not end in whitespace (`Rewrite.RebuildTwice`). Otherwise the second pass removes that whitespace together with the first inserted attribute (`Rewrite.RebuildEatsTrailingSpace`).
- The `"(no name)"` fallback at line 104 is never used: a parsed entry always has a non-empty display name (`Pipeline.JudgeOutcomes`).
- An entry line in URL position is consumed as a URL and never judged (`Pipeline.UrlIsNeverJudged`).
- An entry that parses but has no attributes is kept as it is; it is not dropped (`Pipeline.JudgeOutcomes`).
