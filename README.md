# omarchy-jot: the note format, the search engine and the theme parser

A Dafny model of the logic core of omarchy-jot, a small GTK note-taking
application. The model covers three services:

- **Search** (`src/services/searchService.js`):
  - `fuzzyMatch`, a greedy, case-insensitive subsequence matcher that
    scores consecutive hits double;
  - `highlightMatchesWithColor`, which escapes a text for Pango markup and
    wraps each run of matched positions in a bold coloured `<span>`;
  - `searchFiles`, which matches every note's file name and content,
    weighs a file-name hit three to one, and sorts by score.
- **Files** (`src/services/fileService.js`):
  - `normalizeFilename` and `generateFilename`, which turn a title into a
    file name;
  - the envelope `saveNote` and `saveToFile` write, made of a `# title`
    heading, a `*Created:` line and the content;
  - `parseFileContent`, which reads a note back with a line cursor.
- **Theme** (`src/services/themeService.js`): `_parseTomlColors`. It scans
  an Alacritty TOML file line by line, tracks the `[colors…]` section,
  records `key = "value"` lines from the sections it accepts, and projects
  the result onto the eleven colours of `DEFAULT_THEME`
  (`src/constants/defaults.js`).

Modules:

| file | module | what it holds |
|---|---|---|
| `jsstring.dfy` | `JsString` | the JavaScript string built-ins the services call: `\s`, `\w`, `trim`, `toLowerCase`, `startsWith`, `split('\n')`, `join('\n')` |
| `defaults.dfy` | `Defaults` | `DEFAULT_THEME` |
| `matcher.dfy` | `Matcher` | `fuzzyMatch`: a method with the source's loop, proved equal to a greedy-placement function; lemmas on that function |
| `highlighter.dfy` | `Highlighter` | `highlightMatchesWithColor`, its output as a sequence of pieces (open tag, close tag, escaped character), and the properties of those pieces |
| `ranker.dfy` | `Ranker` | `searchFiles`: the loop, the stable sort, and the properties of the result |
| `fileservice.dfy` | `FileService` | file names, the envelope, and `parseFileContent` with its two cursor loops |
| `themeservice.dfy` | `ThemeService` | the two line patterns, the section scan, and `_parseTomlColors` |

Each loop in the source is a Dafny method with the same loop. Its
postcondition ties the result to a function of the inputs. The lemmas then
prove what the source promises about that function.

Because `lastMatchIndex` starts at -1 and the bonus test is
`lastMatchIndex === i - 1`, the first hit of a query earns the +2 bonus only
when it is at index 0 (`Matcher.FirstBonusOnlyAtStart`).

Positions count characters (Unicode scalar values), where JavaScript counts
UTF-16 code units; see "## Left out".

## Model

| member | source | states |
|---|---|---|
| JsString.IsSpace | src/services/fileService.js:127 | reference definition of the `\s` class and of the characters `trim` removes (ECMAScript WhiteSpace and LineTerminator); no contract of its own, used by TrimStart, TrimEnd and BlankIffTrimsToNothing |
| JsString.IsWordChar | src/services/themeService.js:59 | reference definition of the `\w` class without the `u` flag, `[A-Za-z0-9_]`; no contract of its own, used by WordRun, HeaderOfIff and AssignmentOf |
| JsString.StartsWith | src/services/fileService.js:126 | reference definition of `startsWith`; no contract of its own, used by FirstLinePrefix, Envelope and TitledContentStart |
| JsString.Trim | src/services/fileService.js:127 | reference definition of `trim` as TrimEnd after TrimStart; its properties are those of TrimStart, TrimEnd, TrimNoSpace and BlankIffTrimsToNothing |
| JsString.Join | src/services/fileService.js:146 | reference definition of `join('\n')`; related to Split by JoinSplit |
| JsString.ToLower | src/services/searchService.js:21-22 | lower-casing keeps the length, and each character maps by itself (ASCII letters lowered, all else kept), so positions in the lowered text are positions in the original |
| JsString.TrimStart | src/services/fileService.js:127 | the result is a suffix of the input; everything removed is white space; the result does not start with white space |
| JsString.TrimEnd | src/services/fileService.js:127 | the result is a prefix of the input; everything removed is white space; the result does not end with white space |
| JsString.BlankIffTrimsToNothing | src/services/fileService.js:131 | `!line.trim()` holds exactly when every character of the line is white space |
| JsString.TrimStartOver | src/services/fileService.js:44 | leading white space followed by the end or by a non-space character is exactly what trimming the front removes |
| JsString.TrimStartAppend | src/services/fileService.js:44 | trimming the front of a text that has a non-space character leaves everything after that character as it is |
| JsString.TrimNoSpace | src/services/fileService.js:44 | trimming a string without white space leaves it unchanged |
| JsString.Split | src/services/fileService.js:121 | `split('\n')` gives at least one line, and no line holds a newline |
| JsString.JoinSplit | src/services/fileService.js:146 | joining the split lines with `\n` gives back the text |
| JsString.SplitAtNewline | src/services/fileService.js:121 | splitting `a + "\n" + b` splits `a` and `b` separately |
| JsString.SplitOneLine | src/services/fileService.js:121 | a text without a newline splits into itself alone |
| JsString.FirstLinePrefix | src/services/fileService.js:126 | for a prefix without newlines, the text starts with it exactly when its first line does |
| Matcher.Match | src/services/searchService.js:18-46 | reference definition of `fuzzyMatch`'s result; no contract of its own; FuzzyMatch is proved equal to it and MatchShape, MatchIffSubsequence and MatchScoreBounds state its properties |
| Matcher.Greedy | src/services/searchService.js:30-42 | reference definition of the accepted positions, by first occurrence; its properties are GreedyInRange, GreedyIncreasing, GreedyLeftmost, GreedyShortfall and GreedyComplete |
| Matcher.Score | src/services/searchService.js:26-37 | reference definition of the score of a list of positions; its closed form is ScoreCountsAdjacent |
| Matcher.FirstFrom | src/services/searchService.js:30-31 | the first position at or after `from` holding a character, or none; every position skipped holds another character |
| Matcher.FuzzyMatch | src/services/searchService.js:18-46 | the loop returns exactly `Match(query, text)`: an empty query matches with score 0 and no positions; otherwise it gives the greedy placement, its score, and a verdict that holds when the whole query was placed |
| Matcher.ScanIsGreedy | src/services/searchService.js:30-42 | the single pass, from any state, accepts exactly the greedy placement of the rest of the query after what it already holds |
| Matcher.GreedyInRange | src/services/searchService.js:30-41 | at most one position per query character; each lies in the text and holds its query character |
| Matcher.GreedyIncreasing | src/services/searchService.js:30-41 | the accepted positions strictly increase |
| Matcher.GreedyLeftmost | src/services/searchService.js:30-41 | each accepted position is the first occurrence of its query character after the previous accepted one |
| Matcher.GreedyShortfall | src/services/searchService.js:30-44 | when the pass stops short, the next query character does not occur after the last accepted position |
| Matcher.GreedyComplete | src/services/searchService.js:24-44 | if the query can be placed in order at all, the greedy pass places all of it |
| Matcher.MatchShape | src/services/searchService.js:18-46 | everything one call promises: empty query gives `(true, 0, [])`; positions are in range, increasing and leftmost; the verdict holds exactly when every character was placed; a verdict with no positions occurs exactly for the empty query, and a failed match may still carry the positions of a partial placement; on failure the next character is absent from the rest of the text |
| Matcher.MatchIffSubsequence | src/services/searchService.js:24-44 | `matches` holds exactly when the lowered query is a subsequence of the lowered text |
| Matcher.ScoreCountsAdjacent | src/services/searchService.js:26-37 | the score is the number of hits plus the number of hits adjacent to the previous one (or at index 0 for the first), so it lies between n and 2n |
| Matcher.MatchScoreBounds | src/services/searchService.js:26-45 | a match result's score lies between the number of positions and twice that |
| Matcher.FirstBonusOnlyAtStart | src/services/searchService.js:27-37 | with the sentinel -1, a one-character query scores 2 when it matches at index 0 and 1 anywhere else |
| Highlighter.OpenTag | src/services/searchService.js:70 | reference definition of the opening span tag with the colour; no contract of its own |
| Highlighter.TagAt | src/services/searchService.js:68-76 | reference definition of the tag written before character i; no contract of its own |
| Highlighter.Highlighted | src/services/searchService.js:60-86 | reference definition of the output as pieces; HighlightMatchesWithColor renders it, and StripMarkersGivesEscapedText, HighlightedWellFormed and HighlightedEmphasis state its properties |
| Highlighter.Hex | src/services/searchService.js:66 | `%x` of a byte: one or two lower-case hex digits |
| Highlighter.EscapeChar | src/services/searchService.js:66 | escaping one character gives a non-empty string without `<` or `>` |
| Highlighter.Escape | src/services/searchService.js:57 | escaping a text never shrinks it and leaves no `<` or `>`, so every angle bracket in the output belongs to a tag |
| Highlighter.HighlightMatchesWithColor | src/services/searchService.js:55-87 | a missing or empty index list gives the escaped text; otherwise the loop builds exactly the rendering of `Highlighted(text, set of indices, color)` |
| Highlighter.StripMarkersGivesEscapedText | src/services/searchService.js:64-84 | deleting every span tag from the output leaves the escaped text: highlighting changes emphasis, never content |
| Highlighter.HighlightedWellFormed | src/services/searchService.js:62-84 | spans never nest, every close tag closes an open span, and none is left open at the end |
| Highlighter.HighlightedEmphasis | src/services/searchService.js:64-84 | character i is inside a span exactly when i is a listed index, and one span opens per maximal run of consecutive listed indices |
| Highlighter.NoMatchInRangeIsPlain | src/services/searchService.js:56-86 | when no listed index falls inside the text, the output equals the escaped text, as for an empty list |
| Ranker.Included | src/services/searchService.js:109 | reference definition of the test for pushing a file; no contract of its own, used by CandidatesMembers and SearchNonEmptyQuery |
| Ranker.Ranked | src/services/searchService.js:111-118 | reference definition of the pushed result; its properties are RankedShape |
| Ranker.Candidates | src/services/searchService.js:100-120 | reference definition of the results before sorting; its properties are CandidatesMembers |
| Ranker.Insert | src/services/searchService.js:123 | reference definition of inserting one result into a list sorted by descending score; its properties are InsertSorted, InsertPermutes and InsertStable |
| Ranker.SortByScore | src/services/searchService.js:123 | reference definition of the stable sort by descending score; its properties are SortSorted, SortPermutes and SortStable |
| Ranker.Search | src/services/searchService.js:95-126 | reference definition of `searchFiles`' result; SearchFiles is proved equal to it, and SearchEmptyQuery and SearchNonEmptyQuery state its properties |
| Ranker.SearchFiles | src/services/searchService.js:95-126 | the method returns exactly `Search(files, query)`: every file unranked for the empty query, otherwise the kept files ranked and sorted |
| Ranker.SearchEmptyQuery | src/services/searchService.js:96-98 | the empty query returns every file, in order, with score 0, no match type and no positions |
| Ranker.SearchNonEmptyQuery | src/services/searchService.js:100-125 | a result is returned exactly when it is the ranked form of a file whose name or content matches; scores do not increase along the list; the list is a permutation of the pushed results, and entries of equal score keep corpus order |
| Ranker.CandidatesMembers | src/services/searchService.js:102-120 | the pushed list holds exactly the ranked forms of the files whose name or content matches |
| Ranker.RankedShape | src/services/searchService.js:109-118 | a pushed result scores 3·name + content; its type is "filename" exactly when the name matched; each position list is non-empty exactly when its side matched, and then is that side's positions |
| Ranker.SortSorted | src/services/searchService.js:123 | the sort orders by non-increasing score |
| Ranker.SortPermutes | src/services/searchService.js:123 | the sort is a permutation of its input |
| Ranker.SortStable | src/services/searchService.js:123 | the sort is stable: for every score, the entries with that score keep their order |
| Ranker.InsertSorted | src/services/searchService.js:123 | inserting into a sorted list keeps it sorted |
| Ranker.InsertPermutes | src/services/searchService.js:123 | inserting adds exactly the one entry |
| Ranker.InsertStable | src/services/searchService.js:123 | the inserted entry lands after every entry of equal score |
| FileService.IsKept | src/services/fileService.js:46 | reference definition of the class `[a-zA-Z0-9-_]`; no contract of its own, used by KeepFilenameChars |
| FileService.CollapseSpaces | src/services/fileService.js:45 | no white space survives, and a string without white space is unchanged; CollapseRun states what each run becomes |
| FileService.CollapseRun | src/services/fileService.js:45 | a non-empty white-space run between two non-space characters (or the ends of the text) becomes exactly one `-`, and the text on each side is collapsed on its own |
| FileService.KeepFilenameChars | src/services/fileService.js:46 | only `[A-Za-z0-9_-]` survives, the result is no longer than the input, and a string of those characters is unchanged; KeepOne and KeepAppend state which characters survive and in what order |
| FileService.KeepOne | src/services/fileService.js:46 | one character is kept exactly when it is in `[A-Za-z0-9_-]`, and dropped otherwise |
| FileService.KeepAppend | src/services/fileService.js:46 | the filter works on each part of a concatenation separately, so the kept characters survive in their original order |
| FileService.NormalizeFilename | src/services/fileService.js:43-54 | the result has at most 50 characters, all from `[a-z0-9_-]` |
| FileService.NormalizeExample | src/services/fileService.js:43-54 | the title `"A  b"` becomes the stem `"a-b"`: the two-space run becomes one dash and the capital is lowered |
| FileService.NormalFixed | src/services/fileService.js:43-54 | a string that is already a normalised stem is unchanged |
| FileService.NormalizeIdempotent | src/services/fileService.js:43-54 | normalising twice is normalising once |
| FileService.NormalizeEmpty | src/services/fileService.js:43-54 | the empty title normalises to the empty stem |
| FileService.GenerateFilename | src/services/fileService.js:60-70 | the name ends in `.md`; its stem is the normalised title when that is non-empty, and otherwise the name is `jot-` plus the clock stamp plus `.md` |
| FileService.GenerateFromNormalized | src/services/fileService.js:60-70 | a title and its normalised form give the same file name |
| FileService.Envelope | src/services/fileService.js:85-89 | a saved note starts with `# ` when it has a title, and with `*Created: ` otherwise (the same text `saveToFile` writes at lines 211-215) |
| FileService.EnvelopeLines | src/services/fileService.js:85-89 | a titled envelope splits into the heading, a blank line, the creation line, a blank line, the content's lines and a final empty line |
| FileService.SkipBlank | src/services/fileService.js:131-133 | the cursor moves forward over blank lines only, and stops at a non-blank line or the end |
| FileService.ContentStart | src/services/fileService.js:126-142 | the content start is a line index of the file, or the end |
| FileService.TitledContentStart | src/services/fileService.js:126-142 | after a heading, the cursor stops at a non-blank line or the end; the only non-blank line it passes is a `*Created:` line that is the first non-blank line after the heading; it stops on a `*Created:` line only after passing one |
| FileService.Parse | src/services/fileService.js:120-150 | reference definition of `parseFileContent`'s result; ParseFileContent is proved equal to it, and ParseUntitled, UntitledEnvelopeKeepsCreatedLine and RoundTrip state its properties |
| FileService.ParseFileContent | src/services/fileService.js:120-150 | the cursor loops return exactly `Parse(text)`: the trimmed heading text (or no title), and the lines from the content start joined by `\n` |
| FileService.ParseUntitled | src/services/fileService.js:120-146 | text whose first line is not a `# ` heading reads back as an untitled note whose content is the whole text |
| FileService.UntitledEnvelopeKeepsCreatedLine | src/services/fileService.js:126-146 | an untitled note, once saved, reads back with its `*Created:` line as part of the content |
| FileService.RoundTrip | src/services/fileService.js:120-146 | saving a titled note and reading it back gives the trimmed title and the content plus the newline the envelope appends, when the title and stamp hold no newline and the content does not open with a blank line |
| Defaults.DefaultThemeShape | src/constants/defaults.js:59-71 | the default theme has exactly the eleven colour names, and no value is empty |
| ThemeService.HeaderOf | src/services/themeService.js:59-61 | reference definition of the section-header pattern and its capture; its properties are HeaderOfIff, FontIsNotAHeader and HeaderNotAssignment |
| ThemeService.SectionAccepted | src/services/themeService.js:69 | reference definition of the four accepted sections; no contract of its own |
| ThemeService.SectionAfter | src/services/themeService.js:55-63 | reference definition of the section in effect after some lines; its property is SectionIsLastHeader |
| ThemeService.Accepted | src/services/themeService.js:57-72 | reference definition of the assignments recorded, in order; its properties are RecordedValuesNonEmpty, LastRecordedValue and NoRecordedValue |
| ThemeService.LastValue | src/services/themeService.js:70 | reference definition of a key's recorded value, the last assignment to it; its properties are LastRecordedValue, NoRecordedValue and LastValueRecorded |
| ThemeService.ThemeOf | src/services/themeService.js:52-90 | reference definition of `_parseTomlColors`' result, ThemeOfLines on the split lines; ParseTomlColors is proved equal to it; LastAcceptedWins, UnassignedKeepsDefault and NoAssignmentsGiveDefaults state properties of ThemeOfLines, and ThemeShape states those of ThemeOf |
| ThemeService.WordRun | src/services/themeService.js:65 | the greedy `\w+` prefix: all word characters, followed by a non-word character or the end |
| ThemeService.ValueRun | src/services/themeService.js:65 | the greedy `[^"']+` prefix: no quotes, followed by a quote or the end |
| ThemeService.QuotedOf | src/services/themeService.js:65 | a captured value is non-empty and holds no quote |
| ThemeService.AfterKeyOf | src/services/themeService.js:65 | a value captured after the key is non-empty and holds no quote |
| ThemeService.AssignmentOf | src/services/themeService.js:65-67 | a captured key is a non-empty run of word characters that starts the line, and the value is non-empty without quotes |
| ThemeService.HeaderOfIff | src/services/themeService.js:59-61 | a line opens section w exactly when w is empty and the line starts with `[colors]`, or w is a word and the line starts with `[colors.w]` |
| ThemeService.FontIsNotAHeader | src/services/themeService.js:59 | `[font]` does not change the section |
| ThemeService.QuotedComplete | src/services/themeService.js:65 | every quote, non-empty unquoted value, quote (either kind each), then anything, is read with that value |
| ThemeService.QuotedSound | src/services/themeService.js:65 | every value read comes from such a quoted prefix |
| ThemeService.AfterKeyComplete | src/services/themeService.js:65 | white space, `=`, white space and a quoted value is read with that value |
| ThemeService.AfterKeySound | src/services/themeService.js:65 | every value read after a key comes from that shape |
| ThemeService.AssignmentComplete | src/services/themeService.js:65-67 | every line of the shape key, white space, `=`, white space, quoted value is read as that key and value |
| ThemeService.AssignmentSound | src/services/themeService.js:65-67 | every assignment read comes from a line of that shape |
| ThemeService.HeaderNotAssignment | src/services/themeService.js:57-66 | a header line is never read as an assignment |
| ThemeService.ThemeOfLines | src/services/themeService.js:78-90 | the theme has exactly the keys of the default theme |
| ThemeService.ParseTomlColors | src/services/themeService.js:52-91 | the scanning loop returns exactly `ThemeOf(text)`: each colour takes its last recorded value, or the default |
| ThemeService.SectionIsLastHeader | src/services/themeService.js:55-63 | the section in effect is the name of the last header line, or the empty name before any header |
| ThemeService.LastRecordedValue | src/services/themeService.js:65-71 | the value recorded for a key is that of the last recorded line assigning it |
| ThemeService.NoRecordedValue | src/services/themeService.js:65-71 | a key that no recorded line assigns has no recorded value |
| ThemeService.LastAcceptedWins | src/services/themeService.js:65-90 | a colour takes the value of the last assignment to it made in an accepted section; later assignments override earlier ones |
| ThemeService.UnassignedKeepsDefault | src/services/themeService.js:78-90 | a colour that no accepted assignment names keeps its default |
| ThemeService.NoAssignmentsGiveDefaults | src/services/themeService.js:78-90 | a file without accepted assignments gives the default theme |
| ThemeService.RecordedValuesNonEmpty | src/services/themeService.js:65-70 | every recorded value is non-empty |
| ThemeService.LastValueRecorded | src/services/themeService.js:70 | a key's last recorded value is one of the recorded values, so it is non-empty |
| ThemeService.ThemeShape | src/services/themeService.js:78-90 | whatever the file says, the theme has exactly the eleven colour names and no empty colour, so `\|\|` falls back to the default only for unrecorded keys |

## Left out

- File I/O is not part of this model: `getJotDirectory`, `ensureJotDirectoryExists`, `loadFile`, `scanDirectory`, the Gio streams of `saveNote` and `saveToFile`, the theme file reading and monitoring, and the caches. Only the text these functions compute or read is modelled. `parseFileContent` gets the text as a parameter. The `filePath` and `filename` fields it copies from the file object are left out of `Note`.
- The clock is a parameter. `generateFilename` takes the formatted local time as `stamp`, and the envelope takes the formatted timestamp as `timestamp`.
- JsString.ToLower: lower-cases ASCII letters only. JavaScript's `toLowerCase` also maps non-ASCII letters, and can change a string's length for a few of them. That does not occur for ASCII text.
- Text outside the Basic Multilingual Plane is not modelled. A Dafny `string` is a sequence of Unicode scalar values, and every position in the model counts those. JavaScript strings are sequences of UTF-16 code units, and the source's `text[i]`, `length` and match positions count code units. On text holding a character above U+FFFF, the model therefore differs from the source: the source's positions are shifted by one per such character before them, its verdicts and scores can differ (it can match one half of a surrogate pair against another), and the lone surrogates that `text[i]` hands to `markup_escape_text` cannot occur in the model. On text inside the Basic Multilingual Plane the two counts agree.
- Highlighter.EscapeChar: models `GLib.markup_escape_text` on one character: the five markup characters and the control characters GLib writes as `&#x..;`. GLib's handling of invalid UTF-8 and of NUL is not modelled.
- Ranker.SearchFiles: `Array.prototype.sort` is modelled on values, as the stable insertion sort that ECMAScript's stable-sort requirement allows. The in-place update of the array is not modelled.
- Ranker.SearchResult: holds the file's name, path and content. Other fields a caller's file object might carry, which the spread `...file` would copy, are not modelled.
- `null` or `undefined` for the query, the text, the title or the index list is not modelled (the index list's absence is `None`).
- ThemeService.ThemeOfLines: the theme is a map, so the key order of the returned object literal is not modelled. The source stores keys on a plain object; keys such as `__proto__` cannot reach the eleven theme colours, so that difference does not change the theme.
