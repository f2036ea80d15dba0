/** The colour parser of the theme service: a line scanner over an
    Alacritty TOML file that tracks the current `[colors…]` section,
    records `key = "value"` assignments made in the sections it cares
    about, and projects the result onto the eleven theme colours, falling
    back to the default theme. */
module ThemeService {
  import opened JsString
  import opened Defaults

  // ---------------------------------------------------------------------
  // The two line patterns

  predicate IsQuote(c: char) {
    c == '"' || c == '\''
  }

  predicate NoQuote(s: string) {
    forall i :: 0 <= i < |s| ==> !IsQuote(s[i])
  }

  /** The longest prefix of word characters (what a greedy `\w+` takes). */
  function WordRun(s: string): (w: string)
    ensures |w| <= |s| && w == s[..|w|]
    ensures AllWordChars(w)
    ensures |w| < |s| ==> !IsWordChar(s[|w|])
  {
    if s != [] && IsWordChar(s[0]) then [s[0]] + WordRun(s[1..]) else []
  }

  /** The longest prefix without quotes (what a greedy `[^"']+` takes). */
  function ValueRun(s: string): (v: string)
    ensures |v| <= |s| && v == s[..|v|]
    ensures NoQuote(v)
    ensures |v| < |s| ==> IsQuote(s[|v|])
  {
    if s != [] && !IsQuote(s[0]) then [s[0]] + ValueRun(s[1..]) else []
  }

  /** The section a line opens, per `/^\[colors(?:\.(\w+))?\]/`: the empty
      name for `[colors]`, the word w for `[colors.w]`, nothing otherwise. */
  function HeaderOf(line: string): Option<string> {
    if StartsWith(line, "[colors]") then Some([])
    else if StartsWith(line, "[colors.") then
      var w := WordRun(line[8..]);
      if w != [] && 8 + |w| < |line| && line[8 + |w|] == ']' then Some(w) else None
    else None
  }

  datatype Assignment = Assignment(key: string, value: string)

  /** `["']([^"']+)["']` at the start of s: the captured value. */
  function QuotedOf(s: string): (r: Option<string>)
    ensures r.Some? ==> r.value != [] && NoQuote(r.value)
  {
    if s == [] || !IsQuote(s[0]) then None
    else
      var value := ValueRun(s[1..]);
      if value == [] || |value| == |s| - 1 then None else Some(value)
  }

  /** `\s*=\s*` followed by a quoted value, at the start of s. */
  function AfterKeyOf(s: string): (r: Option<string>)
    ensures r.Some? ==> r.value != [] && NoQuote(r.value)
  {
    var afterKey := TrimStart(s);
    if afterKey == [] || afterKey[0] != '=' then None
    else QuotedOf(TrimStart(afterKey[1..]))
  }

  /** The assignment a line makes, per `/^(\w+)\s*=\s*["']([^"']+)["']/`. */
  function AssignmentOf(line: string): (r: Option<Assignment>)
    ensures r.Some? ==> r.value.key != [] && AllWordChars(r.value.key) && StartsWith(line, r.value.key)
    ensures r.Some? ==> r.value.value != [] && NoQuote(r.value.value)
  {
    var key := WordRun(line);
    if key == [] then None
    else
      match AfterKeyOf(line[|key|..])
      case None => None
      case Some(value) => Some(Assignment(key, value))
  }

  // ---------------------------------------------------------------------
  // What the patterns accept

  /** A greedy run is the only prefix of its class followed by a character
      outside the class (or the end). */
  lemma {:induction false} WordRunIs(s: string, w: string)
    requires AllWordChars(w) && |w| <= |s| && s[..|w|] == w
    requires |w| < |s| ==> !IsWordChar(s[|w|])
    ensures WordRun(s) == w
  {
    if w != [] {
      assert s[0] == w[0];
      assert s[1..][..|w| - 1] == w[1..];
      WordRunIs(s[1..], w[1..]);
    } else if s != [] {
      assert !IsWordChar(s[0]);
    }
  }

  lemma {:induction false} ValueRunIs(s: string, v: string)
    requires NoQuote(v) && |v| <= |s| && s[..|v|] == v
    requires |v| < |s| ==> IsQuote(s[|v|])
    ensures ValueRun(s) == v
  {
    if v != [] {
      assert s[0] == v[0];
      assert s[1..][..|v| - 1] == v[1..];
      ValueRunIs(s[1..], v[1..]);
    } else if s != [] {
      assert IsQuote(s[0]);
    }
  }

  /** `TrimStart` removes a run of white space. */
  lemma TrimStartSplit(s: string)
    ensures var n := |s| - |TrimStart(s)|;
      0 <= n <= |s| && s == s[..n] + TrimStart(s) && AllSpace(s[..n])
  {
    var r := TrimStart(s);
    var n := |s| - |r|;
    assert s[n..] == r;
    SplitAt(s, n);
    forall i | 0 <= i < n ensures IsSpace(s[..n][i]) {
      assert s[..n][i] == s[i];
    }
  }

  /** `HeaderOf` returns exactly the capture of the header pattern: the
      empty name when the line starts with `[colors]`, and the word w when
      it starts with `[colors.w]`. */
  lemma HeaderOfIff(line: string, w: string)
    ensures HeaderOf(line) == Some(w) <==>
      (w == [] && StartsWith(line, "[colors]"))
      || (w != [] && AllWordChars(w) && StartsWith(line, "[colors." + w + "]"))
  {
    if w != [] && AllWordChars(w) && StartsWith(line, "[colors." + w + "]") {
      assert line[7] == '.';
      assert line[8..][..|w|] == w;
      assert line[8..][|w|] == line[8 + |w|] == ']';
      WordRunIs(line[8..], w);
    }
    if HeaderOf(line) == Some(w) && !StartsWith(line, "[colors]") {
      var rest := line[8..];
      assert w == WordRun(rest);
      assert line == "[colors." + w + "]" + line[9 + |w|..];
    }
  }

  /** A quoted value: an opening quote, a non-empty run without quotes, a
      closing quote (of either kind), then anything. */
  predicate IsQuoted(s: string, value: string, q1: char, q2: char, tail: string) {
    IsQuote(q1) && IsQuote(q2) && value != [] && NoQuote(value) && s == [q1] + value + [q2] + tail
  }

  lemma QuotedComplete(s: string, value: string, q1: char, q2: char, tail: string)
    requires IsQuoted(s, value, q1, q2, tail)
    ensures QuotedOf(s) == Some(value)
  {
    var rest := value + [q2] + tail;
    assert s[1..] == rest;
    assert rest[..|value|] == value;
    assert rest[|value|] == q2;
    ValueRunIs(rest, value);
  }

  lemma QuotedSound(s: string)
    requires QuotedOf(s).Some?
    ensures var v := QuotedOf(s).value;
      |v| + 2 <= |s| && IsQuoted(s, v, s[0], s[|v| + 1], s[|v| + 2..])
  {
    var v := QuotedOf(s).value;
    var rest := s[1..];
    assert rest == v + [rest[|v|]] + rest[|v| + 1..];
  }

  /** What follows the key: white space, `=`, white space, a quoted value. */
  predicate IsAfterKey(s: string, value: string, sp1: string, sp2: string, quoted: string) {
    AllSpace(sp1) && AllSpace(sp2) && QuotedOf(quoted) == Some(value) && s == sp1 + "=" + sp2 + quoted
  }

  lemma AfterKeyComplete(s: string, value: string, sp1: string, sp2: string, quoted: string)
    requires IsAfterKey(s, value, sp1, sp2, quoted)
    ensures AfterKeyOf(s) == Some(value)
  {
    var rest := "=" + (sp2 + quoted);
    assert sp1 + rest == sp1 + "=" + sp2 + quoted;
    TrimStartOver(sp1, rest);
    assert rest[1..] == sp2 + quoted;
    assert IsQuote(quoted[0]);
    TrimStartOver(sp2, quoted);
    AfterKeyFold(s, rest);
  }

  /** `AfterKeyOf` one step at a time. */
  lemma AfterKeyFold(s: string, t: string)
    requires TrimStart(s) == t && t != [] && t[0] == '='
    ensures AfterKeyOf(s) == QuotedOf(TrimStart(t[1..]))
  {
  }

  lemma AfterKeyUnfold(s: string)
    requires AfterKeyOf(s).Some?
    ensures TrimStart(s) != [] && TrimStart(s)[0] == '='
    ensures QuotedOf(TrimStart(TrimStart(s)[1..])) == AfterKeyOf(s)
  {
  }

  lemma AfterKeySound(s: string)
    requires AfterKeyOf(s).Some?
    ensures exists sp1, sp2, quoted :: IsAfterKey(s, AfterKeyOf(s).value, sp1, sp2, quoted)
  {
    AfterKeyUnfold(s);
    var t := TrimStart(s);
    var rest := t[1..];
    var quoted := TrimStart(rest);
    TrimStartSplit(s);
    TrimStartSplit(rest);
    AfterKeyParts(s, t, rest, quoted, AfterKeyOf(s).value);
  }

  lemma AfterKeyParts(s: string, t: string, rest: string, quoted: string, value: string)
    requires t != [] && t[0] == '=' && rest == t[1..]
    requires var n := |s| - |t|; 0 <= n <= |s| && s == s[..n] + t && AllSpace(s[..n])
    requires var n := |rest| - |quoted|; 0 <= n <= |rest| && rest == rest[..n] + quoted && AllSpace(rest[..n])
    requires QuotedOf(quoted) == Some(value)
    ensures exists sp1, sp2, quoted :: IsAfterKey(s, value, sp1, sp2, quoted)
  {
    assert t == "=" + rest;
    AfterKeyPieces(s, value, s[..|s| - |t|], t, rest, rest[..|rest| - |quoted|], quoted);
  }

  lemma AfterKeyPieces(s: string, value: string, sp1: string, t: string, rest: string, sp2: string, quoted: string)
    requires s == sp1 + t && t == "=" + rest && rest == sp2 + quoted
    requires AllSpace(sp1) && AllSpace(sp2) && QuotedOf(quoted) == Some(value)
    ensures IsAfterKey(s, value, sp1, sp2, quoted)
  {
    assert s == sp1 + ("=" + (sp2 + quoted));
    assert sp1 + ("=" + (sp2 + quoted)) == sp1 + "=" + sp2 + quoted;
  }

  /** The parts of an assignment line, as the pattern reads them. */
  predicate IsAssignmentLine(line: string, key: string, value: string,
                             sp1: string, sp2: string, quoted: string)
  {
    key != [] && AllWordChars(key) && line == key + (sp1 + "=" + sp2 + quoted)
    && IsAfterKey(sp1 + "=" + sp2 + quoted, value, sp1, sp2, quoted)
  }

  /** Every line of that shape is read as the assignment of its key and value. */
  lemma AssignmentComplete(line: string, key: string, value: string,
                           sp1: string, sp2: string, quoted: string)
    requires IsAssignmentLine(line, key, value, sp1, sp2, quoted)
    ensures AssignmentOf(line) == Some(Assignment(key, value))
  {
    var rest := sp1 + "=" + sp2 + quoted;
    assert line[..|key|] == key;
    assert line[|key|] == rest[0];
    assert IsSpace(rest[0]) || rest[0] == '=';
    WordRunIs(line, key);
    assert line[|key|..] == rest;
    AfterKeyComplete(rest, value, sp1, sp2, quoted);
  }

  /** Every assignment read comes from a line of that shape. */
  lemma AssignmentSound(line: string, key: string, value: string)
    requires AssignmentOf(line) == Some(Assignment(key, value))
    ensures exists sp1, sp2, quoted :: IsAssignmentLine(line, key, value, sp1, sp2, quoted)
  {
    assert key == WordRun(line);
    assert AfterKeyOf(line[|key|..]) == Some(value);
    KeyAndRest(line, key, value);
  }

  lemma KeyAndRest(line: string, key: string, value: string)
    requires key != [] && AllWordChars(key) && |key| <= |line| && line[..|key|] == key
    requires AfterKeyOf(line[|key|..]) == Some(value)
    ensures exists sp1, sp2, quoted :: IsAssignmentLine(line, key, value, sp1, sp2, quoted)
  {
    var s := line[|key|..];
    AfterKeySound(s);
    var sp1, sp2, quoted :| IsAfterKey(s, value, sp1, sp2, quoted);
    SplitAt(line, |key|);
    assert IsAssignmentLine(line, key, value, sp1, sp2, quoted);
  }

  /** A header line is never read as an assignment. */
  lemma HeaderNotAssignment(line: string)
    requires HeaderOf(line).Some?
    ensures AssignmentOf(line) == None
  {
    assert line[0] == '[';
  }

  // ---------------------------------------------------------------------
  // The scan

  /** Sections whose assignments are recorded. */
  predicate SectionAccepted(section: string) {
    section == "normal" || section == "primary" || section == "cursor" || section == ""
  }

  /** The section in effect after these lines: the last header's name, or
      the empty name before any header. */
  function SectionAfter(lines: seq<string>): string {
    if lines == [] then []
    else
      match HeaderOf(lines[|lines| - 1])
      case Some(section) => section
      case None => SectionAfter(lines[..|lines| - 1])
  }

  /** Line i is an assignment that is recorded. */
  predicate AcceptedAt(lines: seq<string>, i: nat)
    requires i < |lines|
  {
    HeaderOf(lines[i]).None? && AssignmentOf(lines[i]).Some? && SectionAccepted(SectionAfter(lines[..i]))
  }

  /** The recorded assignments, in file order. */
  function Accepted(lines: seq<string>): seq<Assignment> {
    if lines == [] then []
    else
      var n := |lines| - 1;
      Accepted(lines[..n]) + (if AcceptedAt(lines, n) then [AssignmentOf(lines[n]).value] else [])
  }

  /** The value the last assignment to key left. */
  function LastValue(assignments: seq<Assignment>, key: string): Option<string> {
    if assignments == [] then None
    else if assignments[|assignments| - 1].key == key then Some(assignments[|assignments| - 1].value)
    else LastValue(assignments[..|assignments| - 1], key)
  }

  lemma LastValueSnoc(assignments: seq<Assignment>, a: Assignment, key: string)
    ensures LastValue(assignments + [a], key) ==
      if a.key == key then Some(a.value) else LastValue(assignments, key)
  {
    assert (assignments + [a])[..|assignments|] == assignments;
  }

  /** `_parseTomlColors` as a value, on the lines of the file. */
  function ThemeOfLines(lines: seq<string>): (theme: map<string, string>)
    ensures theme.Keys == DefaultTheme.Keys
  {
    var assignments := Accepted(lines);
    map k | k in DefaultTheme :: if LastValue(assignments, k).Some? then LastValue(assignments, k).value else DefaultTheme[k]
  }

  function ThemeOf(text: string): map<string, string> {
    ThemeOfLines(Split(text))
  }

  /** `_parseTomlColors`: scan the lines, switching section on each header
      and recording assignments made in an accepted section, then take each
      of the eleven colours from what was recorded or from the defaults. */
  method ParseTomlColors(text: string) returns (theme: map<string, string>)
    ensures theme == ThemeOf(text)
  {
    var colors: map<string, string> := map[];
    var lines := Split(text);
    var currentSection := "";
    for i := 0 to |lines|
      invariant currentSection == SectionAfter(lines[..i])
      invariant Tracks(colors, Accepted(lines[..i]))
    {
      var line := lines[i];
      ScanStep(lines, i);
      var sectionMatch := HeaderOf(line);
      if sectionMatch.Some? {
        currentSection := sectionMatch.value;
        assert Accepted(lines[..i + 1]) == Accepted(lines[..i]);
        continue;
      }
      var assignment := AssignmentOf(line);
      if assignment.Some? && SectionAccepted(currentSection) {
        TracksSnoc(colors, Accepted(lines[..i]), assignment.value);
        colors := colors[assignment.value.key := assignment.value.value];
      } else {
        assert Accepted(lines[..i + 1]) == Accepted(lines[..i]);
      }
    }
    assert lines[..|lines|] == lines;
    theme := map k | k in DefaultTheme :: if k in colors then colors[k] else DefaultTheme[k];
    TracksTheme(colors, lines);
  }

  /** The colours recorded so far hold, for each key, the value the last
      recorded assignment to it left, and no other key. */
  ghost predicate Tracks(colors: map<string, string>, assignments: seq<Assignment>) {
    && (forall k :: k in colors <==> LastValue(assignments, k).Some?)
    && (forall k :: k in colors ==> colors[k] == LastValue(assignments, k).value)
  }

  lemma TracksSnoc(colors: map<string, string>, assignments: seq<Assignment>, a: Assignment)
    requires Tracks(colors, assignments)
    ensures Tracks(colors[a.key := a.value], assignments + [a])
  {
    forall k ensures LastValue(assignments + [a], k) == if a.key == k then Some(a.value) else LastValue(assignments, k) {
      LastValueSnoc(assignments, a, k);
    }
  }

  lemma TracksTheme(colors: map<string, string>, lines: seq<string>)
    requires Tracks(colors, Accepted(lines))
    ensures (map k | k in DefaultTheme :: if k in colors then colors[k] else DefaultTheme[k]) == ThemeOfLines(lines)
  {
  }

  /** One step of the scan, on prefixes of the lines. */
  lemma ScanStep(lines: seq<string>, i: nat)
    requires i < |lines|
    ensures SectionAfter(lines[..i + 1]) ==
      if HeaderOf(lines[i]).Some? then HeaderOf(lines[i]).value else SectionAfter(lines[..i])
    ensures Accepted(lines[..i + 1]) ==
      Accepted(lines[..i]) + (if AcceptedAt(lines, i) then [AssignmentOf(lines[i]).value] else [])
  {
    var p := lines[..i + 1];
    assert p[..i] == lines[..i];
    assert p[i] == lines[i];
    assert AcceptedAt(p, i) == AcceptedAt(lines, i);
  }

  // ---------------------------------------------------------------------
  // Properties

  /** The section is the name of the last header, or the empty name when
      there is none; any other line, such as `[font]`, leaves it alone. */
  lemma {:induction false} SectionIsLastHeader(lines: seq<string>, j: int)
    requires -1 <= j < |lines|
    requires forall k :: j < k < |lines| ==> HeaderOf(lines[k]).None?
    requires j >= 0 ==> HeaderOf(lines[j]).Some?
    ensures SectionAfter(lines) == if j >= 0 then HeaderOf(lines[j]).value else []
  {
    if lines != [] && j < |lines| - 1 {
      var last := |lines| - 1;
      var init := lines[..last];
      assert HeaderOf(lines[last]).None?;
      assert SectionAfter(lines) == SectionAfter(init);
      forall k | j < k < |init| ensures HeaderOf(init[k]).None? {
        assert init[k] == lines[k];
      }
      if j >= 0 {
        assert init[j] == lines[j];
      }
      SectionIsLastHeader(init, j);
    }
  }

  /** `[font]` is not a header. */
  lemma FontIsNotAHeader()
    ensures HeaderOf("[font]") == None
  {
    assert "[font]"[1] == 'f';
  }

  /** Whether a line is recorded does not depend on the lines after it. */
  lemma AcceptedAtPrefix(lines: seq<string>, n: nat, j: nat)
    requires j < n <= |lines|
    ensures AcceptedAt(lines[..n], j) == AcceptedAt(lines, j)
  {
    assert lines[..n][..j] == lines[..j];
    assert lines[..n][j] == lines[j];
  }

  /** The recorded list after one more line. */
  lemma AcceptedSnoc(lines: seq<string>)
    requires lines != []
    ensures var n := |lines| - 1;
      Accepted(lines) == Accepted(lines[..n]) + (if AcceptedAt(lines, n) then [AssignmentOf(lines[n]).value] else [])
  {
  }

  /** A last line that records nothing for the key leaves its value alone. */
  lemma LastValueSkipsLine(lines: seq<string>, key: string)
    requires lines != []
    requires AcceptedAt(lines, |lines| - 1) ==> AssignmentOf(lines[|lines| - 1]).value.key != key
    ensures LastValue(Accepted(lines), key) == LastValue(Accepted(lines[..|lines| - 1]), key)
  {
    var n := |lines| - 1;
    AcceptedSnoc(lines);
    if AcceptedAt(lines, n) {
      LastValueSnoc(Accepted(lines[..n]), AssignmentOf(lines[n]).value, key);
    } else {
      assert Accepted(lines) == Accepted(lines[..n]);
    }
  }

  /** A last line that records the key decides its value. */
  lemma LastValueTakesLine(lines: seq<string>)
    requires lines != [] && AcceptedAt(lines, |lines| - 1)
    ensures var a := AssignmentOf(lines[|lines| - 1]).value;
      LastValue(Accepted(lines), a.key) == Some(a.value)
  {
    var n := |lines| - 1;
    AcceptedSnoc(lines);
    LastValueSnoc(Accepted(lines[..n]), AssignmentOf(lines[n]).value, AssignmentOf(lines[n]).value.key);
  }

  /** The value recorded for a key is the value of the last recorded line
      that assigns it. */
  lemma {:induction false} LastRecordedValue(lines: seq<string>, i: nat, key: string)
    requires i < |lines| && AcceptedAt(lines, i) && AssignmentOf(lines[i]).value.key == key
    requires forall j :: i < j < |lines| && AcceptedAt(lines, j) ==> AssignmentOf(lines[j]).value.key != key
    ensures LastValue(Accepted(lines), key) == Some(AssignmentOf(lines[i]).value.value)
  {
    var n := |lines| - 1;
    var init := lines[..n];
    if i == n {
      LastValueTakesLine(lines);
    } else {
      var a := AssignmentOf(lines[i]).value;
      assert init[i] == lines[i];
      AcceptedAtPrefix(lines, n, i);
      forall j | i < j < |init| && AcceptedAt(init, j) ensures AssignmentOf(init[j]).value.key != key {
        AcceptedAtPrefix(lines, n, j);
      }
      LastRecordedValue(init, i, key);
      assert LastValue(Accepted(init), key) == Some(a.value);
      assert AcceptedAt(lines, n) ==> AssignmentOf(lines[n]).value.key != key;
      LastValueSkipsLine(lines, key);
    }
  }

  /** No value is recorded for a key that no recorded line assigns. */
  lemma {:induction false} NoRecordedValue(lines: seq<string>, key: string)
    requires forall j :: 0 <= j < |lines| && AcceptedAt(lines, j) ==> AssignmentOf(lines[j]).value.key != key
    ensures LastValue(Accepted(lines), key) == None
  {
    if lines != [] {
      var n := |lines| - 1;
      var init := lines[..n];
      LastValueSkipsLine(lines, key);
      forall j | 0 <= j < |init| && AcceptedAt(init, j) ensures AssignmentOf(init[j]).value.key != key {
        AcceptedAtPrefix(lines, n, j);
      }
      NoRecordedValue(init, key);
    }
  }

  /** The last accepted assignment to a colour decides it: later assignments
      override earlier ones. */
  lemma LastAcceptedWins(lines: seq<string>, i: nat, key: string)
    requires i < |lines| && AcceptedAt(lines, i) && AssignmentOf(lines[i]).value.key == key
    requires forall j :: i < j < |lines| && AcceptedAt(lines, j) ==> AssignmentOf(lines[j]).value.key != key
    requires key in DefaultTheme
    ensures ThemeOfLines(lines)[key] == AssignmentOf(lines[i]).value.value
  {
    LastRecordedValue(lines, i, key);
  }

  /** A colour that no accepted assignment names keeps its default. */
  lemma UnassignedKeepsDefault(lines: seq<string>, key: string)
    requires forall j :: 0 <= j < |lines| && AcceptedAt(lines, j) ==> AssignmentOf(lines[j]).value.key != key
    requires key in DefaultTheme
    ensures ThemeOfLines(lines)[key] == DefaultTheme[key]
  {
    NoRecordedValue(lines, key);
  }

  /** A file without accepted assignments gives the default theme. */
  lemma NoAssignmentsGiveDefaults(text: string)
    requires forall j :: 0 <= j < |Split(text)| ==> !AcceptedAt(Split(text), j)
    ensures ThemeOf(text) == DefaultTheme
  {
    var lines := Split(text);
    forall key | key in DefaultTheme ensures ThemeOfLines(lines)[key] == DefaultTheme[key] {
      UnassignedKeepsDefault(lines, key);
    }
  }

  /** Every recorded value is non-empty. */
  lemma {:induction false} RecordedValuesNonEmpty(lines: seq<string>)
    ensures forall j :: 0 <= j < |Accepted(lines)| ==> Accepted(lines)[j].value != []
  {
    if lines != [] {
      RecordedValuesNonEmpty(lines[..|lines| - 1]);
      AcceptedSnoc(lines);
    }
  }

  /** The theme has exactly the eleven colour names, whatever the file
      assigns, and every colour is non-empty. */
  lemma ThemeShape(text: string)
    ensures ThemeOf(text).Keys == ThemeKeys
    ensures forall k :: k in ThemeOf(text) ==> ThemeOf(text)[k] != []
  {
    DefaultThemeShape();
    var lines := Split(text);
    RecordedValuesNonEmpty(lines);
    forall k | k in ThemeOf(text) ensures ThemeOf(text)[k] != [] {
      if LastValue(Accepted(lines), k).Some? {
        LastValueRecorded(Accepted(lines), k);
      }
    }
  }

  /** A recorded value is the value of some recorded assignment, so it is
      non-empty. */
  lemma {:induction false} LastValueRecorded(assignments: seq<Assignment>, key: string)
    requires forall j :: 0 <= j < |assignments| ==> assignments[j].value != []
    requires LastValue(assignments, key).Some?
    ensures LastValue(assignments, key).value != []
  {
    if assignments[|assignments| - 1].key != key {
      LastValueRecorded(assignments[..|assignments| - 1], key);
    }
  }
}
