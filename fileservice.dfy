/** The note file format: how a title becomes a file name, the envelope a
    note is saved in, and the line-cursor parser that reads a note back. */
module FileService {
  import opened JsString

  /** Longest file-name stem that `normalizeFilename` produces. */
  const MaxFilenameLength := 50

  // ---------------------------------------------------------------------
  // File names

  /** The characters `[a-zA-Z0-9-_]` that survive the character filter. */
  predicate IsKept(c: char) {
    IsWordChar(c) || c == '-'
  }

  /** The characters a normalised file name is made of. */
  predicate IsFilenameChar(c: char) {
    ('a' <= c <= 'z') || ('0' <= c <= '9') || c == '-' || c == '_'
  }

  predicate IsNormal(s: string) {
    |s| <= MaxFilenameLength && forall i :: 0 <= i < |s| ==> IsFilenameChar(s[i])
  }

  /** `replace(/\s+/g, '-')`: every maximal run of white space becomes one dash. */
  function CollapseSpaces(s: string): (r: string)
    ensures NoSpace(r)
    ensures NoSpace(s) ==> r == s
    decreases |s|
  {
    if s == [] then []
    else if IsSpace(s[0]) then "-" + CollapseSpaces(TrimStart(s))
    else [s[0]] + CollapseSpaces(s[1..])
  }

  /** `replace(/[^a-zA-Z0-9-_]/g, '')`: drop every other character. */
  function KeepFilenameChars(s: string): (r: string)
    ensures |r| <= |s|
    ensures forall i :: 0 <= i < |r| ==> IsKept(r[i])
    ensures (forall i :: 0 <= i < |s| ==> IsKept(s[i])) ==> r == s
  {
    if s == [] then []
    else (if IsKept(s[0]) then [s[0]] else []) + KeepFilenameChars(s[1..])
  }

  /** A non-empty run of white space between two non-space characters (or
      the ends of the text) becomes exactly one dash, and the text on either
      side is collapsed on its own. */
  lemma {:induction false} CollapseRun(a: string, sp: string, b: string)
    requires sp != [] && AllSpace(sp)
    requires a == [] || !IsSpace(a[|a| - 1])
    requires b == [] || !IsSpace(b[0])
    ensures CollapseSpaces(a + sp + b) == CollapseSpaces(a) + "-" + CollapseSpaces(b)
    decreases |a|, 1
  {
    if a == [] {
      CollapseRunEmpty(a, sp, b);
    } else if IsSpace(a[0]) {
      CollapseRunSpace(a, sp, b);
    } else {
      CollapseRunWord(a, sp, b);
    }
  }

  /** CollapseRun at the start of the text. */
  lemma CollapseRunEmpty(a: string, sp: string, b: string)
    requires a == [] && sp != [] && AllSpace(sp)
    requires b == [] || !IsSpace(b[0])
    ensures CollapseSpaces(a + sp + b) == CollapseSpaces(a) + "-" + CollapseSpaces(b)
  {
    assert a + sp + b == sp + b;
    CollapseSpaceHead(sp + b);
    TrimStartOver(sp, b);
    EmptyFront(CollapseSpaces(a), "-", CollapseSpaces(b));
  }

  /** CollapseRun when the text before the run starts with white space. */
  lemma {:induction false} CollapseRunSpace(a: string, sp: string, b: string)
    requires sp != [] && AllSpace(sp)
    requires a != [] && IsSpace(a[0]) && !IsSpace(a[|a| - 1])
    requires b == [] || !IsSpace(b[0])
    ensures CollapseSpaces(a + sp + b) == CollapseSpaces(a) + "-" + CollapseSpaces(b)
    decreases |a|, 0
  {
    var t := TrimStart(a);
    assert !AllSpace(a);
    Assoc(a, sp, b);
    Assoc(t, sp, b);
    TrimStartAppend(a, sp + b);
    assert t != [] && t[|t| - 1] == a[|a| - 1];
    CollapseSpaceHead(a + sp + b);
    CollapseSpaceHead(a);
    CollapseRun(t, sp, b);
    Rejoin(CollapseSpaces(a + sp + b), CollapseSpaces(a), "-", CollapseSpaces(t), "-", CollapseSpaces(b));
  }

  /** CollapseRun when the text before the run starts with another character. */
  lemma {:induction false} CollapseRunWord(a: string, sp: string, b: string)
    requires sp != [] && AllSpace(sp)
    requires a != [] && !IsSpace(a[0]) && !IsSpace(a[|a| - 1])
    requires b == [] || !IsSpace(b[0])
    ensures CollapseSpaces(a + sp + b) == CollapseSpaces(a) + "-" + CollapseSpaces(b)
    decreases |a|, 0
  {
    var s := a + sp + b;
    assert s[0] == a[0] && s[1..] == a[1..] + sp + b;
    CollapseWordHead(s);
    CollapseWordHead(a);
    CollapseRun(a[1..], sp, b);
    Rejoin(CollapseSpaces(s), CollapseSpaces(a), [a[0]], CollapseSpaces(a[1..]), "-", CollapseSpaces(b));
  }

  lemma CollapseSpaceHead(s: string)
    requires s != [] && IsSpace(s[0])
    ensures CollapseSpaces(s) == "-" + CollapseSpaces(TrimStart(s))
  {
  }

  lemma CollapseWordHead(s: string)
    requires s != [] && !IsSpace(s[0])
    ensures CollapseSpaces(s) == [s[0]] + CollapseSpaces(s[1..])
  {
  }

  /** The character filter keeps or drops each character on its own. */
  lemma KeepOne(c: char)
    ensures KeepFilenameChars([c]) == if IsKept(c) then [c] else []
  {
    assert [c][1..] == [];
  }

  /** The character filter distributes over concatenation, so the kept
      characters survive in their order. */
  lemma {:induction false} KeepAppend(a: string, b: string)
    ensures KeepFilenameChars(a + b) == KeepFilenameChars(a) + KeepFilenameChars(b)
  {
    if a == [] {
      assert a + b == b;
    } else {
      assert (a + b)[0] == a[0];
      assert (a + b)[1..] == a[1..] + b;
      KeepAppend(a[1..], b);
    }
  }

  /** `normalizeFilename`: trim, collapse white-space runs to dashes, keep
      `[a-zA-Z0-9-_]`, lower-case, cut to 50 characters.  The result is a
      valid file-name stem of at most 50 characters. */
  function NormalizeFilename(title: string): (r: string)
    ensures IsNormal(r)
  {
    var lowered := ToLower(KeepFilenameChars(CollapseSpaces(Trim(title))));
    if |lowered| > MaxFilenameLength then lowered[..MaxFilenameLength] else lowered
  }

  /** A worked title: the run of two spaces becomes one dash and the capital
      is lowered. */
  lemma NormalizeExample()
    ensures NormalizeFilename("A  b") == "a-b"
  {
    ExampleCollapsed();
    ExampleLowered();
  }

  lemma ExampleCollapsed()
    ensures CollapseSpaces(Trim("A  b")) == "A-b"
  {
    var title := "A  b";
    assert title == "A" + "  " + "b";
    assert TrimStart(title) == title;
    assert TrimEnd(title) == title;
    CollapseRun("A", "  ", "b");
    assert CollapseSpaces("A") == "A" && CollapseSpaces("b") == "b";
  }

  lemma ExampleLowered()
    ensures ToLower(KeepFilenameChars("A-b")) == "a-b"
  {
    assert KeepFilenameChars("A-b") == "A-b";
    var lowered := ToLower("A-b");
    assert lowered[0] == 'a' && lowered[1] == '-' && lowered[2] == 'b';
  }

  /** A string that is already a normalised stem is left unchanged. */
  lemma NormalFixed(s: string)
    requires IsNormal(s)
    ensures NormalizeFilename(s) == s
  {
    assert NoSpace(s);
    TrimNoSpace(s);
    assert KeepFilenameChars(CollapseSpaces(Trim(s))) == s;
    assert ToLower(s) == s;
  }

  /** `normalizeFilename` is idempotent. */
  lemma NormalizeIdempotent(title: string)
    ensures NormalizeFilename(NormalizeFilename(title)) == NormalizeFilename(title)
  {
    NormalFixed(NormalizeFilename(title));
  }

  /** `generateFilename`: the normalised title plus `.md`, or, for a title
      that is empty or normalises to nothing, `jot-` plus the formatted
      local time (`stamp`, `%Y%m%d-%H%M%S`) plus `.md`. */
  function GenerateFilename(title: string, stamp: string): (r: string)
    ensures |r| >= 3 && r[|r| - 3..] == ".md"
    ensures NormalizeFilename(title) != [] ==> r[..|r| - 3] == NormalizeFilename(title)
    ensures NormalizeFilename(title) == [] ==> r == "jot-" + stamp + ".md"
  {
    NormalizeEmpty();
    if title != [] && NormalizeFilename(title) != [] then NormalizeFilename(title) + ".md"
    else "jot-" + stamp + ".md"
  }

  lemma NormalizeEmpty()
    ensures NormalizeFilename([]) == []
  {
    assert Trim([]) == [];
  }

  /** A title and its normalised form name the same file. */
  lemma GenerateFromNormalized(title: string, stamp: string)
    ensures GenerateFilename(NormalizeFilename(title), stamp) == GenerateFilename(title, stamp)
  {
    NormalizeIdempotent(title);
  }

  // ---------------------------------------------------------------------
  // The envelope

  /** The text `saveNote` and `saveToFile` write: a `# title` heading and a
      blank line when the title is non-empty, then the creation line, a
      blank line, the content and a final newline. */
  function Envelope(title: string, timestamp: string, content: string): (r: string)
    ensures title != [] ==> StartsWith(r, "# ")
    ensures title == [] ==> StartsWith(r, "*Created: ")
  {
    (if title != [] then "# " + title + "\n\n" else []) + "*Created: " + timestamp + "*\n\n" + content + "\n"
  }

  // ---------------------------------------------------------------------
  // Parsing

  /** A parsed note; the file's path and base name, which come from the file
      object, are not part of this model. */
  datatype Note = Note(title: string, content: string)

  /** The cursor after skipping blank lines from i. */
  function SkipBlank(lines: seq<string>, i: nat): (j: nat)
    requires i <= |lines|
    ensures i <= j <= |lines|
    ensures forall k :: i <= k < j ==> AllSpace(lines[k])
    ensures j < |lines| ==> !AllSpace(lines[j])
    decreases |lines| - i
  {
    if i < |lines| && AllSpace(lines[i]) then SkipBlank(lines, i + 1) else i
  }

  /** Where the content starts: line 0 without a `# ` heading; with one,
      after the blank lines, an optional `*Created:` line and the blank
      lines after it. */
  function ContentStart(lines: seq<string>): (c: nat)
    requires |lines| >= 1
    ensures c <= |lines|
  {
    if !StartsWith(lines[0], "# ") then 0
    else
      var afterTitle := SkipBlank(lines, 1);
      if afterTitle < |lines| && StartsWith(lines[afterTitle], "*Created:") then SkipBlank(lines, afterTitle + 1)
      else afterTitle
  }

  /** The cursor after a heading, described line by line: it stops at a
      non-blank line or the end; every non-blank line it passed starts with
      `*Created:` and is the first non-blank line after the heading; and it
      stops on a `*Created:` line only when it has already passed one. */
  lemma TitledContentStart(lines: seq<string>)
    requires |lines| >= 1 && StartsWith(lines[0], "# ")
    ensures var c := ContentStart(lines);
      && 1 <= c <= |lines|
      && (c < |lines| ==> !AllSpace(lines[c]))
      && (forall k :: 1 <= k < c && !AllSpace(lines[k]) ==>
            StartsWith(lines[k], "*Created:") && forall m :: 1 <= m < k ==> AllSpace(lines[m]))
      && (c < |lines| && StartsWith(lines[c], "*Created:") ==> exists k :: 1 <= k < c && !AllSpace(lines[k]))
  {
    var a := SkipBlank(lines, 1);
    if a < |lines| && StartsWith(lines[a], "*Created:") {
      var c := SkipBlank(lines, a + 1);
      assert ContentStart(lines) == c;
      forall k | 1 <= k < c && !AllSpace(lines[k])
        ensures StartsWith(lines[k], "*Created:") && forall m :: 1 <= m < k ==> AllSpace(lines[m])
      {
        assert k == a;
      }
    } else {
      assert ContentStart(lines) == a;
    }
  }

  /** `parseFileContent` as a value. */
  function Parse(text: string): Note {
    var lines := Split(text);
    Note(if StartsWith(lines[0], "# ") then Trim(lines[0][2..]) else [], Join(lines[ContentStart(lines)..]))
  }

  /** `parseFileContent`: split into lines, peel off the heading, the blank
      lines, the creation line and the blank lines, and join the rest. */
  method ParseFileContent(text: string) returns (note: Note)
    ensures note == Parse(text)
  {
    var lines := Split(text);
    var title := "";
    var contentStart := 0;
    if StartsWith(lines[0], "# ") {
      title := Trim(lines[0][2..]);
      contentStart := 1;
      while contentStart < |lines| && AllSpace(lines[contentStart])
        invariant 1 <= contentStart <= |lines|
        invariant SkipBlank(lines, contentStart) == SkipBlank(lines, 1)
        decreases |lines| - contentStart
      {
        contentStart := contentStart + 1;
      }
      SkipBlankStops(lines, contentStart);
      ghost var afterTitle := contentStart;
      if contentStart < |lines| && StartsWith(lines[contentStart], "*Created:") {
        contentStart := contentStart + 1;
        ghost var afterCreated := contentStart;
        while contentStart < |lines| && AllSpace(lines[contentStart])
          invariant afterCreated <= contentStart <= |lines|
          invariant SkipBlank(lines, contentStart) == SkipBlank(lines, afterCreated)
          decreases |lines| - contentStart
        {
          contentStart := contentStart + 1;
        }
        SkipBlankStops(lines, contentStart);
      }
      TitledStart(lines, afterTitle, contentStart);
    } else {
      UntitledStart(lines);
    }
    note := Note(title, Join(lines[contentStart..]));
  }

  lemma SkipBlankStops(lines: seq<string>, i: nat)
    requires i <= |lines| && !(i < |lines| && AllSpace(lines[i]))
    ensures SkipBlank(lines, i) == i
  {
  }

  lemma UntitledStart(lines: seq<string>)
    requires |lines| >= 1 && !StartsWith(lines[0], "# ")
    ensures ContentStart(lines) == 0
  {
  }

  lemma TitledStart(lines: seq<string>, a: nat, c: nat)
    requires |lines| >= 1 && StartsWith(lines[0], "# ") && a == SkipBlank(lines, 1)
    requires if a < |lines| && StartsWith(lines[a], "*Created:") then a < c <= |lines| && c == SkipBlank(lines, a + 1) else c == a
    ensures ContentStart(lines) == c
  {
  }

  /** Text whose first line is not a `# ` heading parses to an untitled note
      whose content is the whole text. */
  lemma ParseUntitled(text: string)
    requires !StartsWith(text, "# ")
    ensures Parse(text) == Note([], text)
  {
    var lines := Split(text);
    FirstLinePrefix(text, "# ");
    assert lines[0..] == lines;
    JoinSplit(text);
  }

  /** So an untitled note keeps its creation line as content on reload. */
  lemma UntitledEnvelopeKeepsCreatedLine(timestamp: string, content: string)
    ensures Parse(Envelope([], timestamp, content)) == Note([], Envelope([], timestamp, content))
  {
    var text := Envelope([], timestamp, content);
    assert text[0] == '*';
    ParseUntitled(text);
  }

  /** Joining one more empty line appends a newline. */
  lemma {:induction false} JoinSnocEmpty(lines: seq<string>)
    requires lines != []
    ensures Join(lines + [[]]) == Join(lines) + "\n"
  {
    if |lines| == 1 {
      assert lines + [[]] == [lines[0], []];
    } else {
      JoinSnocEmpty(lines[1..]);
      assert (lines + [[]])[1..] == lines[1..] + [[]];
    }
  }

  /** The lines of a titled envelope. */
  lemma EnvelopeLines(title: string, timestamp: string, content: string)
    requires title != [] && NoNewline(title) && NoNewline(timestamp)
    ensures Split(Envelope(title, timestamp, content))
      == ["# " + title, [], "*Created: " + timestamp + "*", []] + (Split(content) + [[]])
  {
    var heading := "# " + title;
    var created := "*Created: " + timestamp + "*";
    assert NoNewline(heading) && NoNewline(created);
    var b4 := content + "\n" + [];
    var b3 := [] + "\n" + b4;
    var b2 := created + "\n" + b3;
    var b1 := [] + "\n" + b2;
    assert Envelope(title, timestamp, content) == heading + "\n" + b1;
    SplitAtNewline(heading, b1);
    SplitAtNewline([], b2);
    SplitAtNewline(created, b3);
    SplitAtNewline([], b4);
    SplitAtNewline(content, []);
    SplitOneLine(heading);
    SplitOneLine(created);
  }

  /** One blank line followed by a non-blank one is skipped exactly. */
  lemma SkipOneBlank(lines: seq<string>, i: nat)
    requires i + 1 < |lines| && lines[i] == [] && !AllSpace(lines[i + 1])
    ensures SkipBlank(lines, i) == i + 1
  {
    assert AllSpace(lines[i]);
  }

  /** A line that starts with a non-space character is not blank. */
  lemma NotBlank(line: string)
    requires |line| > 0 && !IsSpace(line[0])
    ensures !AllSpace(line)
  {
  }

  /** The cursor of a titled envelope stops at line 4. */
  lemma EnvelopeContentStart(lines: seq<string>)
    requires |lines| >= 5 && StartsWith(lines[0], "# ")
    requires lines[1] == [] && lines[3] == []
    requires StartsWith(lines[2], "*Created:") && !AllSpace(lines[4])
    ensures ContentStart(lines) == 4
  {
    NotBlank(lines[2]);
    SkipOneBlank(lines, 1);
    SkipOneBlank(lines, 3);
  }

  /** Saving then loading: a titled note whose content does not start with a
      blank line reads back with the trimmed title and the content plus the
      newline the envelope appends. */
  lemma RoundTrip(title: string, timestamp: string, content: string)
    requires title != [] && NoNewline(title) && NoNewline(timestamp)
    requires !AllSpace(Split(content)[0])
    ensures Parse(Envelope(title, timestamp, content)) == Note(Trim(title), content + "\n")
  {
    var heading := "# " + title;
    var created := "*Created: " + timestamp + "*";
    var lines := Split(Envelope(title, timestamp, content));
    EnvelopeLines(title, timestamp, content);
    var header: seq<string> := [heading, [], created, []];
    var body := Split(content) + [[]];
    assert lines == header + body;
    assert lines[0] == heading && heading[2..] == title;
    assert lines[2] == created && created[..9] == "*Created:";
    assert lines[4] == Split(content)[0];
    EnvelopeContentStart(lines);
    assert lines[|header|..] == body;
    JoinSnocEmpty(Split(content));
    JoinSplit(content);
  }
}
