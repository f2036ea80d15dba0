/** The highlighter of the search service: it escapes a text for Pango
    markup and wraps every maximal run of matched positions in one bold,
    coloured `<span>`. */
module Highlighter {
  import opened JsString

  // ---------------------------------------------------------------------
  // GLib.markup_escape_text

  /** The control characters GLib writes as a numeric character reference. */
  predicate IsEscapedControl(c: char) {
    ('\U{1}' <= c <= '\U{8}') || ('\U{B}' <= c <= '\U{C}') || ('\U{E}' <= c <= '\U{1F}')
    || ('\U{7F}' <= c <= '\U{84}') || ('\U{86}' <= c <= '\U{9F}')
  }

  function HexDigit(d: nat): (r: char)
    requires d < 16
    ensures ('0' <= r <= '9') || ('a' <= r <= 'f')
  {
    if d < 10 then ('0' as int + d) as char else ('a' as int + d - 10) as char
  }

  /** `%x` formatting of a number below 256: lower-case, no leading zero. */
  function Hex(n: nat): (r: string)
    requires n < 256
    ensures 1 <= |r| <= 2
    ensures forall i :: 0 <= i < |r| ==> ('0' <= r[i] <= '9') || ('a' <= r[i] <= 'f')
  {
    if n < 16 then [HexDigit(n)] else [HexDigit(n / 16), HexDigit(n % 16)]
  }

  /** `GLib.markup_escape_text` on one character: the five markup-significant
      characters become entity references, the listed control characters
      become `&#x..;`, anything else is kept.  The result is never empty and
      never contains an angle bracket. */
  function EscapeChar(c: char): (r: string)
    ensures r != []
    ensures forall i :: 0 <= i < |r| ==> r[i] != '<' && r[i] != '>'
  {
    if c == '&' then "&amp;"
    else if c == '<' then "&lt;"
    else if c == '>' then "&gt;"
    else if c == '\'' then "&#39;"
    else if c == '"' then "&quot;"
    else if IsEscapedControl(c) then "&#x" + Hex(c as int) + ";"
    else [c]
  }

  /** `GLib.markup_escape_text` on a whole text: the concatenation of the
      escapes of its characters.  No angle bracket survives, so every `<`
      in markup built from escaped text belongs to a tag. */
  function Escape(s: string): (r: string)
    ensures |r| >= |s|
    ensures forall i :: 0 <= i < |r| ==> r[i] != '<' && r[i] != '>'
  {
    if s == [] then []
    else Escape(s[..|s| - 1]) + EscapeChar(s[|s| - 1])
  }

  // ---------------------------------------------------------------------
  // Markup as a sequence of pieces

  /** A piece of highlighter output: a span opening tag carrying the colour,
      a span closing tag, or one character of the text, written escaped. */
  datatype Piece = Open(color: string) | Close | Text(c: char)

  function OpenTag(color: string): string {
    "<span foreground=\"" + color + "\" weight=\"bold\">"
  }

  const CloseTag: string := "</span>"

  function RenderPiece(p: Piece): string {
    match p
    case Open(color) => OpenTag(color)
    case Close => CloseTag
    case Text(c) => EscapeChar(c)
  }

  /** The markup string a sequence of pieces spells. */
  function Render(ps: seq<Piece>): string {
    if ps == [] then [] else RenderPiece(ps[0]) + Render(ps[1..])
  }

  /** The pieces with every span tag deleted. */
  function TextOnly(ps: seq<Piece>): seq<Piece> {
    if ps == [] then []
    else (if ps[0].Text? then [ps[0]] else []) + TextOnly(ps[1..])
  }

  /** Walking the pieces with the state "inside a span": None once a span
      opens inside a span or a close has nothing to close. */
  function SpanState(ps: seq<Piece>): Option<bool> {
    if ps == [] then Some(false)
    else
      match SpanState(ps[..|ps| - 1])
      case None => None
      case Some(inside) =>
        match ps[|ps| - 1]
        case Open(_) => if inside then None else Some(true)
        case Close => if inside then Some(false) else None
        case Text(_) => Some(inside)
  }

  /** Spans never nest, every close closes an open span, and none is left
      open at the end. */
  predicate WellFormed(ps: seq<Piece>) {
    SpanState(ps) == Some(false)
  }

  /** For each text piece, in order, whether it sits inside a span. */
  function Emphasis(ps: seq<Piece>): seq<bool> {
    if ps == [] then []
    else
      var init := ps[..|ps| - 1];
      Emphasis(init) + (if ps[|ps| - 1].Text? then [SpanState(init) == Some(true)] else [])
  }

  function Opens(ps: seq<Piece>): nat {
    if ps == [] then 0 else Opens(ps[..|ps| - 1]) + (if ps[|ps| - 1].Open? then 1 else 0)
  }

  // ---------------------------------------------------------------------
  // What the highlighter writes

  /** The tag written before character i: a span opens where a run of
      matched positions starts and closes where one ends. */
  function TagAt(matched: set<int>, color: string, i: nat): seq<Piece> {
    var here := i in matched;
    var prev := i > 0 && i - 1 in matched;
    if here && !prev then [Open(color)] else if !here && prev then [Close] else []
  }

  /** The pieces written for the first n characters: each character's tag,
      then the character. */
  function PiecesBefore(text: string, matched: set<int>, color: string, n: nat): seq<Piece>
    requires n <= |text|
  {
    if n == 0 then []
    else PiecesBefore(text, matched, color, n - 1) + TagAt(matched, color, n - 1) + [Text(text[n - 1])]
  }

  /** All pieces, with a span still open after the last character closed. */
  function Highlighted(text: string, matched: set<int>, color: string): seq<Piece> {
    PiecesBefore(text, matched, color, |text|)
    + (if |text| > 0 && |text| - 1 in matched then [Close] else [])
  }

  /** `highlightMatchesWithColor(text, matchIndices, color)`.  A missing
      index list is `None`. */
  method HighlightMatchesWithColor(text: string, matchIndices: Option<seq<int>>, color: string)
    returns (result: string)
    ensures matchIndices.None? || matchIndices.value == [] ==> result == Escape(text)
    ensures matchIndices.Some? && matchIndices.value != [] ==>
      result == Render(Highlighted(text, (set i | i in matchIndices.value), color))
  {
    if matchIndices.None? || |matchIndices.value| == 0 {
      return Escape(text);
    }
    result := "";
    var matchSet := set i | i in matchIndices.value;
    var inHighlight := false;
    for i := 0 to |text|
      invariant inHighlight == (i > 0 && i - 1 in matchSet)
      invariant result == Render(PiecesBefore(text, matchSet, color, i))
    {
      var isMatch := i in matchSet;
      var ch := EscapeChar(text[i]);
      LoopStep(text, matchSet, color, i);
      if isMatch && !inHighlight {
        result := result + OpenTag(color);
        inHighlight := true;
      } else if !isMatch && inHighlight {
        result := result + CloseTag;
        inHighlight := false;
      }
      result := result + ch;
    }
    ghost var all := PiecesBefore(text, matchSet, color, |text|);
    if inHighlight {
      result := result + CloseTag;
      RenderAppend(all, [Close]);
      RenderOne(Close);
    } else {
      assert Highlighted(text, matchSet, color) == all;
    }
  }

  // ---------------------------------------------------------------------
  // Rendering, stripping and walking pieces, one step at a time

  lemma EscapeSnoc(text: string, i: nat)
    requires i < |text|
    ensures Escape(text[..i + 1]) == Escape(text[..i]) + EscapeChar(text[i])
  {
    assert text[..i + 1][..i] == text[..i];
  }

  lemma RenderOne(p: Piece)
    ensures Render([p]) == RenderPiece(p)
  {
    assert [p][1..] == [];
  }

  lemma {:induction false} RenderAppend(a: seq<Piece>, b: seq<Piece>)
    ensures Render(a + b) == Render(a) + Render(b)
  {
    if a == [] {
      assert a + b == b;
    } else {
      var head, rest := RenderPiece(a[0]), Render(a[1..]);
      assert (a + b)[0] == a[0];
      assert (a + b)[1..] == a[1..] + b;
      RenderAppend(a[1..], b);
      assert Render(a + b) == head + (rest + Render(b));
      assert Render(a) == head + rest;
      Assoc(head, rest, Render(b));
    }
  }

  lemma {:induction false} TextOnlyAppend(a: seq<Piece>, b: seq<Piece>)
    ensures TextOnly(a + b) == TextOnly(a) + TextOnly(b)
  {
    if a == [] {
      assert a + b == b;
    } else {
      var head, rest := if a[0].Text? then [a[0]] else [], TextOnly(a[1..]);
      assert (a + b)[0] == a[0];
      assert (a + b)[1..] == a[1..] + b;
      TextOnlyAppend(a[1..], b);
      assert TextOnly(a + b) == head + (rest + TextOnly(b));
      Assoc(head, rest, TextOnly(b));
    }
  }

  lemma RenderTag(matched: set<int>, color: string, i: nat)
    ensures var here := i in matched;
      var prev := i > 0 && i - 1 in matched;
      Render(TagAt(matched, color, i))
        == if here && !prev then OpenTag(color) else if !here && prev then CloseTag else []
    ensures TextOnly(TagAt(matched, color, i)) == []
  {
    var tag := TagAt(matched, color, i);
    if tag != [] {
      assert tag[1..] == [];
    }
  }

  lemma RenderStep(text: string, matched: set<int>, color: string, i: nat)
    requires i < |text|
    ensures Render(PiecesBefore(text, matched, color, i + 1))
      == Render(PiecesBefore(text, matched, color, i)) + Render(TagAt(matched, color, i)) + EscapeChar(text[i])
  {
    var before := PiecesBefore(text, matched, color, i);
    var tag := TagAt(matched, color, i);
    var t := Text(text[i]);
    assert PiecesBefore(text, matched, color, i + 1) == (before + tag) + [t];
    RenderAppend(before + tag, [t]);
    RenderAppend(before, tag);
    RenderOne(t);
  }

  lemma TextOnlyStep(text: string, matched: set<int>, color: string, i: nat)
    requires i < |text|
    ensures TextOnly(PiecesBefore(text, matched, color, i + 1))
      == TextOnly(PiecesBefore(text, matched, color, i)) + [Text(text[i])]
  {
    var before := PiecesBefore(text, matched, color, i);
    var tag := TagAt(matched, color, i);
    var t := Text(text[i]);
    assert PiecesBefore(text, matched, color, i + 1) == (before + tag) + [t];
    TextOnlyAppend(before + tag, [t]);
    TextOnlyAppend(before, tag);
    RenderTag(matched, color, i);
    assert [t][1..] == [];
    assert TextOnly(before) + [] == TextOnly(before);
  }

  /** One turn of the highlighter's loop on the rendered string. */
  lemma LoopStep(text: string, matched: set<int>, color: string, i: nat)
    requires i < |text|
    ensures var here, prev := i in matched, i > 0 && i - 1 in matched;
      var before, after := Render(PiecesBefore(text, matched, color, i)), Render(PiecesBefore(text, matched, color, i + 1));
      && (here && !prev ==> after == before + OpenTag(color) + EscapeChar(text[i]))
      && (!here && prev ==> after == before + CloseTag + EscapeChar(text[i]))
      && (here == prev ==> after == before + EscapeChar(text[i]))
  {
    RenderStep(text, matched, color, i);
    RenderTag(matched, color, i);
    var before := Render(PiecesBefore(text, matched, color, i));
    assert before + [] == before;
  }

  lemma StateSnoc(ps: seq<Piece>, p: Piece)
    ensures Emphasis(ps + [p]) == Emphasis(ps) + (if p.Text? then [SpanState(ps) == Some(true)] else [])
    ensures Opens(ps + [p]) == Opens(ps) + (if p.Open? then 1 else 0)
    ensures SpanState(ps + [p]) == match SpanState(ps)
      case None => None
      case Some(inside) =>
        match p
        case Open(_) => if inside then None else Some(true)
        case Close => if inside then Some(false) else None
        case Text(_) => Some(inside)
  {
    assert (ps + [p])[..|ps|] == ps;
  }

  // ---------------------------------------------------------------------
  // Properties

  lemma {:induction false} StripPrefix(text: string, matched: set<int>, color: string, n: nat)
    requires n <= |text|
    ensures Render(TextOnly(PiecesBefore(text, matched, color, n))) == Escape(text[..n])
  {
    if n > 0 {
      var i := n - 1;
      var before := PiecesBefore(text, matched, color, i);
      StripPrefix(text, matched, color, i);
      TextOnlyStep(text, matched, color, i);
      RenderAppend(TextOnly(before), [Text(text[i])]);
      RenderOne(Text(text[i]));
      EscapeSnoc(text, i);
    }
  }

  /** Deleting every span tag from the highlighter's output leaves exactly
      the escaped text: the markup changes emphasis, never content. */
  lemma StripMarkersGivesEscapedText(text: string, matched: set<int>, color: string)
    ensures Render(TextOnly(Highlighted(text, matched, color))) == Escape(text)
  {
    var all := PiecesBefore(text, matched, color, |text|);
    StripPrefix(text, matched, color, |text|);
    if |text| > 0 && |text| - 1 in matched {
      TextOnlyAppend(all, [Close]);
      assert [Close][1..] == [];
      assert TextOnly([Close]) == [];
      assert TextOnly(all) + [] == TextOnly(all);
    } else {
      assert Highlighted(text, matched, color) == all;
    }
    assert text[..|text|] == text;
  }

  /** How many of the first n positions start a run of matched positions. */
  function RunStarts(matched: set<int>, n: nat): nat {
    if n == 0 then 0
    else
      var i := n - 1;
      RunStarts(matched, i) + (if i in matched && !(i > 0 && i - 1 in matched) then 1 else 0)
  }

  /** One character's tag and text, walked from the state the previous
      character left: the text piece is emphasised exactly when the
      character is matched, and a span opens exactly when a run starts. */
  lemma TagStep(before: seq<Piece>, matched: set<int>, color: string, i: nat, t: Piece)
    requires t.Text?
    requires SpanState(before) == Some(i > 0 && i - 1 in matched)
    ensures var after := before + TagAt(matched, color, i) + [t];
      && SpanState(after) == Some(i in matched)
      && Emphasis(after) == Emphasis(before) + [i in matched]
      && Opens(after) == Opens(before) + (if i in matched && !(i > 0 && i - 1 in matched) then 1 else 0)
  {
    var here := i in matched;
    var prev := i > 0 && i - 1 in matched;
    if here && !prev {
      StateSnoc(before, Open(color));
      StateSnoc(before + [Open(color)], t);
    } else if !here && prev {
      StateSnoc(before, Close);
      StateSnoc(before + [Close], t);
    } else {
      assert before + TagAt(matched, color, i) == before;
      StateSnoc(before, t);
    }
  }

  lemma {:induction false} StatePrefix(text: string, matched: set<int>, color: string, n: nat)
    requires n <= |text|
    ensures SpanState(PiecesBefore(text, matched, color, n)) == Some(n > 0 && n - 1 in matched)
  {
    if n > 0 {
      var i := n - 1;
      var before := PiecesBefore(text, matched, color, i);
      assert PiecesBefore(text, matched, color, n) == before + TagAt(matched, color, i) + [Text(text[i])];
      StatePrefix(text, matched, color, i);
      TagStep(before, matched, color, i, Text(text[i]));
    }
  }

  lemma {:induction false} EmphasisPrefix(text: string, matched: set<int>, color: string, n: nat)
    requires n <= |text|
    ensures var e := Emphasis(PiecesBefore(text, matched, color, n));
      |e| == n && forall i :: 0 <= i < n ==> e[i] == (i in matched)
  {
    if n > 0 {
      var i := n - 1;
      var before := PiecesBefore(text, matched, color, i);
      assert PiecesBefore(text, matched, color, n) == before + TagAt(matched, color, i) + [Text(text[i])];
      EmphasisPrefix(text, matched, color, i);
      StatePrefix(text, matched, color, i);
      TagStep(before, matched, color, i, Text(text[i]));
      EmphasisSnoc(Emphasis(before), matched, i);
    }
  }

  lemma EmphasisSnoc(e: seq<bool>, matched: set<int>, n: nat)
    requires |e| == n && forall i :: 0 <= i < n ==> e[i] == (i in matched)
    ensures var e' := e + [n in matched];
      |e'| == n + 1 && forall i :: 0 <= i < n + 1 ==> e'[i] == (i in matched)
  {
  }

  lemma {:induction false} OpensPrefix(text: string, matched: set<int>, color: string, n: nat)
    requires n <= |text|
    ensures Opens(PiecesBefore(text, matched, color, n)) == RunStarts(matched, n)
  {
    if n > 0 {
      var i := n - 1;
      var before := PiecesBefore(text, matched, color, i);
      assert PiecesBefore(text, matched, color, n) == before + TagAt(matched, color, i) + [Text(text[i])];
      OpensPrefix(text, matched, color, i);
      StatePrefix(text, matched, color, i);
      TagStep(before, matched, color, i, Text(text[i]));
    }
  }

  /** The output is well formed: spans balance and never nest. */
  lemma HighlightedWellFormed(text: string, matched: set<int>, color: string)
    ensures WellFormed(Highlighted(text, matched, color))
  {
    var all := PiecesBefore(text, matched, color, |text|);
    StatePrefix(text, matched, color, |text|);
    if |text| > 0 && |text| - 1 in matched {
      StateSnoc(all, Close);
    } else {
      assert Highlighted(text, matched, color) == all;
    }
  }

  /** Character i is emphasised exactly when i is a matched position, and
      one span opens per maximal run of consecutive matched positions. */
  lemma HighlightedEmphasis(text: string, matched: set<int>, color: string)
    ensures var e := Emphasis(Highlighted(text, matched, color));
      |e| == |text| && forall i :: 0 <= i < |text| ==> e[i] == (i in matched)
    ensures Opens(Highlighted(text, matched, color)) == RunStarts(matched, |text|)
  {
    var all := PiecesBefore(text, matched, color, |text|);
    StatePrefix(text, matched, color, |text|);
    EmphasisPrefix(text, matched, color, |text|);
    OpensPrefix(text, matched, color, |text|);
    if |text| > 0 && |text| - 1 in matched {
      StateSnoc(all, Close);
    } else {
      assert Highlighted(text, matched, color) == all;
    }
  }

  lemma {:induction false} NoMatchPrefix(text: string, matched: set<int>, color: string, n: nat)
    requires n <= |text|
    requires forall i :: i in matched ==> i < 0 || i >= |text|
    ensures Render(PiecesBefore(text, matched, color, n)) == Escape(text[..n])
  {
    if n > 0 {
      var i := n - 1;
      NoMatchPrefix(text, matched, color, i);
      PlainStep(text, matched, color, i);
      EscapeSnoc(text, i);
    }
  }

  lemma PlainStep(text: string, matched: set<int>, color: string, i: nat)
    requires i < |text| && i !in matched && (i > 0 ==> i - 1 !in matched)
    ensures Render(PiecesBefore(text, matched, color, i + 1))
      == Render(PiecesBefore(text, matched, color, i)) + EscapeChar(text[i])
  {
    RenderStep(text, matched, color, i);
    assert TagAt(matched, color, i) == [];
    var before := Render(PiecesBefore(text, matched, color, i));
    assert before + Render([]) == before;
  }

  /** When no listed index falls inside the text, the output is the plain
      escaped text, as for an empty list. */
  lemma NoMatchInRangeIsPlain(text: string, matched: set<int>, color: string)
    requires forall i :: i in matched ==> i < 0 || i >= |text|
    ensures Render(Highlighted(text, matched, color)) == Escape(text)
  {
    var all := PiecesBefore(text, matched, color, |text|);
    assert Highlighted(text, matched, color) == all by {
      assert !(|text| > 0 && |text| - 1 in matched);
    }
    NoMatchPrefix(text, matched, color, |text|);
    assert text[..|text|] == text;
  }
}
