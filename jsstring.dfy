/** The JavaScript string built-ins the services rely on: the `\s` and `\w`
    regular-expression classes, `trim`, `toLowerCase`, `startsWith`, and
    `split('\n')` / `join('\n')`.  A string here is a `seq<char>`, a sequence
    of Unicode scalar values, and positions count those values.  JavaScript
    indexes strings by UTF-16 code units; the two agree on text inside the
    Basic Multilingual Plane, which is the text this model covers. */
module JsString {

  datatype Option<+T> = None | Some(value: T)

  /** JavaScript's `\s` class, which is also the set of characters that
      `String.prototype.trim` removes (WhiteSpace and LineTerminator). */
  predicate IsSpace(c: char) {
    c == '\t' || c == '\n' || c == '\U{000B}' || c == '\U{000C}' || c == '\r' || c == ' '
    || c == '\U{00A0}' || c == '\U{1680}' || ('\U{2000}' <= c <= '\U{200A}')
    || c == '\U{2028}' || c == '\U{2029}' || c == '\U{202F}' || c == '\U{205F}'
    || c == '\U{3000}' || c == '\U{FEFF}'
  }

  /** JavaScript's `\w` class (without the `u` flag): `[A-Za-z0-9_]`. */
  predicate IsWordChar(c: char) {
    ('A' <= c <= 'Z') || ('a' <= c <= 'z') || ('0' <= c <= '9') || c == '_'
  }

  predicate AllWordChars(s: string) {
    forall i :: 0 <= i < |s| ==> IsWordChar(s[i])
  }

  predicate NoSpace(s: string) {
    forall i :: 0 <= i < |s| ==> !IsSpace(s[i])
  }

  predicate NoNewline(s: string) {
    forall i :: 0 <= i < |s| ==> s[i] != '\n'
  }

  /** `toLowerCase` on one character, restricted to ASCII letters. */
  function ToLowerChar(c: char): (r: char)
    ensures 'A' <= c <= 'Z' ==> 'a' <= r <= 'z' && r as int == c as int + 32
    ensures !('A' <= c <= 'Z') ==> r == c
  {
    if 'A' <= c <= 'Z' then (c as int + 32) as char else c
  }

  /** `toLowerCase` on a string: character by character, so it keeps the length
      and every index means the same character before and after. */
  function ToLower(s: string): (r: string)
    ensures |r| == |s|
    ensures forall i :: 0 <= i < |s| ==> r[i] == ToLowerChar(s[i])
  {
    seq(|s|, i requires 0 <= i < |s| => ToLowerChar(s[i]))
  }

  predicate StartsWith(s: string, prefix: string) {
    |prefix| <= |s| && s[..|prefix|] == prefix
  }

  function TrimStart(s: string): (r: string)
    ensures |r| <= |s| && r == s[|s| - |r|..]
    ensures r != [] ==> !IsSpace(r[0])
    ensures forall i :: 0 <= i < |s| - |r| ==> IsSpace(s[i])
    ensures s != [] && IsSpace(s[0]) ==> |r| < |s|
  {
    if s != [] && IsSpace(s[0]) then TrimStart(s[1..]) else s
  }

  function TrimEnd(s: string): (r: string)
    ensures |r| <= |s| && r == s[..|r|]
    ensures r != [] ==> !IsSpace(r[|r| - 1])
    ensures forall i :: |r| <= i < |s| ==> IsSpace(s[i])
  {
    if s != [] && IsSpace(s[|s| - 1]) then TrimEnd(s[..|s| - 1]) else s
  }

  /** Concatenation is associative (stated for the solver, which otherwise
      needs extensionality in a crowded context). */
  lemma Assoc<T>(x: seq<T>, y: seq<T>, z: seq<T>)
    ensures x + (y + z) == (x + y) + z
  {
  }

  /** Regrouping after a rewrite: if `whole` is `h` before a `rest` made of
      `x`, `d` and `y`, and `part` is `h` before `x`, then `whole` is `part`
      before `d` and `y`. */
  lemma Rejoin<T>(whole: seq<T>, part: seq<T>, h: seq<T>, x: seq<T>, d: seq<T>, y: seq<T>)
    requires whole == h + (x + d + y) && part == h + x
    ensures whole == part + d + y
  {
  }

  /** An empty sequence in front changes nothing. */
  lemma EmptyFront<T>(e: seq<T>, d: seq<T>, y: seq<T>)
    requires e == []
    ensures e + d + y == d + y
  {
  }

  /** A sequence is its prefix followed by its suffix at any cut. */
  lemma SplitAt<T>(s: seq<T>, n: nat)
    requires n <= |s|
    ensures s == s[..n] + s[n..]
  {
  }

  /** Leading white space followed by the end or by a non-space character
      is exactly what `TrimStart` (and a greedy `\s*`) removes. */
  lemma {:induction false} TrimStartOver(sp: string, rest: string)
    requires AllSpace(sp) && (rest == [] || !IsSpace(rest[0]))
    ensures TrimStart(sp + rest) == rest
  {
    if sp == [] {
      assert sp + rest == rest;
    } else {
      assert (sp + rest)[0] == sp[0];
      assert (sp + rest)[1..] == sp[1..] + rest;
      TrimStartOver(sp[1..], rest);
    }
  }

  /** Leading white space is stripped from the front only: text after a
      non-space character is kept as it is. */
  lemma {:induction false} TrimStartAppend(a: string, x: string)
    requires !AllSpace(a)
    ensures TrimStart(a + x) == TrimStart(a) + x
  {
    assert a != [];
    assert (a + x)[0] == a[0];
    if IsSpace(a[0]) {
      assert (a + x)[1..] == a[1..] + x;
      assert !AllSpace(a[1..]) by {
        var i :| 0 <= i < |a| && !IsSpace(a[i]);
        assert a[1..][i - 1] == a[i];
      }
      TrimStartAppend(a[1..], x);
    }
  }

  /** `String.prototype.trim`. */
  function Trim(s: string): string {
    TrimEnd(TrimStart(s))
  }

  /** Every character is white space.  A line is blank in the sense of
      `!line.trim()` exactly when this holds (see BlankIffTrimsToNothing). */
  predicate AllSpace(s: string) {
    forall i :: 0 <= i < |s| ==> IsSpace(s[i])
  }

  /** A string trims to nothing exactly when every character in it is white space. */
  lemma BlankIffTrimsToNothing(s: string)
    ensures AllSpace(s) <==> Trim(s) == []
  {
    var t := TrimStart(s);
    if forall i :: 0 <= i < |s| ==> IsSpace(s[i]) {
      assert t == [];
    }
  }

  /** Trimming a string without white space changes nothing. */
  lemma TrimNoSpace(s: string)
    requires NoSpace(s)
    ensures Trim(s) == s
  {
    assert TrimStart(s) == s by {
      if s != [] { assert !IsSpace(s[0]); }
    }
    assert TrimEnd(s) == s by {
      if s != [] { assert !IsSpace(s[|s| - 1]); }
    }
  }

  /** `s.split('\n')`: the pieces between newlines, always at least one. */
  function Split(s: string): (r: seq<string>)
    ensures |r| >= 1
    ensures forall k :: 0 <= k < |r| ==> NoNewline(r[k])
  {
    if s == [] then [[]]
    else
      var rest := Split(s[1..]);
      if s[0] == '\n' then [[]] + rest
      else [[s[0]] + rest[0]] + rest[1..]
  }

  /** `lines.join('\n')`; the empty array joins to the empty string. */
  function Join(lines: seq<string>): string
  {
    if lines == [] then []
    else if |lines| == 1 then lines[0]
    else lines[0] + "\n" + Join(lines[1..])
  }

  /** Splitting and joining again on the same separator gives back the text. */
  lemma {:induction false} JoinSplit(s: string)
    ensures Join(Split(s)) == s
  {
    if s != [] {
      var rest := Split(s[1..]);
      JoinSplit(s[1..]);
      if s[0] == '\n' {
        assert Split(s) == [[]] + rest;
        assert Split(s)[1..] == rest;
        assert s == [] + "\n" + s[1..];
      } else {
        var r := Split(s);
        assert r[0] == [s[0]] + rest[0];
        assert r[1..] == rest[1..];
        if |rest| == 1 {
          assert s == [s[0]] + rest[0];
        } else {
          assert Join(rest) == rest[0] + "\n" + Join(rest[1..]);
          assert s == [s[0]] + s[1..];
        }
      }
    }
  }

  /** A text without newlines is a single line. */
  lemma {:induction false} SplitOneLine(s: string)
    requires NoNewline(s)
    ensures Split(s) == [s]
  {
    if s != [] {
      assert NoNewline(s[1..]);
      SplitOneLine(s[1..]);
      assert s == [s[0]] + s[1..];
    }
  }

  /** Splitting at a newline splits the two sides independently. */
  lemma {:induction false} SplitAtNewline(a: string, b: string)
    ensures Split(a + "\n" + b) == Split(a) + Split(b)
  {
    if a == [] {
      assert a + "\n" + b == "\n" + b;
      assert ("\n" + b)[1..] == b;
    } else {
      var s := a + "\n" + b;
      assert s[1..] == a[1..] + "\n" + b;
      SplitAtNewline(a[1..], b);
    }
  }

  /** The first line is the text up to the first newline: a prefix without
      newlines is a prefix of the first line. */
  lemma {:induction false} FirstLinePrefix(s: string, p: string)
    requires NoNewline(p)
    ensures StartsWith(s, p) <==> StartsWith(Split(s)[0], p)
  {
    if s != [] && p != [] {
      var rest := Split(s[1..]);
      FirstLinePrefix(s[1..], p[1..]);
      if s[0] == '\n' {
        assert p[0] != '\n';
      } else {
        var line := [s[0]] + rest[0];
        assert Split(s)[0] == line;
        assert StartsWith(s, p) <==> s[0] == p[0] && StartsWith(s[1..], p[1..]);
        assert StartsWith(line, p) <==> line[0] == p[0] && StartsWith(line[1..], p[1..]);
        assert line[1..] == rest[0];
      }
    } else if s == [] {
      assert Split(s)[0] == [];
    }
  }
}
