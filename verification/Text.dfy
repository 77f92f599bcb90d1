/** The parts of Python's `str` that the modelled code relies on. */
module Text {
  import Seqs

  /** `str.isspace` on one character; also what `\s` matches. */
  predicate IsSpace(c: char) {
    || '\t' <= c <= '\r'
    || '\U{1c}' <= c <= '\U{20}'
    || c in {'\U{85}', '\U{a0}', '\U{1680}', '\U{2028}', '\U{2029}', '\U{202f}', '\U{205f}', '\U{3000}'}
    || '\U{2000}' <= c <= '\U{200a}'
  }

  function LStrip(s: string): string {
    if s != [] && IsSpace(s[0]) then LStrip(s[1..]) else s
  }

  function RStrip(s: string): string {
    if s != [] && IsSpace(s[|s| - 1]) then RStrip(s[..|s| - 1]) else s
  }

  function Strip(s: string): string {
    RStrip(LStrip(s))
  }

  /** A character at which `str.splitlines` ends a line. `read_text` leaves no carriage return in a text. */
  predicate IsBreak(c: char) {
    '\n' <= c <= '\r' || '\U{1c}' <= c <= '\U{1e}' || c in {'\U{85}', '\U{2028}', '\U{2029}'}
  }

  predicate BreakFree(s: string) {
    forall c | c in s :: !IsBreak(c)
  }

  /** `splitlines(keepends=True)`. */
  function SplitLines(text: string): (lines: seq<string>)
    ensures text == [] <==> lines == []
  {
    if text == [] then []
    else
      var rest := SplitLines(text[1..]);
      if IsBreak(text[0]) || rest == [] then [[text[0]]] + rest
      else [[text[0]] + rest[0]] + rest[1..]
  }

  function Flat(lines: seq<string>): string {
    if lines == [] then [] else lines[0] + Flat(lines[1..])
  }

  /** The text is empty or its last line is ended. */
  predicate Terminated(s: string) {
    s == [] || IsBreak(s[|s| - 1])
  }

  /** A single line: not empty, with a break at most at its end. */
  predicate IsLine(s: string) {
    s != [] && forall i | 0 <= i < |s| - 1 :: !IsBreak(s[i])
  }

  predicate AreLines(lines: seq<string>) {
    && (forall line | line in lines :: IsLine(line))
    && (forall i | 0 <= i < |lines| - 1 :: Terminated(lines[i]))
  }

  lemma LongerFirst(c: char, rest: seq<string>)
    requires rest != [] && AreLines(rest) && !IsBreak(c)
    ensures var lines := [[c] + rest[0]] + rest[1..];
            AreLines(lines) && Flat(lines) == [c] + Flat(rest)
  {
    var lines := [[c] + rest[0]] + rest[1..];
    assert lines[1..] == rest[1..];
    assert IsLine(rest[0]);
    forall i | 0 <= i < |lines| - 1
      ensures Terminated(lines[i])
    {
      assert Terminated(rest[i]);
    }
    Seqs.Assoc([c], rest[0], Flat(rest[1..]));
  }

  lemma {:induction false} SplitLinesFlat(text: string)
    ensures Flat(SplitLines(text)) == text
    ensures AreLines(SplitLines(text))
  {
    if text != [] {
      SplitLinesFlat(text[1..]);
      var rest, lines := SplitLines(text[1..]), SplitLines(text);
      if IsBreak(text[0]) || rest == [] {
        assert lines[1..] == rest;
      } else {
        LongerFirst(text[0], rest);
      }
    }
  }

  lemma {:induction false} SplitLinesAppend(a: string, b: string)
    requires Terminated(a)
    ensures SplitLines(a + b) == SplitLines(a) + SplitLines(b)
  {
    if a == [] {
      assert a + b == b;
    } else {
      assert (a + b)[1..] == a[1..] + b;
      SplitLinesAppend(a[1..], b);
    }
  }

  lemma {:induction false} SplitLinesOne(line: string)
    requires IsLine(line)
    ensures SplitLines(line) == [line]
  {
    assert line == [line[0]] + line[1..];
    if |line| > 1 {
      assert IsLine(line[1..]) by {
        assert forall i | 0 <= i < |line[1..]| - 1 :: line[1..][i] == line[i + 1];
      }
      SplitLinesOne(line[1..]);
      assert !IsBreak(line[0]);
      assert SplitLines(line) == [[line[0]] + line[1..]] + [line[1..]][1..];
    } else {
      assert line[1..] == [];
      var rest := SplitLines(line[1..]);
      assert [line[0]] == line && rest == [] && [line] + rest == [line];
    }
  }

  /** `x` without breaks, then a newline, is one line. */
  lemma LineThen(x: string, rest: string)
    requires forall c | c in x :: !IsBreak(c)
    ensures SplitLines(x + "\n" + rest) == [x + "\n"] + SplitLines(rest)
  {
    SplitLinesOne(x + "\n");
    SplitLinesAppend(x + "\n", rest);
  }

  /** The unended line at the end of a text. */
  function OpenLine(text: string): string {
    if Terminated(text) then [] else OpenLine(text[..|text| - 1]) + [text[|text| - 1]]
  }

  /** A text is its ended lines and its open line. */
  lemma {:induction false} OpenLineExact(text: string)
    ensures var l := OpenLine(text);
            && |l| <= |text| && text == text[..|text| - |l|] + l
            && Terminated(text[..|text| - |l|]) && BreakFree(l)
  {
    if !Terminated(text) {
      var init := text[..|text| - 1];
      OpenLineExact(init);
      OneMore(init, OpenLine(init), text);
    }
  }

  lemma OneMore(init: string, l: string, text: string)
    requires text != [] && init == text[..|text| - 1] && |l| <= |init| && init == init[..|init| - |l|] + l
    ensures text[..|text| - |l + [text[|text| - 1]]|] == init[..|init| - |l|]
    ensures text == init[..|init| - |l|] + (l + [text[|text| - 1]])
  {
    Seqs.Assoc(init[..|init| - |l|], l, [text[|text| - 1]]);
    assert text == init + [text[|text| - 1]];
  }

  predicate Contains(text: string, part: string) {
    exists i | 0 <= i <= |text| :: part <= text[i..]
  }

  // ---- Tokens: maximal runs of ASCII letters and digits, in lower case ---------------------

  predicate IsAlnum(c: char) {
    '0' <= c <= '9' || 'A' <= c <= 'Z' || 'a' <= c <= 'z'
  }

  function LowerChar(c: char): char {
    if 'A' <= c <= 'Z' then c - 'A' + 'a' else c
  }

  function Lower(s: string): string {
    if s == [] then [] else [LowerChar(s[0])] + Lower(s[1..])
  }

  /** The tokens of `s`, of which `run` is the part already read of the current one. */
  function TokensFrom(s: string, run: string): set<string> {
    if s == [] then (if run == [] then {} else {run})
    else if IsAlnum(s[0]) then TokensFrom(s[1..], run + [LowerChar(s[0])])
    else (if run == [] then {} else {run}) + TokensFrom(s[1..], [])
  }

  function Tokens(s: string): set<string> {
    TokensFrom(s, [])
  }

  lemma {:induction false} TokensSeparate(a: string, c: char, b: string, run: string)
    requires !IsAlnum(c)
    ensures TokensFrom(a + [c] + b, run) == TokensFrom(a, run) + Tokens(b)
    decreases |a|
  {
    var s := a + [c] + b;
    if a == [] {
      assert s[1..] == b;
    } else {
      assert s[1..] == a[1..] + [c] + b;
      TokensSeparate(a[1..], c, b, if IsAlnum(a[0]) then run + [LowerChar(a[0])] else []);
    }
  }

  lemma {:induction false} TokensLStrip(s: string)
    ensures Tokens(LStrip(s)) == Tokens(s)
  {
    if s != [] && IsSpace(s[0]) {
      TokensLStrip(s[1..]);
    }
  }

  lemma {:induction false} TokensRStrip(s: string)
    ensures Tokens(RStrip(s)) == Tokens(s)
  {
    if s != [] && IsSpace(s[|s| - 1]) {
      var n := |s| - 1;
      TokensRStrip(s[..n]);
      TokensSeparate(s[..n], s[n], [], []);
      assert s == s[..n] + [s[n]] + [];
    }
  }

  lemma TokensStrip(s: string)
    ensures Tokens(Strip(s)) == Tokens(s)
  {
    TokensLStrip(s);
    TokensRStrip(LStrip(s));
  }

  // ---- Stripping ------------------------------------------------------------------------------

  lemma {:induction false} LStripEdge(s: string)
    ensures var t := LStrip(s); t == [] || !IsSpace(t[0])
    ensures exists i :: 0 <= i <= |s| && LStrip(s) == s[i..]
  {
    if s != [] && IsSpace(s[0]) {
      LStripEdge(s[1..]);
      var i :| 0 <= i <= |s[1..]| && LStrip(s[1..]) == s[1..][i..];
      assert LStrip(s) == s[i + 1..];
    } else {
      assert s == s[0..];
    }
  }

  lemma {:induction false} RStripEdge(s: string)
    ensures var t := RStrip(s); t == [] || !IsSpace(t[|t| - 1])
    ensures RStrip(s) <= s
  {
    if s != [] && IsSpace(s[|s| - 1]) {
      RStripEdge(s[..|s| - 1]);
    }
  }

  /** Both ends of a stripped text are free of space, and its characters come from the text in order. */
  lemma StripEdges(s: string)
    ensures var t := Strip(s); t != [] ==> !IsSpace(t[0]) && !IsSpace(t[|t| - 1])
    ensures exists i, j :: 0 <= i <= j <= |s| && Strip(s) == s[i..j]
  {
    LStripEdge(s);
    RStripEdge(LStrip(s));
    var i :| 0 <= i <= |s| && LStrip(s) == s[i..];
    assert Strip(s) == s[i..i + |Strip(s)|];
  }

  lemma {:induction false} StripStripped(s: string)
    requires s != [] ==> !IsSpace(s[0]) && !IsSpace(s[|s| - 1])
    ensures Strip(s) == s
  {
  }
}
