/** What rewriting a leaf document keeps. */
module LeafDocTheorems {
  import opened LeafDoc
  import opened Positions
  import opened Text
  import Seqs

  // ---- Cutting at newlines -------------------------------------------------------------------

  predicate AllBreakFree(lines: seq<string>) {
    forall i | 0 <= i < |lines| :: BreakFree(lines[i])
  }

  /** Newlines are the only breaks. */
  predicate OnlyNewlines(s: string) {
    forall i | 0 <= i < |s| :: IsBreak(s[i]) ==> s[i] == '\n'
  }

  /** The pieces between newlines. */
  function Cut(s: string): (lines: seq<string>)
    ensures lines != []
  {
    if s == [] then [[]]
    else
      var rest := Cut(s[1..]);
      if s[0] == '\n' then [[]] + rest else [[s[0]] + rest[0]] + rest[1..]
  }

  lemma {:induction false} JoinCut(s: string)
    ensures JoinLines(Cut(s)) == s
  {
    if s != [] {
      var rest := Cut(s[1..]);
      JoinCut(s[1..]);
      if s[0] == '\n' {
        assert [] + "\n" + s[1..] == s;
      }
    }
  }

  lemma {:induction false} CutJoin(lines: seq<string>)
    requires lines != [] && AllBreakFree(lines)
    ensures Cut(JoinLines(lines)) == lines
  {
    assert BreakFree(lines[0]);
    if |lines| == 1 {
      CutOne(lines[0]);
    } else {
      CutJoin(lines[1..]);
      CutThen(lines[0], JoinLines(lines[1..]));
      assert lines == [lines[0]] + lines[1..];
    }
  }

  lemma {:induction false} CutOne(x: string)
    requires BreakFree(x)
    ensures Cut(x) == [x]
  {
    if x != [] {
      assert x[0] in x;
      CutOne(x[1..]);
      assert [x[0]] + x[1..] == x;
      assert Cut(x) == [[x[0]] + x[1..]] + [x[1..]][1..];
    }
  }

  lemma {:induction false} CutThen(x: string, rest: string)
    requires BreakFree(x)
    ensures Cut(x + "\n" + rest) == [x] + Cut(rest)
  {
    var s := x + "\n" + rest;
    if x == [] {
      assert s[0] == '\n' && s[1..] == rest;
    } else {
      assert s[1..] == x[1..] + "\n" + rest && x[0] in x;
      CutThen(x[1..], rest);
      assert [x[0]] + x[1..] == x;
      assert ([x[1..]] + Cut(rest))[1..] == Cut(rest);
    }
  }

  lemma {:induction false} CutBreakFree(s: string)
    requires OnlyNewlines(s)
    ensures AllBreakFree(Cut(s))
  {
    if s != [] {
      CutBreakFree(s[1..]);
      var rest := Cut(s[1..]);
      assert BreakFree(rest[0]);
      if s[0] != '\n' {
        assert BreakFree([s[0]] + rest[0]);
        assert forall i | 0 < i < |rest| :: ([[s[0]] + rest[0]] + rest[1..])[i] == rest[i];
      } else {
        assert forall i | 0 < i < |[[]] + rest| :: ([[]] + rest)[i] == rest[i - 1];
      }
    }
  }

  // ---- Lines of joined lines --------------------------------------------------------------------

  lemma PlainThen(x: string, rest: string)
    requires BreakFree(x)
    ensures PlainLines(x + "\n" + rest) == [x] + PlainLines(rest)
  {
    LineThen(x, rest);
    assert DropBreak(x + "\n") == x;
    PlainCons(x + "\n" + rest, x + "\n", SplitLines(rest), PlainLines(rest));
  }

  lemma PlainCons(text: string, line: string, rest: seq<string>, plain: seq<string>)
    requires SplitLines(text) == [line] + rest
    requires |plain| == |rest| && forall i | 0 <= i < |rest| :: plain[i] == DropBreak(rest[i])
    ensures PlainLines(text) == [DropBreak(line)] + plain
  {
  }

  lemma PlainOne(x: string)
    requires BreakFree(x)
    ensures PlainLines(x) == if x == [] then [] else [x]
  {
    if x != [] {
      SplitLinesOne(x);
    }
  }

  /** Splitting joined lines gives them back, when the last is not empty. */
  lemma {:induction false} PlainJoin(lines: seq<string>)
    requires lines != [] && AllBreakFree(lines) && lines[|lines| - 1] != []
    ensures PlainLines(JoinLines(lines)) == lines
  {
    assert BreakFree(lines[0]);
    if |lines| == 1 {
      PlainOne(lines[0]);
    } else {
      PlainJoin(lines[1..]);
      PlainThen(lines[0], JoinLines(lines[1..]));
      assert lines == [lines[0]] + lines[1..];
    }
  }

  lemma {:induction false} CutLast(s: string)
    requires s != []
    ensures var last := Cut(s)[|Cut(s)| - 1]; (s[|s| - 1] == '\n' <==> last == [])
    ensures var last := Cut(s)[|Cut(s)| - 1]; s[|s| - 1] != '\n' ==> last[|last| - 1] == s[|s| - 1]
  {
    if |s| > 1 {
      CutLast(s[1..]);
    } else {
      assert s[1..] == [];
    }
  }

  lemma CutFirst(s: string)
    requires s != [] && s[0] != '\n'
    ensures Cut(s)[0] != [] && Cut(s)[0][0] == s[0]
  {
  }

  /** A text whose only breaks are newlines, and that does not end in one, is its lines joined. */
  lemma PlainIsCut(s: string)
    requires OnlyNewlines(s) && s != [] && s[|s| - 1] != '\n'
    ensures PlainLines(s) == Cut(s) && JoinLines(PlainLines(s)) == s && AllBreakFree(PlainLines(s))
  {
    JoinCut(s);
    CutBreakFree(s);
    CutLast(s);
    PlainJoin(Cut(s));
  }

  // ---- Stripping and the lines that are not blank ---------------------------------------------------

  /** The stripped lines that are not blank. */
  function Marks(lines: seq<string>): seq<string> {
    if lines == [] then []
    else (if Strip(lines[0]) == [] then [] else [Strip(lines[0])]) + Marks(lines[1..])
  }

  lemma {:induction false} MarksAppend(a: seq<string>, b: seq<string>)
    ensures Marks(a + b) == Marks(a) + Marks(b)
  {
    if a == [] {
      assert a + b == b;
    } else {
      assert (a + b)[1..] == a[1..] + b;
      MarksAppend(a[1..], b);
    }
  }

  lemma {:induction false} LStripSnoc(s: string, c: char)
    requires IsSpace(c)
    ensures LStrip(s + [c]) == if LStrip(s) == [] then [] else LStrip(s) + [c]
  {
    if s == [] {
      assert [] + [c] == [c] && [c][1..] == [];
      assert LStrip([c]) == LStrip([]);
    } else {
      assert (s + [c])[1..] == s[1..] + [c];
      if IsSpace(s[0]) {
        LStripSnoc(s[1..], c);
      }
    }
  }

  lemma StripSnoc(s: string, c: char)
    requires IsSpace(c)
    ensures Strip(s + [c]) == Strip(s)
  {
    LStripSnoc(s, c);
    assert (LStrip(s) + [c])[..|LStrip(s)|] == LStrip(s);
  }

  lemma MarksCons(s: string, c: char)
    requires IsSpace(c)
    ensures Marks(Cut([c] + s)) == Marks(Cut(s))
  {
    var rest := Cut(s);
    assert ([c] + s)[1..] == s;
    if c == '\n' {
      assert ([[]] + rest)[1..] == rest;
      assert Strip([]) == [];
    } else {
      assert ([[c] + rest[0]] + rest[1..])[1..] == rest[1..];
    }
  }

  lemma {:induction false} MarksLStrip(s: string)
    ensures Marks(Cut(LStrip(s))) == Marks(Cut(s))
  {
    if s != [] && IsSpace(s[0]) {
      MarksLStrip(s[1..]);
      MarksCons(s[1..], s[0]);
      assert [s[0]] + s[1..] == s;
    }
  }

  /** One more character at the end of the last line. */
  function Grown(lines: seq<string>, c: char): seq<string>
    requires lines != []
  {
    var n := |lines| - 1;
    if c == '\n' then lines + [[]] else lines[..n] + [lines[n] + [c]]
  }

  lemma GrownPrefix(rest: seq<string>, d: char, c: char)
    requires rest != []
    ensures Grown([[d] + rest[0]] + rest[1..], c) == [[d] + Grown(rest, c)[0]] + Grown(rest, c)[1..]
  {
    var n := |rest| - 1;
    if n == 0 {
      Seqs.Assoc([d], rest[0], [c]);
      assert rest[1..] == [];
    } else {
      FrontGrows([d] + rest[0], rest, if c == '\n' then rest[n] else rest[n] + [c]);
    }
  }

  lemma FrontGrows(a: string, rest: seq<string>, last: string)
    requires |rest| > 1
    ensures var n := |rest| - 1;
            && ([a] + rest[1..]) + [[]] == [a] + (rest + [[]])[1..] && (rest + [[]])[0] == rest[0]
            && ([a] + rest[1..])[..n] + [last] == [a] + (rest[..n] + [last])[1..] && (rest[..n] + [last])[0] == rest[0]
            && ([a] + rest[1..])[n] == rest[n]
  {
    var n := |rest| - 1;
    assert (rest + [[]])[1..] == rest[1..] + [[]];
    assert (rest[..n] + [last])[1..] == rest[1..n] + [last];
    assert ([a] + rest[1..])[..n] == [a] + rest[1..n];
  }

  lemma {:induction false} CutSnoc(s: string, c: char)
    ensures Cut(s + [c]) == Grown(Cut(s), c)
  {
    if s == [] {
      assert s + [c] == [c] && [c][1..] == [];
      assert [c] + [] == [c] && [] + [c] == [c];
    } else {
      assert (s + [c])[1..] == s[1..] + [c];
      CutSnoc(s[1..], c);
      if s[0] != '\n' {
        GrownPrefix(Cut(s[1..]), s[0], c);
      }
    }
  }

  lemma MarksSnoc(s: string, c: char)
    requires IsSpace(c)
    ensures Marks(Cut(s + [c])) == Marks(Cut(s))
  {
    var lines := Cut(s);
    var n := |lines| - 1;
    CutSnoc(s, c);
    if c == '\n' {
      MarksAppend(lines, [[]]);
      assert Strip([]) == [];
      assert Marks([[]]) == [];
    } else {
      StripSnoc(lines[n], c);
      MarksAppend(lines[..n], [lines[n]]);
      MarksAppend(lines[..n], [lines[n] + [c]]);
      assert lines == lines[..n] + [lines[n]];
      assert Marks([lines[n]]) == Marks([lines[n] + [c]]);
    }
  }

  lemma {:induction false} MarksRStrip(s: string)
    ensures Marks(Cut(RStrip(s))) == Marks(Cut(s))
  {
    if s != [] && IsSpace(s[|s| - 1]) {
      var n := |s| - 1;
      MarksRStrip(s[..n]);
      MarksSnoc(s[..n], s[n]);
      assert s[..n] + [s[n]] == s;
    }
  }

  /** Stripping a text keeps its lines that are not blank, space around them aside. */
  lemma MarksStrip(s: string)
    ensures Marks(Cut(Strip(s))) == Marks(Cut(s))
  {
    MarksLStrip(s);
    MarksRStrip(LStrip(s));
  }

  lemma {:induction false} MarkOf(lines: seq<string>, i: nat)
    requires i < |lines| && Strip(lines[i]) != []
    ensures Strip(lines[i]) in Marks(lines)
  {
    if i > 0 {
      MarkOf(lines[1..], i - 1);
    }
  }

  lemma {:induction false} MarkFrom(lines: seq<string>, m: string)
    requires m in Marks(lines)
    ensures exists i | 0 <= i < |lines| :: Strip(lines[i]) == m
  {
    if Strip(lines[0]) != m {
      MarkFrom(lines[1..], m);
      var i :| 0 <= i < |lines[1..]| && Strip(lines[1..][i]) == m;
      assert Strip(lines[i + 1]) == m;
    }
  }

  // ---- What the section readers return ----------------------------------------------------------------

  lemma PlainBreakFree(text: string)
    ensures AllBreakFree(PlainLines(text))
  {
    SplitLinesFlat(text);
    forall i | 0 <= i < |SplitLines(text)|
      ensures BreakFree(DropBreak(SplitLines(text)[i]))
    {
      assert IsLine(SplitLines(text)[i]);
    }
  }

  lemma {:induction false} InjectFrom(lines: seq<string>, capturing: bool)
    requires AllBreakFree(lines)
    ensures AllBreakFree(InjectLines(lines, capturing))
    ensures forall x | x in InjectLines(lines, capturing) :: !IsHeading(x)
    decreases |lines|
  {
    if lines != [] {
      InjectFrom(lines[1..], if IsHeading(lines[0]) then IsInjectHeading(lines[0]) else capturing);
      assert BreakFree(lines[0]);
    }
  }

  predicate NoInject(lines: seq<string>) {
    forall i | 0 <= i < |lines| :: !IsInjectHeading(lines[i])
  }

  lemma {:induction false} TailFrom(lines: seq<string>, capturing: bool)
    requires AllBreakFree(lines)
    ensures AllBreakFree(TailLines(lines, capturing)) && NoInject(TailLines(lines, capturing))
    ensures !capturing && TailLines(lines, capturing) != [] ==> IsHeading(TailLines(lines, capturing)[0])
    decreases |lines|
  {
    if lines != [] {
      var skip := IsHeading(lines[0]) && IsInjectHeading(lines[0]);
      TailFrom(lines[1..], !skip && (capturing || IsHeading(lines[0])));
      assert BreakFree(lines[0]);
      assert IsInjectHeading(lines[0]) ==> IsHeading(lines[0]);
    }
  }

  lemma {:induction false} JoinOnlyNewlines(lines: seq<string>)
    requires AllBreakFree(lines)
    ensures OnlyNewlines(JoinLines(lines))
  {
    if lines != [] {
      assert BreakFree(lines[0]);
      JoinOnlyNewlines(lines[1..]);
    }
  }

  predicate Stripped(s: string) {
    s != [] ==> !IsSpace(s[0]) && !IsSpace(s[|s| - 1])
  }

  lemma StripOnlyNewlines(t: string)
    requires OnlyNewlines(t)
    ensures OnlyNewlines(Strip(t)) && Stripped(Strip(t))
  {
    StripEdges(t);
    var i, j :| 0 <= i <= j <= |t| && Strip(t) == t[i..j];
    forall k | 0 <= k < |Strip(t)| && IsBreak(Strip(t)[k])
      ensures Strip(t)[k] == '\n'
    {
      assert Strip(t)[k] == t[i + k];
    }
  }

  /** A stripped join of lines: its lines, and that they are the given ones up to blanks and space. */
  lemma {:induction false} StrippedJoin(lines: seq<string>)
    requires AllBreakFree(lines)
    ensures var s := Strip(JoinLines(lines));
            && Stripped(s) && AllBreakFree(PlainLines(s)) && JoinLines(PlainLines(s)) == s
            && Marks(PlainLines(s)) == Marks(lines)
            && (s == [] <==> PlainLines(s) == [])
  {
    var t, s := JoinLines(lines), Strip(JoinLines(lines));
    JoinOnlyNewlines(lines);
    StripOnlyNewlines(t);
    MarksStrip(t);
    EmptyMarks();
    if lines != [] {
      CutJoin(lines);
    }
    if s != [] {
      PlainIsCut(s);
    }
  }

  lemma EmptyMarks()
    ensures Strip([]) == [] && Marks(Cut([])) == []
  {
  }

  lemma {:induction false} RStripHolds(s: string, i: nat)
    requires i < |s| && !IsSpace(s[i])
    ensures |RStrip(s)| > i
  {
    if IsSpace(s[|s| - 1]) {
      RStripHolds(s[..|s| - 1], i);
    }
  }

  lemma NotBlank(s: string)
    requires s != [] && (!IsSpace(s[0]) || !IsSpace(s[|s| - 1]))
    ensures Strip(s) != []
  {
    if !IsSpace(s[0]) {
      RStripHolds(s, 0);
    } else {
      LStripLast(s);
      var t := LStrip(s);
      RStripHolds(t, |t| - 1);
    }
  }

  lemma {:induction false} LStripLast(s: string)
    requires s != [] && !IsSpace(s[|s| - 1])
    ensures var t := LStrip(s); t != [] && t[|t| - 1] == s[|s| - 1]
  {
    if IsSpace(s[0]) {
      LStripLast(s[1..]);
    }
  }

  /** Lines that can stand in an Inject section and be read back: none blank, none a heading. */
  predicate Readable(lines: seq<string>) {
    && AllBreakFree(lines)
    && forall i | 0 <= i < |lines| :: Strip(lines[i]) != [] && !IsHeading(lines[i])
  }

  predicate NoneBlank(lines: seq<string>) {
    forall i | 0 <= i < |lines| :: Strip(lines[i]) != []
  }

  lemma ConsKeeps(x: string, rest: seq<string>)
    ensures BreakFree(x) && AllBreakFree(rest) ==> AllBreakFree([x] + rest)
    ensures Strip(x) != [] && NoneBlank(rest) ==> NoneBlank([x] + rest)
    ensures ([x] + rest)[1..] == rest
  {
    assert forall i | 0 < i < |[x] + rest| :: ([x] + rest)[i] == rest[i - 1];
  }

  lemma {:induction false} NonBlankKeeps(lines: seq<string>)
    requires AllBreakFree(lines)
    ensures AllBreakFree(NonBlank(lines)) && NoneBlank(NonBlank(lines)) && Marks(NonBlank(lines)) == Marks(lines)
  {
    if lines != [] {
      NonBlankKeeps(lines[1..]);
      assert BreakFree(lines[0]);
      ConsKeeps(lines[0], NonBlank(lines[1..]));
      assert [] + NonBlank(lines[1..]) == NonBlank(lines[1..]);
      assert [] + Marks(lines[1..]) == Marks(lines[1..]);
    }
  }

  lemma {:induction false} NonBlankLast(lines: seq<string>)
    requires lines != [] && Strip(lines[|lines| - 1]) != []
    ensures NonBlank(lines) != [] && NonBlank(lines)[|NonBlank(lines)| - 1] == lines[|lines| - 1]
  {
    if |lines| > 1 {
      NonBlankLast(lines[1..]);
    }
  }

  lemma {:induction false} NonBlankAll(lines: seq<string>)
    requires forall i | 0 <= i < |lines| :: Strip(lines[i]) != []
    ensures NonBlank(lines) == lines
  {
    if lines != [] {
      NonBlankAll(lines[1..]);
      assert [lines[0]] + lines[1..] == lines;
    }
  }

  predicate EdgesTight(lines: seq<string>) {
    lines != [] ==>
      && lines[0] != [] && !IsSpace(lines[0][0])
      && var last := lines[|lines| - 1]; last != [] && !IsSpace(last[|last| - 1])
  }

  /** The bullets read from any document can be written back. */
  lemma BulletsReadable(text: string)
    ensures Readable(Bullets(text)) && EdgesTight(Bullets(text))
  {
    var inject := InjectLines(PlainLines(text), false);
    PlainBreakFree(text);
    InjectFrom(PlainLines(text), false);
    StrippedJoin(inject);
    var body := Extract(text);
    var lines := PlainLines(body);
    var bullets := NonBlank(lines);
    NonBlankKeeps(lines);
    forall i | 0 <= i < |bullets|
      ensures !IsHeading(bullets[i])
    {
      MarkOf(bullets, i);
      MarkFrom(inject, Strip(bullets[i]));
      var k :| 0 <= k < |inject| && Strip(inject[k]) == Strip(bullets[i]);
      assert inject[k] in inject;
    }
    if body != [] {
      TightEdges(body, lines);
      NonBlankLast(lines);
    }
    assert PlainLines([]) == [];
  }

  lemma TightEdges(s: string, lines: seq<string>)
    requires s != [] && Stripped(s) && AllBreakFree(lines) && lines != [] && JoinLines(lines) == s
    requires lines == PlainLines(s)
    ensures lines[0] != [] && !IsSpace(lines[0][0]) && Strip(lines[0]) != []
    ensures var last := lines[|lines| - 1]; last != [] && !IsSpace(last[|last| - 1]) && Strip(last) != []
  {
    CutJoin(lines);
    CutFirst(s);
    CutLast(s);
    NotBlank(lines[0]);
    NotBlank(lines[|lines| - 1]);
  }

  /** The tail of any document starts with a heading and has no Inject heading. */
  lemma TailReadable(text: string)
    ensures var tail := Tail(text);
            && Stripped(tail) && JoinLines(PlainLines(tail)) == tail && NoInject(PlainLines(tail))
            && (tail != [] ==> PlainLines(tail) != [] && IsHeading(PlainLines(tail)[0]))
  {
    var rest := TailLines(PlainLines(text), false);
    PlainBreakFree(text);
    TailFrom(PlainLines(text), false);
    StrippedJoin(rest);
    var tail := Tail(text);
    var lines := PlainLines(tail);
    forall i | 0 <= i < |lines|
      ensures !IsInjectHeading(lines[i])
    {
      if Strip(lines[i]) != [] {
        MarkOf(lines, i);
        MarkFrom(rest, Strip(lines[i]));
      }
    }
    if tail != [] {
      TightEdges(tail, lines);
      assert Marks(lines)[0] == Strip(lines[0]);
      assert rest != [] && Strip(rest[0]) != [];
      assert Marks(rest)[0] == Strip(rest[0]);
    }
  }

  // ---- Reading a document that was written ------------------------------------------------------------

  lemma {:induction false} PlainJoinThen(lines: seq<string>, rest: string)
    requires lines != [] && AllBreakFree(lines)
    ensures PlainLines(JoinLines(lines) + "\n" + rest) == lines + PlainLines(rest)
  {
    assert BreakFree(lines[0]);
    if |lines| == 1 {
      PlainThen(lines[0], rest);
    } else {
      PlainJoinThen(lines[1..], rest);
      PlainThen(lines[0], JoinLines(lines[1..]) + "\n" + rest);
      assert lines[0] + "\n" + (JoinLines(lines[1..]) + "\n" + rest) == JoinLines(lines) + "\n" + rest;
      Seqs.Assoc([lines[0]], lines[1..], PlainLines(rest));
      assert lines == [lines[0]] + lines[1..];
    }
  }

  /** The lines behind the bullets of a document. */
  function After(tail: string): seq<string> {
    if tail == [] then [] else [[]] + PlainLines(tail)
  }

  lemma DocumentLines(bullets: seq<string>, tail: string)
    requires bullets != [] && AllBreakFree(bullets)
    ensures PlainLines(Document(bullets, tail)) == [INJECT_HEADING] + (bullets + After(tail))
  {
    var rest := if tail == [] then [] else "\n" + tail;
    assert BreakFree(INJECT_HEADING);
    Seqs.Assoc(INJECT_HEADING, "\n", JoinLines(bullets) + "\n" + rest);
    PlainThen(INJECT_HEADING, JoinLines(bullets) + "\n" + rest);
    PlainJoinThen(bullets, rest);
    if tail != [] {
      PlainThen([], tail);
      assert [] + "\n" + tail == "\n" + tail;
    }
  }

  lemma {:induction false} InjectPlain(lines: seq<string>, rest: seq<string>)
    requires forall i | 0 <= i < |lines| :: !IsHeading(lines[i])
    ensures InjectLines(lines + rest, true) == lines + InjectLines(rest, true)
    ensures TailLines(lines + rest, false) == TailLines(rest, false)
  {
    if lines == [] {
      assert lines + rest == rest;
    } else {
      assert !IsHeading(lines[0]);
      assert (lines + rest)[1..] == lines[1..] + rest;
      InjectPlain(lines[1..], rest);
      Seqs.Assoc([lines[0]], lines[1..], InjectLines(rest, true));
      assert [lines[0]] + lines[1..] == lines;
    }
  }

  lemma {:induction false} NoInjectLines(lines: seq<string>)
    requires NoInject(lines)
    ensures InjectLines(lines, false) == [] && TailLines(lines, true) == lines
  {
    if lines != [] {
      assert !IsInjectHeading(lines[0]);
      NoInjectLines(lines[1..]);
      assert [lines[0]] + lines[1..] == lines;
    }
  }

  lemma BehindBullets(tail: string)
    requires NoInject(PlainLines(tail)) && (tail != [] ==> PlainLines(tail) != [] && IsHeading(PlainLines(tail)[0]))
    ensures InjectLines(After(tail), true) == (if tail == [] then [] else [[]])
    ensures TailLines(After(tail), false) == (if tail == [] then [] else PlainLines(tail))
  {
    if tail != [] {
      var lines := PlainLines(tail);
      assert Strip([]) == [] && !IsHeading([]);
      assert ([[]] + lines)[1..] == lines;
      assert !IsInjectHeading(lines[0]);
      NoInjectLines(lines[1..]);
      assert [lines[0]] + lines[1..] == lines;
    }
  }

  lemma DocumentSections(bullets: seq<string>, text: string)
    requires bullets != [] && Readable(bullets)
    ensures var lines := PlainLines(Document(bullets, Tail(text)));
            && InjectLines(lines, false) == bullets + (if Tail(text) == [] then [] else [[]])
            && TailLines(lines, false) == (if Tail(text) == [] then [] else PlainLines(Tail(text)))
  {
    var tail := Tail(text);
    TailReadable(text);
    DocumentLines(bullets, tail);
    StripStripped(INJECT_HEADING);
    BehindHeading(INJECT_HEADING, bullets + After(tail));
    InjectPlain(bullets, After(tail));
    BehindBullets(tail);
    assert bullets + [] == bullets;
  }

  lemma BehindHeading(heading: string, rest: seq<string>)
    requires IsInjectHeading(heading)
    ensures InjectLines([heading] + rest, false) == InjectLines(rest, true)
    ensures TailLines([heading] + rest, false) == TailLines(rest, false)
  {
    assert ([heading] + rest)[1..] == rest;
    InjectHeadingIsHeading(heading);
  }

  /** Rewriting the Inject section keeps every other section. */
  lemma TailSurvives(bullets: seq<string>, text: string)
    requires bullets != [] && Readable(bullets)
    ensures Tail(Document(bullets, Tail(text))) == Tail(text)
  {
    DocumentSections(bullets, text);
    TailReadable(text);
    StripStripped(Tail(text));
  }

  lemma {:induction false} JoinSnoc(lines: seq<string>, x: string)
    requires lines != []
    ensures JoinLines(lines + [x]) == JoinLines(lines) + "\n" + x
  {
    assert (lines + [x])[1..] == lines[1..] + [x];
    if |lines| > 1 {
      JoinSnoc(lines[1..], x);
      assert lines[0] + "\n" + (JoinLines(lines[1..]) + "\n" + x) == lines[0] + "\n" + JoinLines(lines[1..]) + "\n" + x;
    } else {
      assert lines + [x] == [lines[0], x];
    }
  }

  lemma {:induction false} RStripAppend(u: string, l: string)
    requires RStrip(l) != []
    ensures RStrip(u + l) == u + RStrip(l)
  {
    if IsSpace(l[|l| - 1]) {
      var n := |l| - 1;
      assert (u + l)[..|u + l| - 1] == u + l[..n];
      RStripAppend(u, l[..n]);
    }
  }

  /** The bullets with the space behind the last one dropped. */
  function Trimmed(bullets: seq<string>): seq<string>
    requires bullets != []
  {
    var n := |bullets| - 1;
    bullets[..n] + [RStrip(bullets[n])]
  }

  /** What stands before the last line of joined lines. */
  function Front(init: seq<string>): string {
    if init == [] then [] else JoinLines(init) + "\n"
  }

  lemma JoinFront(init: seq<string>, last: string)
    ensures JoinLines(init + [last]) == Front(init) + last
  {
    if init == [] {
      assert [] + [last] == [last] && [] + last == last;
    } else {
      JoinSnoc(init, last);
    }
  }

  lemma RStripJoined(init: seq<string>, last: string)
    requires RStrip(last) != []
    ensures RStrip(JoinLines(init + [last])) == JoinLines(init + [RStrip(last)])
  {
    JoinFront(init, last);
    JoinFront(init, RStrip(last));
    RStripAppend(Front(init), last);
  }

  lemma StripAt(init: seq<string>, last: string)
    requires var first := (init + [last])[0]; first != [] && !IsSpace(first[0])
    requires Strip(last) != []
    ensures Strip(JoinLines(init + [last])) == JoinLines(init + [RStrip(last)])
  {
    FirstOfJoin(init + [last]);
    var s := JoinLines(init + [last]);
    assert LStrip(s) == s;
    RStripNonEmpty(last);
    RStripJoined(init, last);
  }

  lemma StripJoined(bullets: seq<string>)
    requires bullets != [] && bullets[0] != [] && !IsSpace(bullets[0][0])
    requires Strip(bullets[|bullets| - 1]) != []
    ensures Strip(JoinLines(bullets)) == JoinLines(Trimmed(bullets))
    ensures Strip(JoinLines(bullets + [[]])) == JoinLines(Trimmed(bullets))
  {
    var init, last := bullets[..|bullets| - 1], bullets[|bullets| - 1];
    assert bullets == init + [last];
    StripAt(init, last);
    OneMoreNewline(bullets);
  }

  lemma OneMoreNewline(lines: seq<string>)
    requires lines != []
    ensures Strip(JoinLines(lines + [[]])) == Strip(JoinLines(lines))
  {
    var s := JoinLines(lines);
    JoinSnoc(lines, []);
    StripSnoc(s, '\n');
    assert s + "\n" + [] == s + ['\n'];
  }

  lemma FirstOfJoin(lines: seq<string>)
    requires lines != [] && lines[0] != []
    ensures JoinLines(lines) != [] && JoinLines(lines)[0] == lines[0][0]
  {
  }

  lemma {:induction false} LStripTail(s: string)
    requires LStrip(s) != []
    ensures RStrip(s) != []
  {
    LStripEdge(s);
    var i :| 0 <= i <= |s| && LStrip(s) == s[i..];
    assert s[i] == LStrip(s)[0];
    RStripHolds(s, i);
  }

  lemma RStripNonEmpty(s: string)
    requires Strip(s) != []
    ensures RStrip(s) != []
  {
    RStripEdge(LStrip(s));
    LStripTail(s);
  }

  lemma {:induction false} StripRStrip(s: string)
    ensures Strip(RStrip(s)) == Strip(s)
  {
    if s != [] && IsSpace(s[|s| - 1]) {
      var n := |s| - 1;
      StripRStrip(s[..n]);
      StripSnoc(s[..n], s[n]);
      assert s[..n] + [s[n]] == s;
    }
  }

  lemma TrimmedReadable(bullets: seq<string>)
    requires bullets != [] && Readable(bullets)
    ensures Readable(Trimmed(bullets)) && Trimmed(bullets)[|bullets| - 1] != []
  {
    var n := |bullets| - 1;
    var last := bullets[n];
    StripRStrip(last);
    RStripNonEmpty(last);
    RStripEdge(last);
    assert BreakFree(last);
    forall i | 0 <= i <= n
      ensures BreakFree(Trimmed(bullets)[i]) && Strip(Trimmed(bullets)[i]) != [] && !IsHeading(Trimmed(bullets)[i])
    {
      assert i < n ==> Trimmed(bullets)[i] == bullets[i];
    }
  }

  /** Reading a written document back gives its bullets. */
  lemma {:induction false} BulletsSurvive(bullets: seq<string>, text: string)
    requires bullets != [] && Readable(bullets) && bullets[0] != [] && !IsSpace(bullets[0][0])
    requires Trimmed(bullets) != [MISSING_DOC]
    ensures Bullets(Document(bullets, Tail(text))) == Trimmed(bullets)
  {
    DocumentSections(bullets, text);
    assert bullets + [] == bullets;
    StripJoined(bullets);
    TrimmedReadable(bullets);
    PlainJoin(Trimmed(bullets));
    NonBlankAll(Trimmed(bullets));
    MissingIsOneLine();
  }

  lemma SpaceFreeIsOneLine(x: string)
    requires x != [] && forall c | c in x :: !IsSpace(c)
    ensures PlainLines(x) == [x] && Strip(x) == x
  {
    assert x[0] in x && x[|x| - 1] in x;
    assert BreakFree(x);
    PlainOne(x);
    StripStripped(x);
  }

  lemma MissingIsOneLine()
    ensures PlainLines(MISSING_DOC) == [MISSING_DOC] && Strip(MISSING_DOC) == MISSING_DOC
  {
    SpaceFreeIsOneLine(MISSING_DOC);
  }

  // ---- One more bullet --------------------------------------------------------------------------------

  function BulletOf(finding: string): string {
    "- " + finding
  }

  lemma BulletIsReadable(finding: string)
    requires BreakFree(finding)
    ensures var b := BulletOf(finding);
            BreakFree(b) && Strip(b) != [] && !IsHeading(b) && !IsSpace(b[0]) && Strip(b)[0] == '-'
  {
    var b := BulletOf(finding);
    NotBlank(b);
    RStripEdge(b);
    assert LStrip(b) == b;
    assert Strip(b)[0] == '-';
  }

  /** The bullets a rewrite puts into the document. */
  function NewBullets(text: string, finding: string): seq<string> {
    if Present(Bullets(text), BulletOf(finding)) then Bullets(text) else Bullets(text) + [BulletOf(finding)]
  }

  lemma ReadableSnoc(lines: seq<string>, x: string)
    requires Readable(lines) && BreakFree(x) && Strip(x) != [] && !IsHeading(x)
    ensures Readable(lines + [x])
  {
  }

  lemma {:induction false} NewReadable(text: string, finding: string)
    requires BreakFree(finding)
    ensures var bs := NewBullets(text, finding);
            && bs != [] && Readable(bs) && bs[0] != [] && !IsSpace(bs[0][0])
            && Written(text, BulletOf(finding)) == Document(bs, Tail(text))
  {
    BulletsReadable(text);
    BulletIsReadable(finding);
    if !Present(Bullets(text), BulletOf(finding)) {
      ReadableSnoc(Bullets(text), BulletOf(finding));
    } else {
      assert EdgesTight(Bullets(text));
    }
  }

  lemma OnlyMissing(bs: seq<string>, bullet: string)
    requires |bs| == 1 && Strip(bs[0]) == Strip(bullet) && Strip(bullet) != [] && Strip(bullet)[0] == '-'
    requires Strip(MISSING_DOC) == MISSING_DOC
    ensures Trimmed(bs) != [MISSING_DOC]
  {
    StripRStrip(bs[0]);
    assert Trimmed(bs)[0] == RStrip(bs[0]);
    assert MISSING_DOC[0] != '-';
  }

  lemma PresentSnoc(bullets: seq<string>, bullet: string)
    ensures Present(bullets + [bullet], bullet)
  {
    assert (bullets + [bullet])[|bullets|] == bullet;
  }

  /** The bullets are never just the sentinel: one of them is the new bullet. */
  lemma NotMissing(text: string, finding: string)
    requires BreakFree(finding) && NewBullets(text, finding) != []
    ensures Trimmed(NewBullets(text, finding)) != [MISSING_DOC]
  {
    var bs, bullet := NewBullets(text, finding), BulletOf(finding);
    PresentSnoc(Bullets(text), bullet);
    assert Present(bs, bullet);
    if |bs| == 1 {
      BulletIsReadable(finding);
      MissingIsOneLine();
      OnlyMissing(bs, bullet);
    }
  }

  /** After a rewrite the document gives back the bullets it had, in order, then the new one exactly if it was
      absent (without the space at its end), and its other sections are unchanged. */
  lemma RewriteRoundTrips(text: string, finding: string)
    requires BreakFree(finding)
    ensures var bullet, were, now := BulletOf(finding), Bullets(text), Written(text, BulletOf(finding));
            && Bullets(now) == were + (if Present(were, bullet) then [] else [RStrip(bullet)])
            && Tail(now) == Tail(text)
  {
    var bs := NewBullets(text, finding);
    NewReadable(text, finding);
    NotMissing(text, finding);
    BulletsSurvive(bs, text);
    TailSurvives(bs, text);
    TrimmedNew(text, finding);
  }

  lemma TrimmedNew(text: string, finding: string)
    requires NewBullets(text, finding) != []
    ensures Trimmed(NewBullets(text, finding)) ==
            Bullets(text) + if Present(Bullets(text), BulletOf(finding)) then [] else [RStrip(BulletOf(finding))]
  {
    BulletsReadable(text);
    var were := Bullets(text);
    if Present(were, BulletOf(finding)) {
      TrimmedTight(were);
      assert were + [] == were;
    } else {
      TrimmedSnoc(were, BulletOf(finding));
    }
  }

  lemma TrimmedSnoc(init: seq<string>, x: string)
    ensures Trimmed(init + [x]) == init + [RStrip(x)]
  {
    assert (init + [x])[..|init|] == init;
  }

  lemma TrimmedTight(lines: seq<string>)
    requires lines != [] && EdgesTight(lines)
    ensures Trimmed(lines) == lines
  {
    var n := |lines| - 1;
    RStripTight(lines[n]);
    assert lines[..n] + [lines[n]] == lines;
  }

  lemma RStripTight(s: string)
    requires s != [] && !IsSpace(s[|s| - 1])
    ensures RStrip(s) == s
  {
  }

  lemma LengthOfDocument(init: seq<string>, a: string, b: string, tail: string)
    requires Document(init + [a], tail) == Document(init + [b], tail)
    ensures |a| == |b|
  {
    JoinFront(init, a);
    JoinFront(init, b);
  }

  /** Writing the same bullet again changes nothing, exactly if it was there before or has no space at its end. */
  lemma RewriteIsStable(text: string, finding: string)
    requires BreakFree(finding)
    ensures var bullet := BulletOf(finding);
            Written(Written(text, bullet), bullet) == Written(text, bullet) <==>
            Present(Bullets(text), bullet) || RStrip(bullet) == bullet
  {
    var bullet, were := BulletOf(finding), Bullets(text);
    var now := Written(text, bullet);
    NewReadable(text, finding);
    RewriteRoundTrips(text, finding);
    StripRStrip(bullet);
    if Present(were, bullet) {
      assert were + [] == were;
    } else {
      assert Strip((were + [RStrip(bullet)])[|were|]) == Strip(bullet);
      assert Present(Bullets(now), bullet);
      RStripEdge(bullet);
      if Written(now, bullet) == now {
        LengthOfDocument(were, RStrip(bullet), bullet, Tail(text));
      }
    }
  }

  // ---- Line by line -------------------------------------------------------------------------------

  /** The last heading up to line `i` is line `h`. */
  predicate LastHeading(lines: seq<string>, h: nat, i: nat) {
    && h <= i < |lines| && "## " <= Strip(lines[h])
    && forall k | h < k <= i :: !("## " <= Strip(lines[k]))
  }

  predicate NoHeading(lines: seq<string>, i: nat) {
    i < |lines| && forall k | 0 <= k <= i :: !("## " <= Strip(lines[k]))
  }

  /** Line `i` stands in an Inject section, or in one of the others. */
  predicate InSection(lines: seq<string>, i: nat, inject: bool) {
    exists h: nat | h <= i :: LastHeading(lines, h, i) && (Strip(lines[h]) == "## Inject") == inject
  }

  /** A line below an Inject heading. */
  predicate UnderInject(lines: seq<string>, i: nat) {
    i < |lines| && InSection(lines, i, true) && !("## " <= Strip(lines[i]))
  }

  /** A line of any other section, its heading included. */
  predicate UnderOther(lines: seq<string>, i: nat) {
    i < |lines| && InSection(lines, i, false)
  }

  /** The same for lines that follow other ones, where the section that is open counts. */
  predicate InOrOpen(lines: seq<string>, i: nat, inject: bool, open: bool) {
    InSection(lines, i, inject) || (open && NoHeading(lines, i))
  }

  /** The section that is open behind the first line. */
  predicate OpenNext(line: string, inject: bool, open: bool) {
    if IsHeading(line) then IsInjectHeading(line) == inject else open
  }

  lemma HeadingShift(lines: seq<string>, h: nat, i: nat)
    requires lines != []
    ensures LastHeading(lines, h + 1, i + 1) <==> LastHeading(lines[1..], h, i)
  {
    assert forall k: nat | k < |lines[1..]| :: lines[1..][k] == lines[k + 1];
    if LastHeading(lines[1..], h, i) {
      forall k | h + 1 < k <= i + 1
        ensures !("## " <= Strip(lines[k]))
      {
        assert lines[1..][k - 1] == lines[k];
      }
    }
  }

  lemma FirstHeading(lines: seq<string>, i: nat)
    requires i + 1 < |lines|
    ensures LastHeading(lines, 0, i + 1) <==> IsHeading(lines[0]) && NoHeading(lines[1..], i)
    ensures NoHeading(lines, i + 1) <==> !IsHeading(lines[0]) && NoHeading(lines[1..], i)
  {
    assert forall k: nat | k < |lines[1..]| :: lines[1..][k] == lines[k + 1];
    if NoHeading(lines[1..], i) {
      forall k | 0 < k <= i + 1
        ensures !("## " <= Strip(lines[k]))
      {
        assert lines[1..][k - 1] == lines[k];
      }
    }
  }

  lemma SectionShift(lines: seq<string>, i: nat, inject: bool, open: bool)
    requires i + 1 < |lines|
    ensures InOrOpen(lines, i + 1, inject, open) <==>
            InOrOpen(lines[1..], i, inject, OpenNext(lines[0], inject, open))
  {
    FirstHeading(lines, i);
    if h: nat :| h <= i + 1 && LastHeading(lines, h, i + 1) && (Strip(lines[h]) == "## Inject") == inject {
      if h > 0 {
        HeadingShift(lines, h - 1, i);
        assert lines[1..][h - 1] == lines[h];
        assert InSection(lines[1..], i, inject);
      }
    }
    if h: nat :| h <= i && LastHeading(lines[1..], h, i) && (Strip(lines[1..][h]) == "## Inject") == inject {
      HeadingShift(lines, h, i);
      assert lines[1..][h] == lines[h + 1];
      assert InSection(lines, i + 1, inject);
    }
    if IsHeading(lines[0]) && NoHeading(lines[1..], i) && IsInjectHeading(lines[0]) == inject {
      assert LastHeading(lines, 0, i + 1);
      assert InSection(lines, i + 1, inject);
    }
  }

  lemma SectionFirst(lines: seq<string>, inject: bool, open: bool)
    requires lines != []
    ensures InOrOpen(lines, 0, inject, open) <==> OpenNext(lines[0], inject, open)
  {
    if IsHeading(lines[0]) {
      assert LastHeading(lines, 0, 0);
    }
  }

  lemma {:induction false} InjectPicked(lines: seq<string>, open: bool)
    ensures Picks(lines, InjectLines(lines, open),
                  (i: nat) => i < |lines| && InOrOpen(lines, i, true, open) && !IsHeading(lines[i]))
  {
    if lines == [] {
      assert PicksAt(lines, [], []);
    } else {
      var rest, next := lines[1..], OpenNext(lines[0], true, open);
      var chosen := (i: nat) => i < |lines| && InOrOpen(lines, i, true, open) && !IsHeading(lines[i]);
      InjectPicked(rest, next);
      forall i: nat | i < |rest| {
        SectionShift(lines, i, true, open);
      }
      SectionFirst(lines, true, open);
      PickFirst(lines, InjectLines(rest, next),
                (i: nat) => i < |rest| && InOrOpen(rest, i, true, next) && !IsHeading(rest[i]), chosen);
      assert [] + InjectLines(rest, next) == InjectLines(rest, next);
    }
  }

  lemma {:induction false} OthersPicked(lines: seq<string>, open: bool)
    ensures Picks(lines, TailLines(lines, open), (i: nat) => i < |lines| && InOrOpen(lines, i, false, open))
  {
    if lines == [] {
      assert PicksAt(lines, [], []);
    } else {
      var rest, next := lines[1..], OpenNext(lines[0], false, open);
      var chosen := (i: nat) => i < |lines| && InOrOpen(lines, i, false, open);
      InjectHeadingIsHeading(lines[0]);
      OthersPicked(rest, next);
      forall i: nat | i < |rest| {
        SectionShift(lines, i, false, open);
      }
      SectionFirst(lines, false, open);
      PickFirst(lines, TailLines(rest, next), (i: nat) => i < |rest| && InOrOpen(rest, i, false, next), chosen);
      assert [] + TailLines(rest, next) == TailLines(rest, next);
    }
  }

  lemma InjectHeadingIsHeading(line: string)
    ensures IsInjectHeading(line) ==> IsHeading(line)
  {
  }

  /** `body` are the lines under Inject headings and `others` those of all other sections, by position. */
  ghost predicate Sorts(lines: seq<string>, body: seq<string>, others: seq<string>) {
    && Picks(lines, body, (i: nat) => UnderInject(lines, i))
    && Picks(lines, others, (i: nat) => UnderOther(lines, i))
  }

  lemma LinesSorted(lines: seq<string>)
    ensures Sorts(lines, InjectLines(lines, false), TailLines(lines, false))
  {
    InjectPicked(lines, false);
    OthersPicked(lines, false);
    PicksSame(lines, InjectLines(lines, false),
              (i: nat) => i < |lines| && InOrOpen(lines, i, true, false) && !IsHeading(lines[i]),
              (i: nat) => UnderInject(lines, i));
    PicksSame(lines, TailLines(lines, false), (i: nat) => i < |lines| && InOrOpen(lines, i, false, false),
              (i: nat) => UnderOther(lines, i));
  }

  lemma TwoMarks(lines: seq<string>)
    requires |lines| > 1 && Strip(lines[0]) != [] && Strip(lines[|lines| - 1]) != []
    ensures |Marks(lines)| > 1
  {
    var rest := lines[1..];
    MarkOf(rest, |rest| - 1);
  }

  lemma OneMark(s: string)
    requires Stripped(s) && AllBreakFree(PlainLines(s)) && JoinLines(PlainLines(s)) == s && s != []
    requires PlainLines(s) != [] && |Marks(PlainLines(s))| == 1
    ensures Marks(PlainLines(s)) == [s]
  {
    var lines := PlainLines(s);
    TightEdges(s, lines);
    if |lines| > 1 {
      TwoMarks(lines);
    }
    assert lines == [s];
    StripStripped(s);
  }

  /** The lines that are not blank are what reading the sections gives; the sentinel alone counts as nothing. */
  lemma SectionMarks(text: string)
    ensures var lines := PlainLines(text);
            && Marks(PlainLines(Tail(text))) == Marks(TailLines(lines, false))
            && Marks(Bullets(text)) == OldMarks(InjectLines(lines, false))
  {
    var lines := PlainLines(text);
    PlainBreakFree(text);
    InjectFrom(lines, false);
    TailFrom(lines, false);
    StrippedJoin(InjectLines(lines, false));
    StrippedJoin(TailLines(lines, false));
    MissingIsOneLine();
    var body := Extract(text);
    NonBlankKeeps(PlainLines(body));
    if body == MISSING_DOC {
      assert Marks([MISSING_DOC]) == [MISSING_DOC];
    } else if body != [] && |Marks(PlainLines(body))| == 1 {
      OneMark(body);
    }
  }

  function OldMarks(body: seq<string>): seq<string> {
    if Marks(body) == [MISSING_DOC] then [] else Marks(body)
  }

  /** Of the lines that are not blank, stripped: the body gains the bullet exactly if it was not in it, the others are
      the same. A body that holds nothing but the sentinel counts as empty. */
  predicate GainsOnly(body0: seq<string>, others0: seq<string>, body1: seq<string>, others1: seq<string>,
                      bullet: string)
  {
    && Marks(others1) == Marks(others0)
    && Marks(body1) == OldMarks(body0) + if Strip(bullet) in Marks(body0) then [] else [Strip(bullet)]
  }

  lemma RewriteGains(text: string, finding: string)
    requires BreakFree(finding)
    ensures var before, after := PlainLines(text), PlainLines(Written(text, BulletOf(finding)));
            GainsOnly(InjectLines(before, false), TailLines(before, false),
                      InjectLines(after, false), TailLines(after, false), BulletOf(finding))
  {
    var bullet, were, now := BulletOf(finding), Bullets(text), Written(text, BulletOf(finding));
    RewriteRoundTrips(text, finding);
    SectionMarks(text);
    SectionMarks(now);
    BulletIsReadable(finding);
    PresentExact(were, bullet);
    NewMarks(were, bullet);
    assert Strip(bullet)[0] != MISSING_DOC[0];
    assert Marks(Bullets(now)) == Marks(were) + if Present(were, bullet) then [] else [Strip(bullet)];
    assert Strip(bullet) in Marks(Bullets(now));
  }

  /** Line by line: below the Inject heading stand the lines that stood there, in order, then the bullet exactly if it
      was not among them, and the lines of the other sections are those they were. */
  lemma RewriteKeepsLines(text: string, finding: string)
    requires BreakFree(finding)
    ensures exists body0, others0, body1, others1 ::
              && Sorts(PlainLines(text), body0, others0)
              && Sorts(PlainLines(Written(text, BulletOf(finding))), body1, others1)
              && GainsOnly(body0, others0, body1, others1, BulletOf(finding))
  {
    var before, after := PlainLines(text), PlainLines(Written(text, BulletOf(finding)));
    LinesSorted(before);
    LinesSorted(after);
    RewriteGains(text, finding);
  }

  lemma PresentExact(bullets: seq<string>, bullet: string)
    requires Strip(bullet) != []
    ensures Present(bullets, bullet) <==> Strip(bullet) in Marks(bullets)
  {
    if i :| 0 <= i < |bullets| && Strip(bullets[i]) == Strip(bullet) {
      MarkOf(bullets, i);
    }
    if Strip(bullet) in Marks(bullets) {
      MarkFrom(bullets, Strip(bullet));
    }
  }

  lemma NewMarks(were: seq<string>, bullet: string)
    requires Strip(bullet) != []
    ensures Marks(were + [RStrip(bullet)]) == Marks(were) + [Strip(bullet)] && Marks(were + []) == Marks(were)
  {
    MarksAppend(were, [RStrip(bullet)]);
    StripRStrip(bullet);
    assert were + [] == were;
  }

  // ---- The findings of stored items ----------------------------------------------------------------

  /** `_first_line`: the first line that is not blank, stripped. */
  function FirstLine(text: string): string {
    var lines := NonBlank(PlainLines(text));
    if lines == [] then [] else Strip(lines[0])
  }

  /** A finding read from a stored item is one stripped line. */
  lemma FindingIsTight(section: string)
    requires FirstLine(section) != []
    ensures var finding := FirstLine(section); BreakFree(finding) && RStrip(BulletOf(finding)) == BulletOf(finding)
  {
    PlainBreakFree(section);
    NonBlankKeeps(PlainLines(section));
    var line, finding := NonBlank(PlainLines(section))[0], FirstLine(section);
    assert BreakFree(line);
    StripEdges(line);
    RStripTight(BulletOf(finding));
  }

  /** For every item that is stored, writing its bullet gives the old bullets, then this one exactly if it was absent,
      keeps the other sections, and writing it again changes nothing. */
  lemma StoredItemRoundTrips(text: string, section: string)
    requires FirstLine(section) != []
    ensures var bullet, were := BulletOf(FirstLine(section)), Bullets(text);
            var now := Written(text, bullet);
            && Bullets(now) == were + (if Present(were, bullet) then [] else [bullet])
            && Tail(now) == Tail(text) && Written(now, bullet) == now
  {
    var finding := FirstLine(section);
    FindingIsTight(section);
    RewriteRoundTrips(text, finding);
    RewriteIsStable(text, finding);
  }

  /** A finding with a space at its end, which no stored item has, is written differently the second time. */
  lemma TrailingSpaceRewrites()
    ensures var bullet := BulletOf("a ");
            BreakFree("a ") && Written(Written("", bullet), bullet) != Written("", bullet)
  {
    var bullet := BulletOf("a ");
    assert PlainLines("") == [] && Strip("") == [] && Extract("") == [];
    assert Bullets("") == [] && !Present([], bullet);
    assert bullet == "- a " && IsSpace(bullet[3]);
    RStripEdge(bullet);
    assert RStrip(bullet) != bullet;
    RewriteIsStable("", "a ");
  }
}
