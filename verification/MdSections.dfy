/** The `## ` section splitter (mdsections.py). */
module MdSections {
  import opened Text
  import opened Wrappers
  import Seqs

  datatype Section = Section(heading: string, body: string)

  function DropNewlines(s: string): string {
    if s != [] && s[|s| - 1] == '\n' then DropNewlines(s[..|s| - 1]) else s
  }

  /** `_H2` on one line: the stripped title when the line is an H2 heading. */
  function Heading(line: string): Option<string> {
    var s := DropNewlines(line);
    if |s| >= 4 && s[..2] == "##" && IsSpace(s[2]) then Some(Strip(s[2..])) else None
  }

  datatype Parts = Parts(preamble: string, sections: seq<Section>)

  /** One more line: a heading opens a section, any other line joins what is open. */
  function AddLine(parts: Parts, line: string): Parts {
    var h := Heading(line);
    if h.Some? then parts.(sections := parts.sections + [Section(h.value, line)])
    else Grow(parts, line)
  }

  /** Text added to what is open: the last section, or the preamble before there is one. */
  function Grow(parts: Parts, text: string): Parts {
    if parts.sections == [] then parts.(preamble := parts.preamble + text)
    else
      var n := |parts.sections| - 1;
      var last := parts.sections[n];
      parts.(sections := parts.sections[..n] + [last.(body := last.body + text)])
  }

  function AddLines(parts: Parts, lines: seq<string>): Parts
    decreases |lines|
  {
    if lines == [] then parts else AddLines(AddLine(parts, lines[0]), lines[1..])
  }

  function Split(text: string): Parts {
    AddLines(Parts([], []), SplitLines(text))
  }

  function Bodies(sections: seq<Section>): string {
    if sections == [] then [] else sections[0].body + Bodies(sections[1..])
  }

  /** `join_sections`. */
  function Join(parts: Parts): string {
    parts.preamble + Bodies(parts.sections)
  }

  lemma {:induction false} AddLinesSnoc(parts: Parts, lines: seq<string>, line: string)
    ensures AddLines(parts, lines + [line]) == AddLine(AddLines(parts, lines), line)
  {
    AddLinesAppend(parts, lines, [line]);
    assert [line][1..] == [];
  }

  lemma {:induction false} AddLinesAppend(parts: Parts, a: seq<string>, b: seq<string>)
    ensures AddLines(parts, a + b) == AddLines(AddLines(parts, a), b)
    decreases |a|
  {
    if a == [] {
      assert a + b == b;
    } else {
      assert (a + b)[1..] == a[1..] + b;
      AddLinesAppend(AddLine(parts, a[0]), a[1..], b);
    }
  }

  lemma GrowLast(preamble: string, sections: seq<Section>, last: Section, text: string)
    ensures Grow(Parts(preamble, sections + [last]), text) ==
            Parts(preamble, sections + [last.(body := last.body + text)])
  {
    assert (sections + [last])[..|sections|] == sections;
  }

  lemma AddNextLine(lines: seq<string>, i: nat)
    requires i < |lines|
    ensures AddLines(Parts([], []), lines[..i + 1]) == AddLine(AddLines(Parts([], []), lines[..i]), lines[i])
  {
    assert lines[..i + 1] == lines[..i] + [lines[i]];
    AddLinesSnoc(Parts([], []), lines[..i], lines[i]);
  }

  /** `split_sections`. */
  method SplitSections(text: string) returns (parts: Parts)
    ensures parts == Split(text)
  {
    var lines := SplitLines(text);
    var preamble: string, sections: seq<Section> := [], [];
    var current: Option<Section> := None;
    for i := 0 to |lines|
      invariant AddLines(Parts([], []), lines[..i]) ==
                Parts(preamble, sections + if current.Some? then [current.value] else [])
      invariant current.None? ==> sections == []
    {
      var line := lines[i];
      AddNextLine(lines, i);
      var h := Heading(line);
      if h.Some? {
        if current.Some? {
          sections := sections + [current.value];
        }
        current := Some(Section(h.value, line));
      } else if current.None? {
        preamble := preamble + line;
      } else {
        GrowLast(preamble, sections, current.value, line);
        current := Some(current.value.(body := current.value.body + line));
      }
    }
    if current.Some? {
      sections := sections + [current.value];
    }
    assert lines[..|lines|] == lines;
    parts := Parts(preamble, sections);
  }

  // ---- Splitting loses nothing ---------------------------------------------------------

  lemma {:induction false} BodiesAppend(a: seq<Section>, b: seq<Section>)
    ensures Bodies(a + b) == Bodies(a) + Bodies(b)
  {
    if a == [] {
      assert a + b == b;
    } else {
      assert (a + b)[1..] == a[1..] + b;
      BodiesAppend(a[1..], b);
    }
  }

  lemma GrowJoins(parts: Parts, text: string)
    ensures Join(Grow(parts, text)) == Join(parts) + text
  {
    if parts.sections != [] {
      var n := |parts.sections| - 1;
      var init, last := parts.sections[..n], parts.sections[n];
      assert parts.sections == init + [last];
      BodiesAppend(init, [last]);
      BodiesAppend(init, [last.(body := last.body + text)]);
      assert Bodies([last]) == last.body + [];
      assert Bodies([last.(body := last.body + text)]) == last.body + text + [];
    }
  }

  lemma AddLineJoins(parts: Parts, line: string)
    ensures Join(AddLine(parts, line)) == Join(parts) + line
  {
    var h := Heading(line);
    if h.Some? {
      BodiesAppend(parts.sections, [Section(h.value, line)]);
      assert Bodies([Section(h.value, line)]) == line + [];
    } else {
      GrowJoins(parts, line);
    }
  }

  lemma {:induction false} AddLinesJoins(parts: Parts, lines: seq<string>)
    ensures Join(AddLines(parts, lines)) == Join(parts) + Flat(lines)
    decreases |lines|
  {
    if lines != [] {
      AddLineJoins(parts, lines[0]);
      AddLinesJoins(AddLine(parts, lines[0]), lines[1..]);
    }
  }

  /** Joining what was split gives the text back. */
  lemma JoinSplit(text: string)
    ensures Join(Split(text)) == text
  {
    AddLinesJoins(Parts([], []), SplitLines(text));
    SplitLinesFlat(text);
  }

  // ---- Splitting what was joined -----------------------------------------------------------

  predicate NoHeadings(lines: seq<string>) {
    forall i | 0 <= i < |lines| :: Heading(lines[i]).None?
  }

  /** The body is the section's own heading line followed by lines that are not headings. */
  predicate IsSection(sec: Section) {
    var lines := SplitLines(sec.body);
    lines != [] && Heading(lines[0]) == Some(sec.heading) && NoHeadings(lines[1..])
  }

  /** Parts as a split yields them: only the very last line of the text may be unended. */
  predicate WellFormed(parts: Parts) {
    && NoHeadings(SplitLines(parts.preamble))
    && (parts.sections != [] ==> Terminated(parts.preamble))
    && (forall i | 0 <= i < |parts.sections| :: IsSection(parts.sections[i]))
    && (forall i | 0 <= i < |parts.sections| - 1 :: Terminated(parts.sections[i].body))
  }

  lemma GrowTwice(parts: Parts, a: string, b: string)
    ensures Grow(Grow(parts, a), b) == Grow(parts, a + b)
    ensures Grow(parts, []) == parts
  {
    if parts.sections != [] {
      var n := |parts.sections| - 1;
      var last := parts.sections[n];
      assert Grow(parts, a).sections[..n] == parts.sections[..n];
      assert (last.body + a) + b == last.body + (a + b);
      assert last.body + [] == last.body;
    } else {
      assert (parts.preamble + a) + b == parts.preamble + (a + b);
      assert parts.preamble + [] == parts.preamble;
    }
  }

  lemma {:induction false} AddPlainLines(parts: Parts, lines: seq<string>)
    requires NoHeadings(lines)
    ensures AddLines(parts, lines) == Grow(parts, Flat(lines))
    decreases |lines|
  {
    if lines == [] {
      GrowTwice(parts, [], []);
    } else {
      assert Heading(lines[0]).None?;
      AddPlainLines(Grow(parts, lines[0]), lines[1..]);
      GrowTwice(parts, lines[0], Flat(lines[1..]));
    }
  }

  lemma AddSection(parts: Parts, sec: Section)
    requires IsSection(sec)
    ensures AddLines(parts, SplitLines(sec.body)) == parts.(sections := parts.sections + [sec])
  {
    var lines := SplitLines(sec.body);
    var started := AddLine(parts, lines[0]);
    assert started.sections[..|parts.sections|] == parts.sections;
    AddPlainLines(started, lines[1..]);
    SplitLinesFlat(sec.body);
  }

  lemma {:induction false} AddSections(parts: Parts, sections: seq<Section>)
    requires forall i | 0 <= i < |sections| :: IsSection(sections[i])
    requires forall i | 0 <= i < |sections| - 1 :: Terminated(sections[i].body)
    ensures AddLines(parts, SplitLines(Bodies(sections))) == parts.(sections := parts.sections + sections)
    decreases |sections|
  {
    if sections == [] {
      assert parts.sections + sections == parts.sections;
    } else {
      var sec, rest := sections[0], sections[1..];
      var next := parts.(sections := parts.sections + [sec]);
      AddSection(parts, sec);
      AddSections(next, rest);
      Seqs.Assoc(parts.sections, [sec], rest);
      assert [sec] + rest == sections;
      FirstBody(sections);
      AddLinesAppend(parts, SplitLines(sec.body), SplitLines(Bodies(rest)));
    }
  }

  lemma FirstBody(sections: seq<Section>)
    requires sections != [] && (|sections| > 1 ==> Terminated(sections[0].body))
    ensures SplitLines(Bodies(sections)) == SplitLines(sections[0].body) + SplitLines(Bodies(sections[1..]))
  {
    if |sections| > 1 {
      SplitLinesAppend(sections[0].body, Bodies(sections[1..]));
    } else {
      assert sections[0].body + [] == sections[0].body;
    }
  }

  /** Splitting what was joined gives the parts back. */
  lemma SplitJoin(parts: Parts)
    requires WellFormed(parts)
    ensures Split(Join(parts)) == parts
  {
    var pre := SplitLines(parts.preamble);
    AddPlainLines(Parts([], []), pre);
    SplitLinesFlat(parts.preamble);
    if parts.sections == [] {
      assert parts.preamble + [] == parts.preamble;
    } else {
      SplitLinesAppend(parts.preamble, Bodies(parts.sections));
      AddLinesAppend(Parts([], []), pre, SplitLines(Bodies(parts.sections)));
      AddSections(Parts(parts.preamble, []), parts.sections);
      assert [] + parts.sections == parts.sections;
      assert [] + parts.preamble == parts.preamble;
    }
  }

  // ---- A split is well formed --------------------------------------------------------------

  /** What is open so far ends with a complete line. */
  predicate Ended(parts: Parts) {
    Terminated(if parts.sections == [] then parts.preamble else parts.sections[|parts.sections| - 1].body)
  }

  lemma SectionGrows(sec: Section, line: string)
    requires IsSection(sec) && Terminated(sec.body) && IsLine(line) && Heading(line).None?
    ensures IsSection(sec.(body := sec.body + line))
  {
    SplitLinesOne(line);
    SplitLinesAppend(sec.body, line);
    var lines := SplitLines(sec.body);
    assert (lines + [line])[1..] == lines[1..] + [line];
  }

  lemma HeadingOpens(parts: Parts, line: string)
    requires WellFormed(parts) && Ended(parts) && IsLine(line) && Heading(line).Some?
    ensures WellFormed(AddLine(parts, line))
  {
    SplitLinesOne(line);
    var sec := Section(Heading(line).value, line);
    assert SplitLines(sec.body)[1..] == [];
    assert IsSection(sec);
    var n, more := |parts.sections|, AddLine(parts, line).sections;
    forall i | 0 <= i <= n
      ensures IsSection(more[i]) && (i < n ==> Terminated(more[i].body))
    {
      assert more[i] == if i < n then parts.sections[i] else sec;
    }
  }

  lemma PreambleGrows(parts: Parts, line: string)
    requires WellFormed(parts) && Ended(parts) && IsLine(line) && Heading(line).None? && parts.sections == []
    ensures WellFormed(AddLine(parts, line))
  {
    SplitLinesOne(line);
    SplitLinesAppend(parts.preamble, line);
  }

  lemma LastSectionGrows(parts: Parts, line: string)
    requires WellFormed(parts) && Ended(parts) && IsLine(line) && Heading(line).None? && parts.sections != []
    ensures WellFormed(AddLine(parts, line))
  {
    var n := |parts.sections| - 1;
    SectionGrows(parts.sections[n], line);
    var more := AddLine(parts, line).sections;
    forall i | 0 <= i <= n
      ensures IsSection(more[i]) && (i < n ==> Terminated(more[i].body))
    {
      assert i < n ==> more[i] == parts.sections[i];
    }
  }

  lemma AddLineWellFormed(parts: Parts, line: string)
    requires WellFormed(parts) && Ended(parts) && IsLine(line)
    ensures WellFormed(AddLine(parts, line))
    ensures Terminated(line) ==> Ended(AddLine(parts, line))
  {
    if Heading(line).Some? {
      HeadingOpens(parts, line);
    } else if parts.sections == [] {
      PreambleGrows(parts, line);
    } else {
      LastSectionGrows(parts, line);
    }
  }

  lemma {:induction false} AddLinesWellFormed(parts: Parts, lines: seq<string>)
    requires WellFormed(parts) && Ended(parts) && AreLines(lines)
    ensures WellFormed(AddLines(parts, lines))
    decreases |lines|
  {
    if lines != [] {
      assert IsLine(lines[0]);
      AddLineWellFormed(parts, lines[0]);
      if |lines| > 1 {
        assert Terminated(lines[0]);
        AddLinesWellFormed(AddLine(parts, lines[0]), lines[1..]);
      }
    }
  }

  lemma SplitWellFormed(text: string)
    ensures WellFormed(Split(text))
  {
    SplitLinesFlat(text);
    AddLinesWellFormed(Parts([], []), SplitLines(text));
  }
}
