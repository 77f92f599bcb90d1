/** A second prune right after the first has nothing left to do. */
module PruneIdempotence {
  import opened MdSections
  import opened Prune
  import opened PruneApply
  import opened PruneTheorems
  import opened Text
  import opened Wrappers
  import Seqs

  // ---- The headings of a text -----------------------------------------------------------------

  function HeadingsIn(lines: seq<string>): seq<string> {
    if lines == [] then []
    else (if Heading(lines[0]).Some? then [Heading(lines[0]).value] else []) + HeadingsIn(lines[1..])
  }

  function TextHeadings(text: string): seq<string> {
    HeadingsIn(SplitLines(text))
  }

  lemma {:induction false} HeadingsInAppend(a: seq<string>, b: seq<string>)
    ensures HeadingsIn(a + b) == HeadingsIn(a) + HeadingsIn(b)
  {
    if a == [] {
      assert a + b == b;
    } else {
      assert (a + b)[1..] == a[1..] + b;
      HeadingsInAppend(a[1..], b);
    }
  }

  lemma TextHeadingsAppend(a: string, b: string)
    requires Terminated(a)
    ensures TextHeadings(a + b) == TextHeadings(a) + TextHeadings(b)
  {
    SplitLinesAppend(a, b);
    HeadingsInAppend(SplitLines(a), SplitLines(b));
  }

  lemma {:induction false} NoHeadingsIn(lines: seq<string>)
    requires NoHeadings(lines)
    ensures HeadingsIn(lines) == []
  {
    if lines != [] {
      assert Heading(lines[0]).None?;
      NoHeadingsIn(lines[1..]);
    }
  }

  lemma SectionHeadings(sec: Section)
    requires IsSection(sec)
    ensures TextHeadings(sec.body) == [sec.heading]
  {
    NoHeadingsIn(SplitLines(sec.body)[1..]);
  }

  lemma LineHeadings(line: string)
    requires IsLine(line)
    ensures TextHeadings(line) == if Heading(line).Some? then [Heading(line).value] else []
  {
    SplitLinesOne(line);
    assert HeadingsIn([line]) == (if Heading(line).Some? then [Heading(line).value] else []) + HeadingsIn([]);
  }

  lemma OpenHeadings(l: string)
    requires BreakFree(l)
    ensures TextHeadings(l + "\n") == TextHeadings(l)
  {
    assert (l + "\n")[..|l|] == l;
    assert DropNewlines(l + "\n") == DropNewlines(l);
    LineHeadings(l + "\n");
    if l != [] {
      LineHeadings(l);
    }
  }

  /** A line ending does not change which lines are headings. */
  lemma TextHeadingsNewline(s: string)
    ensures TextHeadings(s + "\n") == TextHeadings(s)
  {
    var l := OpenLine(s);
    OpenLineExact(s);
    var y := s[..|s| - |l|];
    Seqs.Assoc(y, l, "\n");
    TextHeadingsAppend(y, l);
    TextHeadingsAppend(y, l + "\n");
    OpenHeadings(l);
  }

  lemma {:induction false} TextHeadingsDropNewlines(s: string)
    ensures TextHeadings(DropNewlines(s)) == TextHeadings(s)
  {
    if s != [] && s[|s| - 1] == '\n' {
      TextHeadingsDropNewlines(s[..|s| - 1]);
      TextHeadingsNewline(s[..|s| - 1]);
      assert s == s[..|s| - 1] + "\n";
    }
  }

  lemma {:induction false} TextHeadingsSkipNewlines(s: string)
    ensures TextHeadings(SkipNewlines(s)) == TextHeadings(s)
  {
    if s != [] && s[0] == '\n' {
      TextHeadingsSkipNewlines(s[1..]);
      assert s == "\n" + s[1..];
      SplitLinesOne("\n");
      TextHeadingsAppend("\n", s[1..]);
    }
  }

  // ---- The headings of a split are the headings of its text -------------------------------------

  lemma {:induction false} BodiesHeadings(sections: seq<Section>)
    requires forall i | 0 <= i < |sections| :: IsSection(sections[i])
    requires forall i | 0 <= i < |sections| - 1 :: Terminated(sections[i].body)
    ensures TextHeadings(Bodies(sections)) == Headings(sections)
  {
    if sections != [] {
      BodiesHeadings(sections[1..]);
      SectionHeadings(sections[0]);
      FirstBody(sections);
      HeadingsInAppend(SplitLines(sections[0].body), SplitLines(Bodies(sections[1..])));
      HeadingsCons(sections);
    }
  }

  lemma HeadingsCons(sections: seq<Section>)
    requires sections != []
    ensures Headings(sections) == [sections[0].heading] + Headings(sections[1..])
  {
  }

  lemma SplitHeadings(text: string)
    ensures Headings(Split(text).sections) == TextHeadings(text)
  {
    var parts := Split(text);
    SplitWellFormed(text);
    JoinSplit(text);
    BodiesHeadings(parts.sections);
    NoHeadingsIn(SplitLines(parts.preamble));
    if parts.sections == [] {
      assert parts.preamble + [] == parts.preamble;
    } else {
      TextHeadingsAppend(parts.preamble, Bodies(parts.sections));
    }
  }

  // ---- Texts in which nothing is claimed ----------------------------------------------------------

  predicate Free(owned: seq<ReconcileItem>, text: string) {
    forall h | h in TextHeadings(text) :: !Claimed(owned, h)
  }

  lemma FreeAppend(owned: seq<ReconcileItem>, a: string, b: string)
    requires Terminated(a) && Free(owned, a) && Free(owned, b)
    ensures Free(owned, a + b)
  {
    TextHeadingsAppend(a, b);
  }

  predicate FreeBodies(owned: seq<ReconcileItem>, sections: seq<Section>) {
    forall i | 0 <= i < |sections| :: Free(owned, sections[i].body)
  }

  /** Every body but the last ends with a complete line. */
  predicate EndedBodies(sections: seq<Section>) {
    forall i | 0 <= i < |sections| - 1 :: Terminated(sections[i].body)
  }

  lemma {:induction false} FreeBodiesJoin(owned: seq<ReconcileItem>, sections: seq<Section>)
    requires FreeBodies(owned, sections) && EndedBodies(sections)
    ensures Free(owned, Bodies(sections))
  {
    if |sections| > 1 {
      FreeBodiesJoin(owned, sections[1..]);
      FreeAppend(owned, sections[0].body, Bodies(sections[1..]));
    } else if |sections| == 1 {
      assert sections[0].body + [] == sections[0].body;
    }
  }

  lemma FreeJoin(owned: seq<ReconcileItem>, parts: Parts)
    requires NoHeadings(SplitLines(parts.preamble)) && Terminated(parts.preamble)
    requires FreeBodies(owned, parts.sections) && EndedBodies(parts.sections)
    ensures Free(owned, Join(parts))
  {
    NoHeadingsIn(SplitLines(parts.preamble));
    FreeBodiesJoin(owned, parts.sections);
    FreeAppend(owned, parts.preamble, Bodies(parts.sections));
  }

  // ---- The pointer section -------------------------------------------------------------------------

  const KEYWORD := "archived"

  /** No owned done item has the word of the pointer's heading among its keywords. */
  predicate NoArchivedKeyword(owned: seq<ReconcileItem>) {
    forall i | 0 <= i < |owned| :: KEYWORD !in Keywords(owned[i])
  }

  lemma ArchivedTokens()
    ensures Tokens(ARCHIVED) == {KEYWORD}
    ensures Tokens(" " + ARCHIVED) == {KEYWORD}
  {
    var s := ARCHIVED;
    TokensWord(s, []);
    LowerPointwise(s);
    assert Lower(s) == KEYWORD;
    assert [] + KEYWORD == KEYWORD;
    assert (" " + s)[1..] == s;
  }

  lemma {:induction false} LowerPointwise(s: string)
    ensures |Lower(s)| == |s| && forall i | 0 <= i < |s| :: Lower(s)[i] == LowerChar(s[i])
  {
    if s != [] {
      LowerPointwise(s[1..]);
    }
  }

  lemma {:induction false} TokensWord(s: string, run: string)
    requires forall c | c in s :: IsAlnum(c)
    requires s != [] || run != []
    ensures TokensFrom(s, run) == {run + Lower(s)}
    decreases |s|
  {
    if s == [] {
      assert run + Lower(s) == run;
    } else {
      assert s[0] in s;
      TokensWord(s[1..], run + [LowerChar(s[0])]);
      Seqs.Assoc(run, [LowerChar(s[0])], Lower(s[1..]));
    }
  }

  lemma {:induction false} DropNewlinesPrefix(s: string)
    ensures DropNewlines(s) <= s
    ensures s != [] && s[|s| - 1] != '\n' ==> DropNewlines(s) == s
  {
    if s != [] && s[|s| - 1] == '\n' {
      DropNewlinesPrefix(s[..|s| - 1]);
    }
  }

  lemma NotAHeading(line: string)
    requires line == [] || line[0] != '#'
    ensures Heading(line).None?
  {
    DropNewlinesPrefix(line);
    var s := DropNewlines(line);
    assert |s| >= 4 ==> s[..2][0] == line[0];
  }

  lemma TextLines(p: string)
    requires BreakFree(p)
    ensures SplitLines("\n" + p + "\n\n") == ["\n", p + "\n", "\n"]
  {
    LineThen("", "");
    LineThen(p, "\n");
    LineThen("", p + "\n\n");
    assert "" + "\n" + "" == "\n";
    assert p + "\n" + "\n" == p + "\n\n";
    assert "" + "\n" + (p + "\n\n") == "\n" + p + "\n\n";
  }

  const HASHED := "## Archived"
  const HEAD_LINE := "## Archived\n"

  function PointerRest(ref: string): string {
    "\n" + PointerText(ref) + "\n\n"
  }

  lemma PointerBody(ref: string)
    ensures PointerSection(ref).body == HEAD_LINE + PointerRest(ref)
  {
    var line := PointerText(ref);
    Seqs.Assoc(HEAD_LINE, "\n", line);
    Seqs.Assoc(HEAD_LINE, "\n" + line, "\n\n");
    assert HEAD_LINE + "\n" == "## Archived\n\n";
  }

  lemma PointerIsPlain(ref: string)
    requires BreakFree(ref)
    ensures BreakFree(PointerText(ref))
  {
  }

  lemma PointerLines(ref: string)
    requires BreakFree(ref)
    ensures PointerSection(ref).body == HEAD_LINE + PointerRest(ref)
    ensures SplitLines(PointerRest(ref)) == ["\n", PointerText(ref) + "\n", "\n"]
    ensures SplitLines(PointerSection(ref).body) == [HEAD_LINE] + SplitLines(PointerRest(ref))
  {
    PointerIsPlain(ref);
    TextLines(PointerText(ref));
    LineThen(HASHED, PointerRest(ref));
    assert HASHED + "\n" == HEAD_LINE;
    PointerBody(ref);
  }

  lemma ArchivedLine()
    ensures Heading(HEAD_LINE) == Some(ARCHIVED)
  {
    var s := "## Archived";
    DropNewlinesPrefix(s);
    assert HEAD_LINE[..11] == s;
    assert s[2..] == " Archived" && " Archived"[1..] == ARCHIVED;
    StripStripped(ARCHIVED);
  }

  lemma PointerIsSection(ref: string)
    requires BreakFree(ref)
    ensures IsSection(PointerSection(ref)) && Terminated(PointerSection(ref).body)
    ensures NoHeadings(SplitLines(PointerRest(ref)))
  {
    PointerLines(ref);
    ArchivedLine();
    NotAHeading("\n");
    NotAHeading(PointerText(ref) + "\n");
    assert ([HEAD_LINE] + SplitLines(PointerRest(ref)))[1..] == SplitLines(PointerRest(ref));
  }

  // ---- Repairing a pointer section in place ----------------------------------------------------------

  lemma {:induction false} SplitLinesOfLines(lines: seq<string>)
    requires AreLines(lines)
    ensures SplitLines(Flat(lines)) == lines
  {
    if lines != [] {
      assert IsLine(lines[0]);
      SplitLinesOfLines(lines[1..]);
      SplitLinesOne(lines[0]);
      if |lines| > 1 {
        assert Terminated(lines[0]);
        SplitLinesAppend(lines[0], Flat(lines[1..]));
      } else {
        assert lines[0] + [] == lines[0];
      }
    }
  }

  lemma PrefixBegins(s: string, part: string, rest: string)
    requires s == part + rest
    ensures Contains(s, part)
  {
    assert part <= s[0..];
  }

  lemma FirstWithAt(lines: seq<string>, part: string)
    requires |lines| > 2 && !Contains(lines[0], part) && !Contains(lines[1], part) && Contains(lines[2], part)
    ensures FirstWith(lines, part) == lines[2]
  {
    var rest := lines[1..];
    assert FirstWith(lines, part) == FirstWith(rest, part);
    assert rest[0] == lines[1] && FirstWith(rest, part) == FirstWith(rest[1..], part);
    assert rest[1..][0] == lines[2];
  }

  lemma PointerLineFound(ref: string)
    requires BreakFree(ref)
    ensures FirstWith(SplitLines(PointerSection(ref).body), LINE_PREFIX) == PointerText(ref) + "\n"
  {
    PointerLines(ref);
    var lines := SplitLines(PointerSection(ref).body);
    assert lines == [HEAD_LINE, "\n", PointerText(ref) + "\n", "\n"];
    CharMissing(HEAD_LINE, LINE_PREFIX, 0);
    CharMissing("\n", LINE_PREFIX, 0);
    Seqs.Assoc(LINE_PREFIX, " `", ref + "`_\n");
    assert PointerText(ref) + "\n" == LINE_PREFIX + (" `" + ref + "`_\n");
    PrefixBegins(PointerText(ref) + "\n", LINE_PREFIX, " `" + ref + "`_\n");
    FirstWithAt(lines, LINE_PREFIX);
  }

  lemma PointerLineFree(owned: seq<ReconcileItem>, ref: string)
    requires BreakFree(ref) && !Claimed(owned, ARCHIVED)
    ensures var line := FirstWith(SplitLines(PointerSection(ref).body), LINE_PREFIX);
            Terminated(line) && Free(owned, line)
  {
    PointerLineFound(ref);
    PointerIsPlain(ref);
    NotAHeading(PointerText(ref));
    LineHeadings(PointerText(ref));
    TextHeadingsNewline(PointerText(ref));
  }

  lemma ComposedFree(owned: seq<ReconcileItem>, a: string, b: string, c: string)
    requires Terminated(a) && Terminated(b) && Free(owned, a) && Free(owned, b) && Free(owned, c)
    ensures Free(owned, DropNewlines(a + b + c) + "\n\n")
  {
    var body := a + b + c;
    FreeAppend(owned, a, b);
    assert b == [] ==> a + b == a;
    FreeAppend(owned, a + b, c);
    TextHeadingsDropNewlines(body);
    TextHeadingsNewline(DropNewlines(body));
    TextHeadingsNewline(DropNewlines(body) + "\n");
    assert DropNewlines(body) + "\n" + "\n" == DropNewlines(body) + "\n\n";
  }

  /** What a merge keeps of the lines under the heading. */
  function Tail(lines: seq<string>): string {
    var remainder := DropNewlines(SkipNewlines(Flat(lines)));
    if remainder == [] then [] else "\n" + remainder + "\n"
  }

  lemma MergedBody(sec: Section, pointer: Section)
    requires SplitLines(sec.body) != []
    ensures var lines := SplitLines(sec.body);
            MergePointer(sec, pointer).body ==
            DropNewlines(lines[0] + "\n" + FirstWith(SplitLines(pointer.body), LINE_PREFIX) + Tail(lines[1..])) + "\n\n"
  {
  }

  lemma RestFree(owned: seq<ReconcileItem>, lines: seq<string>)
    requires AreLines(lines) && NoHeadings(lines)
    ensures Free(owned, Tail(lines))
  {
    var text := Flat(lines);
    var remainder := DropNewlines(SkipNewlines(text));
    SplitLinesOfLines(lines);
    NoHeadingsIn(lines);
    TextHeadingsSkipNewlines(text);
    TextHeadingsDropNewlines(SkipNewlines(text));
    TextHeadingsNewline(remainder);
    SplitLinesOne("\n");
    NotAHeading("\n");
    TextHeadingsAppend("\n", remainder + "\n");
    assert "\n" + remainder + "\n" == "\n" + (remainder + "\n");
  }

  lemma MergedFree(owned: seq<ReconcileItem>, sec: Section, ref: string)
    requires IsSection(sec) && sec.heading == ARCHIVED && !Claimed(owned, ARCHIVED) && BreakFree(ref)
    ensures Free(owned, MergePointer(sec, PointerSection(ref)).body)
    ensures Terminated(MergePointer(sec, PointerSection(ref)).body)
  {
    var lines := SplitLines(sec.body);
    SplitLinesFlat(sec.body);
    assert IsLine(lines[0]);
    SplitLinesOne(lines[0]);
    TextHeadingsNewline(lines[0]);
    PointerLineFree(owned, ref);
    RestFree(owned, lines[1..]);
    var b := FirstWith(SplitLines(PointerSection(ref).body), LINE_PREFIX);
    assert Heading(lines[0]) == Some(ARCHIVED);
    assert HeadingsIn([lines[0]]) == [ARCHIVED] + HeadingsIn([]);
    ComposedFree(owned, lines[0] + "\n", b, Tail(lines[1..]));
    MergedBody(sec, PointerSection(ref));
  }

  lemma ConsFree(owned: seq<ReconcileItem>, sec: Section, rest: seq<Section>, sections: seq<Section>)
    requires Free(owned, sec.body) && FreeBodies(owned, sections) && EndedBodies(sections)
    requires sections != [] && rest == sections[1..] && (Terminated(sections[0].body) ==> Terminated(sec.body))
    ensures FreeBodies(owned, [sec] + rest) && EndedBodies([sec] + rest)
  {
    assert forall i | 0 < i < |[sec] + rest| :: ([sec] + rest)[i] == sections[i];
  }

  lemma {:induction false} PlacedHere(owned: seq<ReconcileItem>, sections: seq<Section>, ref: string)
    requires BreakFree(ref) && FreeBodies(owned, sections) && EndedBodies(sections)
    requires sections != [] && IsSection(sections[0]) && sections[0].heading == ARCHIVED
    ensures FreeBodies(owned, EnsurePointer(sections, PointerSection(ref)))
    ensures EndedBodies(EnsurePointer(sections, PointerSection(ref)))
  {
    var pointer, sec := PointerSection(ref), sections[0];
    assert Free(owned, sec.body);
    SectionHeadings(sec);
    MergedFree(owned, sec, ref);
    PointerIsSection(ref);
    SectionHeadings(pointer);
    var here := Repaired(sec, pointer);
    assert Free(owned, here.body) && (Terminated(sec.body) ==> Terminated(here.body));
    ConsFree(owned, here, sections[1..], sections);
  }

  lemma ConsFreeAgain(owned: seq<ReconcileItem>, sec: Section, rest: seq<Section>)
    requires Free(owned, sec.body) && Terminated(sec.body) && FreeBodies(owned, rest) && EndedBodies(rest)
    ensures FreeBodies(owned, [sec] + rest) && EndedBodies([sec] + rest)
  {
    assert forall i | 0 < i < |[sec] + rest| :: ([sec] + rest)[i] == rest[i - 1];
  }

  lemma {:induction false} PlacedFree(owned: seq<ReconcileItem>, sections: seq<Section>, ref: string)
    requires BreakFree(ref) && FreeBodies(owned, sections) && EndedBodies(sections)
    requires forall i | 0 <= i < |sections| :: IsSection(sections[i])
    requires exists i | 0 <= i < |sections| :: sections[i].heading == ARCHIVED
    ensures FreeBodies(owned, EnsurePointer(sections, PointerSection(ref)))
    ensures EndedBodies(EnsurePointer(sections, PointerSection(ref)))
  {
    if sections[0].heading == ARCHIVED {
      PlacedHere(owned, sections, ref);
    } else {
      assert |sections| > 1 && Terminated(sections[0].body) && Free(owned, sections[0].body);
      PlacedFree(owned, sections[1..], ref);
      ConsFreeAgain(owned, sections[0], EnsurePointer(sections[1..], PointerSection(ref)));
    }
  }

  lemma {:induction false} PlacedLast(sections: seq<Section>, pointer: Section)
    requires forall i | 0 <= i < |sections| :: sections[i].heading != pointer.heading
    ensures EnsurePointer(sections, pointer) == sections + [pointer]
  {
    if sections != [] {
      assert sections[0].heading != pointer.heading;
      PlacedLast(sections[1..], pointer);
      assert sections == [sections[0]] + sections[1..];
    }
  }

  // ---- Appending a pointer section, also behind an unended line -----------------------------------------

  lemma ClaimByTokens(owned: seq<ReconcileItem>, h: string, h0: string)
    requires NoArchivedKeyword(owned) && !Claimed(owned, h0)
    requires Tokens(h) <= Tokens(h0) + {KEYWORD}
    ensures !Claimed(owned, h)
  {
    forall i | 0 <= i < |owned|
      ensures !Claims(owned[i], h)
    {
      assert !Claims(owned[i], h0);
    }
  }

  lemma JoinedTokens(l: string)
    requires |l| > 2
    ensures Tokens((l + HASHED)[2..]) == Tokens(l[2..]) + {KEYWORD}
  {
    ArchivedTokens();
    var space := " " + ARCHIVED;
    assert HASHED == ['#'] + (['#'] + space);
    assert (l + HASHED)[2..] == l[2..] + ['#'] + (['#'] + space);
    TokensSeparate(l[2..], '#', ['#'] + space, []);
    assert ['#'] + space == [] + ['#'] + space;
    TokensSeparate([], '#', space, []);
  }

  /** The unended line `l` and a heading right behind it make a heading line. */
  predicate Swallows(l: string) {
    l != [] && !(|l| > 2 && l[..2] == "##" && IsSpace(l[2]))
  }

  lemma JoinedHeading(l: string)
    requires BreakFree(l)
    ensures Heading(l + HASHED + "\n") == if Swallows(l) then None else Some(Strip((l + HASHED)[2..]))
  {
    var s := l + HASHED;
    DropNewlinesPrefix(s);
    assert (s + "\n")[..|s|] == s;
    assert DropNewlines(s + "\n") == s;
    if l == [] {
      assert s == HASHED && HASHED[..2] == "##";
    } else if |l| <= 2 {
      assert s[2] == '#';
    } else {
      assert s[..2] == l[..2] && s[2] == l[2];
    }
  }

  /** The part of `l` after its hashes is no claimed heading. */
  lemma OldHeading(owned: seq<ReconcileItem>, l: string)
    requires |l| > 2 && BreakFree(l) && Free(owned, l) && l[..2] == "##" && IsSpace(l[2])
    ensures !Claimed(owned, Strip(l[2..]))
  {
    assert l[|l| - 1] in l;
    SplitLinesOne(l);
    DropNewlinesPrefix(l);
    if |l| >= 4 {
      assert HeadingsIn([l]) == [Strip(l[2..])] + HeadingsIn([]);
      assert Strip(l[2..]) in TextHeadings(l);
    } else {
      var c := l[2];
      assert l[2..] == [c] && [c][1..] == [];
      assert LStrip([c]) == LStrip([]);
      assert Strip([c]) == [];
    }
  }

  /** The line that a pointer heading makes together with the unended line `l` in front of it. */
  lemma JoinedLineFree(owned: seq<ReconcileItem>, l: string)
    requires BreakFree(l) && Free(owned, l)
    ensures Free(owned, l + HASHED + "\n") <==> NoArchivedKeyword(owned) || Swallows(l)
  {
    JoinedHeading(l);
    LineHeadings(l + HASHED + "\n");
    if !Swallows(l) {
      JoinedClaim(owned, l);
    }
  }

  /** The heading they make is claimed exactly with the keyword. */
  lemma JoinedClaim(owned: seq<ReconcileItem>, l: string)
    requires BreakFree(l) && Free(owned, l) && !Swallows(l)
    ensures Claimed(owned, Strip((l + HASHED)[2..])) <==> !NoArchivedKeyword(owned)
  {
    var rest := (l + HASHED)[2..];
    TokensStrip(rest);
    ArchivedTokens();
    if l == [] {
      assert rest == " " + ARCHIVED;
    } else {
      JoinedTokens(l);
    }
    if i :| 0 <= i < |owned| && KEYWORD in Keywords(owned[i]) {
      assert Tokens("") == {};
      assert Claims(owned[i], Strip(rest));
    } else if l == [] {
      ClaimByTokens(owned, Strip(rest), "");
    } else {
      TokensStrip(l[2..]);
      OldHeading(owned, l);
      ClaimByTokens(owned, Strip(rest), Strip(l[2..]));
    }
  }

  /** Appending the pointer makes a claimed heading exactly with the keyword, unless an open line swallows it. */
  lemma AppendedFree(owned: seq<ReconcileItem>, text: string, ref: string)
    requires BreakFree(ref) && Free(owned, text)
    ensures Free(owned, text + PointerSection(ref).body) <==> NoArchivedKeyword(owned) || Swallows(OpenLine(text))
  {
    var l, rest := OpenLine(text), PointerRest(ref);
    OpenLineExact(text);
    var y, line := text[..|text| - |l|], l + HASHED + "\n";
    TextHeadingsAppend(y, l);
    PointerLines(ref);
    PointerIsSection(ref);
    NoHeadingsIn(SplitLines(rest));
    JoinedLineFree(owned, l);
    TextHeadingsAppend(line, rest);
    TextHeadingsAppend(y, line + rest);
    assert TextHeadings(line + rest) == TextHeadings(line);
    assert TextHeadings(y + (line + rest)) == TextHeadings(y) + TextHeadings(line);
    Seqs.Assoc(l, HASHED, "\n");
    assert HASHED + "\n" == HEAD_LINE;
    Regroup(y, l, HEAD_LINE, rest);
  }

  lemma Regroup(a: string, b: string, c: string, d: string)
    ensures (a + b) + (c + d) == a + ((b + c) + d)
  {
    Seqs.Assoc(a, b, c + d);
    Seqs.Assoc(b, c, d);
  }

  // ---- The log after an apply ------------------------------------------------------------------

  lemma KeptAreSections(log: string, claimed: set<string>, recentN: int)
    ensures var kept := Retain(Split(log).sections, claimed, recentN).kept;
            forall i | 0 <= i < |kept| ::
              IsSection(kept[i]) && kept[i].heading in Headings(Split(log).sections) && kept[i].heading !in claimed
  {
    var sections := Split(log).sections;
    var kept := Retain(sections, claimed, recentN).kept;
    SplitWellFormed(log);
    RetainFrom(sections, claimed, recentN);
    forall i | 0 <= i < |kept|
      ensures IsSection(kept[i]) && kept[i].heading in Headings(sections) && kept[i].heading !in claimed
    {
      assert kept[i] in kept;
      var k :| 0 <= k < |sections| && sections[k] == kept[i];
      assert Headings(sections)[k] == kept[i].heading;
    }
  }

  lemma KeptAreEnded(sections: seq<Section>, claimed: set<string>, recentN: int)
    requires EndedBodies(sections)
    ensures EndedBodies(Retain(sections, claimed, recentN).kept)
  {
    if sections != [] {
      var init := sections[..|sections| - 1];
      var kept := Retain(sections, claimed, recentN).kept;
      RetainFrom(init, claimed, recentN);
      forall i | 0 <= i < |kept| - 1
        ensures Terminated(kept[i].body)
      {
        assert kept[i] in Retain(init, claimed, recentN).kept;
        var k :| 0 <= k < |init| && init[k] == kept[i];
        assert sections[k] == init[k];
      }
    }
  }

  lemma KeptSections(log: string, claimed: set<string>, recentN: int)
    ensures var kept := Retain(Split(log).sections, claimed, recentN).kept;
            && EndedBodies(kept) && (forall i | 0 <= i < |kept| :: IsSection(kept[i]))
            && (forall i | 0 <= i < |kept| ::
                  kept[i].heading in Headings(Split(log).sections) && kept[i].heading !in claimed)
  {
    SplitWellFormed(log);
    KeptAreSections(log, claimed, recentN);
    KeptAreEnded(Split(log).sections, claimed, recentN);
  }

  lemma KeptFree(owned: seq<ReconcileItem>, log: string, claimed: set<string>, recentN: int)
    requires forall h | h in Headings(Split(log).sections) :: h in claimed <==> Claimed(owned, h)
    ensures FreeBodies(owned, Retain(Split(log).sections, claimed, recentN).kept)
  {
    var kept := Retain(Split(log).sections, claimed, recentN).kept;
    KeptSections(log, claimed, recentN);
    forall i | 0 <= i < |kept|
      ensures Free(owned, kept[i].body)
    {
      SectionHeadings(kept[i]);
    }
  }

  /** The log an apply leaves behind. */
  function LogAfter(log: string, claimed: set<string>, recentN: int, ref: string): string {
    var parts := Split(log);
    var r := Retain(parts.sections, claimed, recentN);
    if r.archived == [] then log else Join(Parts(parts.preamble, EnsurePointer(r.kept, PointerSection(ref))))
  }

  lemma JoinLast(pre: string, sections: seq<Section>, sec: Section)
    ensures Join(Parts(pre, sections + [sec])) == Join(Parts(pre, sections)) + sec.body
  {
    BodiesAppend(sections, [sec]);
    assert Bodies([sec]) == sec.body + [];
    Seqs.Assoc(pre, Bodies(sections), sec.body);
  }

  predicate HasPointer(sections: seq<Section>) {
    exists i | 0 <= i < |sections| :: sections[i].heading == ARCHIVED
  }

  lemma ArchivedClaimed(owned: seq<ReconcileItem>)
    requires !NoArchivedKeyword(owned)
    ensures Claimed(owned, ARCHIVED)
  {
    ArchivedTokens();
    var i :| 0 <= i < |owned| && KEYWORD in Keywords(owned[i]);
    assert Claims(owned[i], ARCHIVED);
  }

  lemma {:induction false} NothingArchived(sections: seq<Section>, claimed: set<string>, recentN: int)
    requires Retain(sections, claimed, recentN).archived == []
    ensures forall h | h in Headings(sections) :: h !in claimed
  {
    if sections != [] {
      var n := |sections| - 1;
      NothingArchived(sections[..n], claimed, recentN);
      forall h | h in Headings(sections)
        ensures h !in claimed
      {
        var k :| 0 <= k < |sections| && Headings(sections)[k] == h;
        assert k < n ==> Headings(sections[..n])[k] == h;
      }
    }
  }

  /** The text an apply keeps of a log, in front of a pointer section it may append. */
  function KeptText(log: string, claimed: set<string>, recentN: int): string {
    Join(Parts(Split(log).preamble, Retain(Split(log).sections, claimed, recentN).kept))
  }

  /** An apply takes a claimed heading out of the log and puts none in, but for the pointer's own. */
  lemma LogAfterFree(owned: seq<ReconcileItem>, log: string, claimed: set<string>, recentN: int, ref: string)
    requires BreakFree(ref)
    requires forall h | h in Headings(Split(log).sections) :: h in claimed <==> Claimed(owned, h)
    ensures Free(owned, LogAfter(log, claimed, recentN, ref)) <==>
            || Retain(Split(log).sections, claimed, recentN).archived == []
            || NoArchivedKeyword(owned)
            || Swallows(OpenLine(KeptText(log, claimed, recentN)))
  {
    var parts := Split(log);
    var r := Retain(parts.sections, claimed, recentN);
    SplitWellFormed(log);
    KeptSections(log, claimed, recentN);
    KeptFree(owned, log, claimed, recentN);
    if r.archived == [] {
      SplitHeadings(log);
      NothingArchived(parts.sections, claimed, recentN);
    } else if HasPointer(r.kept) {
      if !NoArchivedKeyword(owned) {
        ArchivedClaimed(owned);
      }
      PlacedFree(owned, r.kept, ref);
      FreeJoin(owned, Parts(parts.preamble, EnsurePointer(r.kept, PointerSection(ref))));
    } else {
      PlacedLast(r.kept, PointerSection(ref));
      JoinLast(parts.preamble, r.kept, PointerSection(ref));
      FreeJoin(owned, Parts(parts.preamble, r.kept));
      AppendedFree(owned, KeptText(log, claimed, recentN), ref);
    }
  }

  // ---- The backlog after an apply -------------------------------------------------------------------

  lemma HeadingChars(line: string)
    requires IsLine(line) && Heading(line).Some?
    ensures var h := Heading(line).value;
            BreakFree(h) && (h != [] ==> !IsSpace(h[0]) && !IsSpace(h[|h| - 1]))
  {
    var s := DropNewlines(line);
    var h := Strip(s[2..]);
    DropNewlinesPrefix(line);
    StripEdges(s[2..]);
    var i, j :| 0 <= i <= j <= |s[2..]| && h == s[2..][i..j];
    Stretch(line, s, i, j);
    StrippedLine(line, h, 2 + i);
  }

  lemma Stretch(line: string, s: string, i: nat, j: nat)
    requires s <= line && |s| >= 2 && i <= j <= |s[2..]|
    ensures 2 + j <= |line| && s[2..][i..j] == line[2 + i..2 + j]
  {
  }

  /** A stripped stretch of one line has no break in it: the only break is space at the line's end. */
  lemma StrippedLine(line: string, h: string, i: nat)
    requires IsLine(line) && i + |h| <= |line| && h == line[i..i + |h|]
    requires h != [] ==> !IsSpace(h[|h| - 1])
    ensures BreakFree(h)
  {
    forall c | c in h
      ensures !IsBreak(c)
    {
      var k :| 0 <= k < |h| && h[k] == c;
      assert h[k] == line[i + k];
    }
  }

  lemma EmptiedIsSection(h: string)
    requires h != [] && BreakFree(h) && !IsSpace(h[0]) && !IsSpace(h[|h| - 1])
    ensures IsSection(Emptied(h)) && Terminated(Emptied(h).body)
  {
    var title, rest := "## " + h, "\n" + ARCHIVED_MARKER + "\n\n";
    EmptiedBody(h);
    TitleIsPlain(h);
    LineThen(title, rest);
    TextLines(ARCHIVED_MARKER);
    EmptiedHeading(h);
    NotAHeading("\n");
    NotAHeading(ARCHIVED_MARKER + "\n");
    assert ([title + "\n"] + SplitLines(rest))[1..] == SplitLines(rest);
  }

  lemma TitleIsPlain(h: string)
    requires BreakFree(h)
    ensures BreakFree("## " + h)
  {
  }

  lemma EmptiedBody(h: string)
    ensures Emptied(h).body == "## " + h + "\n" + ("\n" + ARCHIVED_MARKER + "\n\n")
  {
    Seqs.Assoc("## " + h, "\n", "\n" + ARCHIVED_MARKER + "\n\n");
    assert "\n" + ("\n" + ARCHIVED_MARKER + "\n\n") == "\n\n" + ARCHIVED_MARKER + "\n\n";
  }

  lemma EmptiedHeading(h: string)
    requires h != [] && BreakFree(h) && !IsSpace(h[0]) && !IsSpace(h[|h| - 1])
    ensures Heading("## " + h + "\n") == Some(h)
  {
    var title := "## " + h;
    assert (title + "\n")[..|title|] == title;
    assert title[|title| - 1] == h[|h| - 1];
    DropNewlinesPrefix(title);
    assert title[2..] == " " + h && (" " + h)[1..] == h;
    assert LStrip(" " + h) == LStrip(h);
    StripStripped(h);
  }

  lemma EmptiedNotCompleted(h: string)
    ensures !Completed(Emptied(h))
  {
    var start := "## " + h + "\n\n";
    var body := Emptied(h).body;
    assert body == start + (ARCHIVED_MARKER + "\n\n");
    assert ARCHIVED_MARKER <= body[|start|..];
  }

  /** Closing the completed sections leaves parts that split back, none of them completed. */
  lemma ClosedOpen(parts: Parts)
    requires WellFormed(parts)
    ensures var closed := Parts(parts.preamble, CloseCompleted(parts.sections));
            && Split(Join(closed)) == closed
            && forall i | 0 <= i < |closed.sections| :: !Completed(closed.sections[i])
  {
    var closed := Parts(parts.preamble, CloseCompleted(parts.sections));
    forall i | 0 <= i < |parts.sections|
      ensures !Completed(closed.sections[i]) && IsSection(closed.sections[i])
      ensures i < |parts.sections| - 1 ==> Terminated(closed.sections[i].body)
    {
      var sec := parts.sections[i];
      assert IsSection(sec);
      if Completed(sec) {
        SplitLinesFlat(sec.body);
        HeadingChars(SplitLines(sec.body)[0]);
        EmptiedIsSection(sec.heading);
        EmptiedNotCompleted(sec.heading);
      }
    }
    SplitJoin(closed);
  }

  lemma {:induction false} CompletedOfNone(sections: seq<Section>)
    ensures CompletedOf(sections) == [] <==> forall i | 0 <= i < |sections| :: !Completed(sections[i])
  {
    if sections != [] {
      var n := |sections| - 1;
      CompletedOfNone(sections[..n]);
      assert forall i | 0 <= i < n :: sections[..n][i] == sections[i];
    }
  }

  // ---- A second run ------------------------------------------------------------------------------------

  /** No section of the backlog is completed. */
  predicate Open(backlog: string) {
    CompletedMoves(Split(backlog).sections) == []
  }

  /** There is no claimed log section and, if anything is owned, no completed backlog section. */
  predicate NothingLeft(owned: seq<ReconcileItem>, log: Option<string>, backlog: Option<string>) {
    && (log.Some? ==> Free(owned, log.value))
    && (owned != [] && backlog.Some? ==> Open(backlog.value))
  }

  /** A log in which nothing is claimed gives no claims. */
  lemma FreeNoClaims(owned: seq<ReconcileItem>, log: string, entry: ReconcileItem -> string)
    ensures ClaimAll(owned, Headings(Split(log).sections), entry).claims == [] <==> Free(owned, log)
  {
    var headings := Headings(Split(log).sections);
    var claims := ClaimAll(owned, headings, entry).claims;
    SplitHeadings(log);
    ClaimsExact(owned, headings, entry);
    if claims != [] {
      assert claims[0] in claims;
      assert headings[claims[0].at] in headings;
    } else {
      forall h | h in headings
        ensures !Claimed(owned, h)
      {
        var p: nat :| p < |headings| && headings[p] == h;
        assert p !in Taken(claims);
      }
    }
  }

  /** A plan is empty exactly for files in which nothing is left to move. */
  lemma NoopExact(log: Option<string>, backlog: Option<string>, owned: seq<ReconcileItem>, recentN: int,
                  entry: ReconcileItem -> string)
    ensures PlanOf(log, backlog, owned, recentN, entry).IsNoop() <==> NothingLeft(owned, log, backlog)
  {
    if log.Some? {
      FreeNoClaims(owned, log.value, entry);
    } else {
      assert SplitLines("") == [];
      FreeNoClaims(owned, "", entry);
    }
  }

  /** After an apply no backlog section is completed, unless nothing was owned. */
  lemma BacklogAfter(files: Files, plan: Plan, owned: seq<ReconcileItem>, recentN: int, target: Target,
                     entry: ReconcileItem -> string)
    requires plan == PlanOf(files.log, files.backlog, owned, recentN, entry) && owned != []
    ensures var after := AppliedBacklog(files, plan, target).backlog;
            after.Some? ==> Open(after.value)
  {
    if files.backlog.Some? {
      var parts := Split(files.backlog.value);
      SplitWellFormed(files.backlog.value);
      CompletedMovesAreBacklog(parts.sections);
      CompletedOfNone(parts.sections);
      ClosedOpen(parts);
      CompletedMovesAreBacklog(CloseCompleted(parts.sections));
      var moves := CompletedMoves(parts.sections);
      if moves != [] {
        assert moves[0] in moves && moves[0] in plan.moves;
      }
    }
  }

  /** What the moves leave in the log and in the backlog. */
  lemma WrittenTexts(files: Files, plan: Plan, recentN: int, target: Target)
    requires !plan.IsNoop()
    ensures var w := Written(files, plan, recentN, target);
            && w.log == (if files.log.None? then None
                         else Some(LogAfter(files.log.value, ClaimedLog(plan), recentN, target.logRef)))
            && w.backlog == AppliedBacklog(files, plan, target).backlog
  {
  }

  /** The plan's moves leave nothing behind, unless the log they leave has a claimed heading. */
  lemma WrittenLeaves(files: Files, owned: seq<ReconcileItem>, recentN: int, target: Target,
                      entry: ReconcileItem -> string)
    ensures var w := Written(files, PlanOf(files.log, files.backlog, owned, recentN, entry), recentN, target);
            NothingLeft(owned, w.log, w.backlog) <==> (w.log.Some? ==> Free(owned, w.log.value))
  {
    var plan := PlanOf(files.log, files.backlog, owned, recentN, entry);
    NoopExact(files.log, files.backlog, owned, recentN, entry);
    if !plan.IsNoop() {
      WrittenTexts(files, plan, recentN, target);
      if owned != [] {
        BacklogAfter(files, plan, owned, recentN, target, entry);
      }
    }
  }

  /** The plan has a move that takes a log section with it: it is not empty and archives a claimed or an old one. */
  predicate ArchivesLog(plan: Plan) {
    !plan.IsNoop() && (LogHeadings(plan.moves) != [] || plan.trims != [])
  }

  lemma ArchivesLogExact(log: string, backlog: Option<string>, owned: seq<ReconcileItem>, recentN: int,
                         entry: ReconcileItem -> string)
    ensures var plan := PlanOf(Some(log), backlog, owned, recentN, entry);
            !plan.IsNoop() ==>
              (ArchivesLog(plan) <==> Retain(Split(log).sections, ClaimedLog(plan), recentN).archived != [])
  {
    var plan := PlanOf(Some(log), backlog, owned, recentN, entry);
    var r := Retain(Split(log).sections, ClaimedLog(plan), recentN);
    RetainPreviewed(log, backlog, owned, recentN, entry);
    assert |multiset(Headings(r.archived))| == |r.archived|;
    assert |multiset(LogHeadings(plan.moves))| == |LogHeadings(plan.moves)|;
    assert |multiset(plan.trims)| == |plan.trims|;
  }

  /** The pointer section that an apply appends is itself a claimed section of the new log. */
  predicate ClaimsPointer(log: Option<string>, plan: Plan, owned: seq<ReconcileItem>, recentN: int) {
    && log.Some? && ArchivesLog(plan) && !NoArchivedKeyword(owned)
    && !Swallows(OpenLine(KeptText(log.value, ClaimedLog(plan), recentN)))
  }

  /** The moves leave something to move exactly when they make the pointer section a claimed one. */
  lemma WrittenLeavesExact(files: Files, owned: seq<ReconcileItem>, recentN: int, target: Target,
                           entry: ReconcileItem -> string)
    requires BreakFree(target.logRef)
    ensures var plan := PlanOf(files.log, files.backlog, owned, recentN, entry);
            var w := Written(files, plan, recentN, target);
            !NothingLeft(owned, w.log, w.backlog) <==> ClaimsPointer(files.log, plan, owned, recentN)
  {
    var plan := PlanOf(files.log, files.backlog, owned, recentN, entry);
    WrittenLeaves(files, owned, recentN, target, entry);
    NoopExact(files.log, files.backlog, owned, recentN, entry);
    if !plan.IsNoop() {
      WrittenTexts(files, plan, recentN, target);
      if files.log.Some? {
        ArchivesLogExact(files.log.value, files.backlog, owned, recentN, entry);
        ClaimedLogExact(files.log.value, files.backlog, owned, recentN, entry);
        LogAfterFree(owned, files.log.value, ClaimedLog(plan), recentN, target.logRef);
      }
    }
  }

  /** On these files the redactor is idempotent, and it puts in no claimed heading and no completed section. */
  predicate RedactsCleanly(scrub: string -> string, owned: seq<ReconcileItem>, files: Files) {
    && (files.log.Some? ==>
          var text := files.log.value;
          scrub(scrub(text)) == scrub(text) && (Free(owned, text) ==> Free(owned, scrub(text))))
    && (files.backlog.Some? ==>
          var text := files.backlog.value;
          scrub(scrub(text)) == scrub(text) && (Open(text) ==> Open(scrub(text))))
  }

  /** The plan made after an apply is empty exactly if the texts it left, redacted, have nothing left to move.
      An empty plan then writes nothing, if the redactor is idempotent on them. */
  lemma ReplanExact(files: Files, owned: seq<ReconcileItem>, recentN: int, target: Target, scrub: string -> string,
                    entry: ReconcileItem -> string)
    ensures var plan := PlanOf(files.log, files.backlog, owned, recentN, entry);
            var after := Applied(files, plan, recentN, target, scrub);
            var again := PlanOf(after.log, after.backlog, owned, recentN, entry);
            && (again.IsNoop() <==> NothingLeft(owned, after.log, after.backlog))
            && (again.IsNoop() && Scrubbed(after, scrub) == after ==>
                  Applied(after, again, recentN, target, scrub) == after)
  {
    var after := Applied(files, PlanOf(files.log, files.backlog, owned, recentN, entry), recentN, target, scrub);
    NoopExact(after.log, after.backlog, owned, recentN, entry);
  }

  /** A second prune right after the first finds nothing to move and writes nothing. */
  lemma PruneIsIdempotent(files: Files, owned: seq<ReconcileItem>, recentN: int, target: Target,
                          scrub: string -> string, entry: ReconcileItem -> string)
    requires BreakFree(target.logRef) && NoArchivedKeyword(owned)
    requires var plan := PlanOf(files.log, files.backlog, owned, recentN, entry);
             RedactsCleanly(scrub, owned, Written(files, plan, recentN, target))
    ensures var plan := PlanOf(files.log, files.backlog, owned, recentN, entry);
            var after := Applied(files, plan, recentN, target, scrub);
            var again := PlanOf(after.log, after.backlog, owned, recentN, entry);
            again.IsNoop() && Applied(after, again, recentN, target, scrub) == after
  {
    WrittenLeavesExact(files, owned, recentN, target, entry);
    ReplanExact(files, owned, recentN, target, scrub, entry);
  }

  /** With nothing to redact, a second run has moves exactly when the first archived log sections and some owned
      done item has the keyword `archived`, unless an unended last line swallows the pointer's heading. */
  lemma PruneIdempotentExact(files: Files, owned: seq<ReconcileItem>, recentN: int, target: Target,
                             scrub: string -> string, entry: ReconcileItem -> string)
    requires BreakFree(target.logRef)
    requires var w := Written(files, PlanOf(files.log, files.backlog, owned, recentN, entry), recentN, target);
             Scrubbed(w, scrub) == w
    ensures var plan := PlanOf(files.log, files.backlog, owned, recentN, entry);
            var after := Applied(files, plan, recentN, target, scrub);
            var again := PlanOf(after.log, after.backlog, owned, recentN, entry);
            && (!again.IsNoop() <==> ClaimsPointer(files.log, plan, owned, recentN))
            && (again.IsNoop() ==> Applied(after, again, recentN, target, scrub) == after)
  {
    WrittenLeavesExact(files, owned, recentN, target, entry);
    ReplanExact(files, owned, recentN, target, scrub, entry);
  }

  // ---- An ended log ---------------------------------------------------------------------------------------

  lemma {:induction false} BodiesEnd(sections: seq<Section>)
    requires sections != [] && forall i | 0 <= i < |sections| :: sections[i].body != []
    ensures var s, body := Bodies(sections), sections[|sections| - 1].body; s != [] && s[|s| - 1] == body[|body| - 1]
  {
    if |sections| > 1 {
      BodiesEnd(sections[1..]);
    } else {
      assert sections[0].body + [] == sections[0].body;
    }
  }

  lemma JoinEnd(parts: Parts)
    requires forall i | 0 <= i < |parts.sections| :: parts.sections[i].body != []
    ensures Terminated(Join(parts)) <==>
            Terminated(if parts.sections == [] then parts.preamble else parts.sections[|parts.sections| - 1].body)
  {
    if parts.sections == [] {
      assert parts.preamble + [] == parts.preamble;
    } else {
      BodiesEnd(parts.sections);
    }
  }

  lemma SectionsEnded(log: string)
    requires Terminated(log) && Split(log).sections != []
    ensures Terminated(Split(log).preamble)
    ensures forall sec | sec in Split(log).sections :: sec.body != [] && Terminated(sec.body)
  {
    SplitWellFormed(log);
    JoinSplit(log);
    PartsEnded(Split(log));
  }

  lemma PartsEnded(parts: Parts)
    requires WellFormed(parts) && Terminated(Join(parts)) && parts.sections != []
    ensures forall sec | sec in parts.sections :: sec.body != [] && Terminated(sec.body)
  {
    var n := |parts.sections| - 1;
    forall i | 0 <= i <= n
      ensures parts.sections[i].body != []
    {
      assert IsSection(parts.sections[i]);
    }
    JoinEnd(parts);
    assert Terminated(parts.sections[n].body);
  }

  /** Dropping whole sections from an ended text leaves it ended. */
  lemma KeptEnded(log: string, claimed: set<string>, recentN: int)
    requires Terminated(log) && Split(log).sections != []
    ensures Terminated(Join(Parts(Split(log).preamble, Retain(Split(log).sections, claimed, recentN).kept)))
  {
    var kept := Retain(Split(log).sections, claimed, recentN).kept;
    SectionsEnded(log);
    RetainFrom(Split(log).sections, claimed, recentN);
    assert forall i | 0 <= i < |kept| :: kept[i] in kept;
    JoinEnd(Parts(Split(log).preamble, kept));
  }

  /** For an ended log nothing swallows the pointer's heading: the keyword alone decides. */
  lemma EndedLogExact(log: string, backlog: Option<string>, owned: seq<ReconcileItem>, recentN: int,
                      entry: ReconcileItem -> string)
    requires Terminated(log)
    ensures var plan := PlanOf(Some(log), backlog, owned, recentN, entry);
            ClaimsPointer(Some(log), plan, owned, recentN) <==> ArchivesLog(plan) && !NoArchivedKeyword(owned)
  {
    var plan := PlanOf(Some(log), backlog, owned, recentN, entry);
    ArchivesLogExact(log, backlog, owned, recentN, entry);
    if ArchivesLog(plan) {
      KeptEnded(log, ClaimedLog(plan), recentN);
    }
  }

  /** A text that is one heading line. */
  lemma TitleSplits(title: string)
    requires title != [] && BreakFree(title) && !IsSpace(title[0]) && !IsSpace(title[|title| - 1])
    ensures var line := "## " + title + "\n"; Split(line) == Parts([], [Section(title, line)])
  {
    var line := "## " + title + "\n";
    SplitLinesOne(line);
    EmptiedHeading(title);
    var start := Parts([], []);
    assert AddLines(start, [line]) == AddLines(AddLine(start, line), [line][1..]) == AddLine(start, line);
  }

  lemma OldLog()
    ensures Split("## Old\n").sections == [Section("Old", "## Old\n")]
  {
    assert "## " + "Old" + "\n" == "## Old\n";
    TitleSplits("Old");
  }

  lemma OldTokens()
    ensures Tokens("Old") == {"old"}
  {
    TokensWord("Old", []);
    LowerPointwise("Old");
    assert Lower("Old") == "old";
    assert [] + "old" == "old";
  }

  lemma OldClaimed(item: ReconcileItem)
    requires item == ReconcileItem("Old", "Archived", "done", "repo")
    ensures Claimed([item], "Old") && !NoArchivedKeyword([item])
  {
    OldTokens();
    ArchivedTokens();
    assert KEYWORD in Keywords([item][0]) && "old" in Keywords(item);
    assert Claims([item][0], "Old");
  }

  lemma OldArchived(owned: seq<ReconcileItem>, entry: ReconcileItem -> string)
    requires Claimed(owned, "Old")
    ensures ArchivesLog(PlanOf(Some("## Old\n"), None, owned, 10, entry))
  {
    var log := "## Old\n";
    var plan := PlanOf(Some(log), None, owned, 10, entry);
    OldLog();
    ClaimedLogExact(log, None, owned, 10, entry);
    assert Headings(Split(log).sections)[0] == "Old";
    assert "Old" in ClaimedLog(plan);
    ArchivesLogExact(log, None, owned, 10, entry);
    if Retain(Split(log).sections, ClaimedLog(plan), 10).archived == [] {
      NothingArchived(Split(log).sections, ClaimedLog(plan), 10);
    }
  }

  /** The keyword does undo idempotence: a one-section log claimed by such an item is pruned again. */
  lemma KeywordPrunesAgain(target: Target, entry: ReconcileItem -> string)
    requires BreakFree(target.logRef)
    ensures var files := Files(Some("## Old\n"), None, "", "", None);
            var owned := [ReconcileItem("Old", "Archived", "done", "repo")];
            var after := Applied(files, PlanOf(files.log, None, owned, 10, entry), 10, target, s => s);
            !PlanOf(after.log, after.backlog, owned, 10, entry).IsNoop()
  {
    var log, owned := "## Old\n", [ReconcileItem("Old", "Archived", "done", "repo")];
    var files := Files(Some(log), None, "", "", None);
    OldClaimed(owned[0]);
    OldArchived(owned, entry);
    EndedLogExact(log, None, owned, 10, entry);
    PruneIdempotentExact(files, owned, 10, target, s => s, entry);
  }
}
