/** What becomes of the prose in a pointer section that is repaired in place (prune.py). */
module PruneMerge {
  import opened MdSections
  import opened Prune
  import opened PruneApply
  import opened PruneIdempotence
  import opened PruneTheorems
  import opened Text
  import opened Wrappers
  import Seqs

  // ---- The text of a merged section --------------------------------------------------------------

  /** The lines under the heading, without the empty lines around them. */
  function Prose(sec: Section): string
    requires SplitLines(sec.body) != []
  {
    DropNewlines(SkipNewlines(Flat(SplitLines(sec.body)[1..])))
  }

  lemma {:induction false} DropNewlinesBehind(a: string, b: string)
    requires a != [] && a[|a| - 1] != '\n' && forall c | c in b :: c == '\n'
    ensures DropNewlines(a + b) == a
    decreases |b|
  {
    if b == [] {
      assert a + b == a;
      DropNewlinesPrefix(a);
    } else {
      var init := b[..|b| - 1];
      assert b[|b| - 1] in b && forall c | c in init :: c in b;
      assert (a + b)[..|a + b| - 1] == a + init;
      DropNewlinesBehind(a, init);
    }
  }

  /** The heading line, the pointer line, and the prose: what a merge should leave. */
  function MergedText(line: string, ref: string, prose: string): string {
    line + "\n" + PointerText(ref) + "\n\n" + if prose == [] then [] else prose + "\n\n"
  }

  lemma {:induction false} DropNewlinesEnd(s: string)
    ensures var t := DropNewlines(s); t != [] ==> t[|t| - 1] != '\n'
  {
    if s != [] && s[|s| - 1] == '\n' {
      DropNewlinesEnd(s[..|s| - 1]);
    }
  }

  lemma EndedTwice(a: string, tail: string, prose: string)
    requires a != [] && a[|a| - 1] != '\n' && (prose != [] ==> prose[|prose| - 1] != '\n')
    requires tail == if prose == [] then [] else "\n" + prose + "\n"
    ensures DropNewlines(a + "\n" + tail) + "\n\n" == a + "\n\n" + if prose == [] then [] else prose + "\n\n"
  {
    if prose == [] {
      assert a + "\n" + tail == a + "\n";
      DropNewlinesBehind(a, "\n");
      assert a + "\n\n" + [] == a + "\n\n";
    } else {
      var kept := a + "\n\n" + prose;
      assert a + "\n" + tail == kept + "\n";
      DropNewlinesBehind(kept, "\n");
      Seqs.Assoc(a + "\n\n", prose, "\n\n");
    }
  }

  /** A merge puts the pointer line under the heading line and keeps the prose, whatever it is. */
  lemma MergeKeepsProse(sec: Section, ref: string)
    requires SplitLines(sec.body) != [] && BreakFree(ref)
    ensures MergePointer(sec, PointerSection(ref)) ==
            Section(sec.heading, MergedText(SplitLines(sec.body)[0], ref, Prose(sec)))
  {
    var line := SplitLines(sec.body)[0];
    var a := line + "\n" + PointerText(ref);
    MergedBody(sec, PointerSection(ref));
    PointerLineFound(ref);
    Seqs.Assoc(line + "\n", PointerText(ref), "\n");
    DropNewlinesEnd(SkipNewlines(Flat(SplitLines(sec.body)[1..])));
    EndedTwice(a, Tail(SplitLines(sec.body)[1..]), Prose(sec));
  }

  lemma ProseHeadings(sec: Section)
    requires IsSection(sec)
    ensures TextHeadings(Prose(sec)) == []
  {
    var lines := SplitLines(sec.body);
    SplitLinesFlat(sec.body);
    SplitLinesOfLines(lines[1..]);
    NoHeadingsIn(lines[1..]);
    TextHeadingsSkipNewlines(Flat(lines[1..]));
    TextHeadingsDropNewlines(SkipNewlines(Flat(lines[1..])));
  }

  lemma TwoNewlines(s: string)
    ensures TextHeadings(s + "\n\n") == TextHeadings(s) && Terminated(s + "\n\n")
  {
    TextHeadingsNewline(s);
    TextHeadingsNewline(s + "\n");
    Seqs.Assoc(s, "\n", "\n");
    assert "\n" + "\n" == "\n\n";
  }

  lemma PointerTextPlain(ref: string)
    requires BreakFree(ref)
    ensures TextHeadings(PointerText(ref) + "\n\n") == []
  {
    PointerIsPlain(ref);
    NotAHeading(PointerText(ref));
    LineHeadings(PointerText(ref));
    TwoNewlines(PointerText(ref));
  }

  lemma HeadHeadings(sec: Section, ref: string)
    requires IsSection(sec) && BreakFree(ref)
    ensures var head := SplitLines(sec.body)[0] + "\n" + PointerText(ref) + "\n\n";
            TextHeadings(head) == [sec.heading] && Terminated(head)
  {
    var line := SplitLines(sec.body)[0];
    SplitLinesFlat(sec.body);
    assert IsLine(line);
    LineHeadings(line);
    TextHeadingsNewline(line);
    PointerTextPlain(ref);
    HeadJoined(line, PointerText(ref));
  }

  lemma HeadJoined(line: string, text: string)
    ensures var head := line + "\n" + text + "\n\n";
            TextHeadings(head) == TextHeadings(line + "\n") + TextHeadings(text + "\n\n") && Terminated(head)
  {
    Seqs.Assoc(line + "\n", text, "\n\n");
    TextHeadingsAppend(line + "\n", text + "\n\n");
    TwoNewlines(line + "\n" + text);
  }

  /** A merged section is still one section under its heading. */
  lemma MergedHeadings(sec: Section, ref: string)
    requires IsSection(sec) && BreakFree(ref)
    ensures TextHeadings(MergePointer(sec, PointerSection(ref)).body) == [sec.heading]
  {
    var prose := Prose(sec);
    var head := SplitLines(sec.body)[0] + "\n" + PointerText(ref) + "\n\n";
    MergeKeepsProse(sec, ref);
    HeadHeadings(sec, ref);
    if prose == [] {
      assert head + [] == head;
    } else {
      ProseHeadings(sec);
      TwoNewlines(prose);
      TextHeadingsAppend(head, prose + "\n\n");
    }
  }

  // ---- Placing the pointer twice ---------------------------------------------------------------------

  lemma RefJoined(a: string, b: string)
    requires Terminated(a)
    ensures HasAbsoluteRef(a + b) <==> HasAbsoluteRef(a) || HasAbsoluteRef(b)
  {
    var s := a + b;
    if i :| 0 <= i < |s| && AbsoluteRefAt(s, i) {
      if i < |a| {
        RefInside(a, b, i);
      } else {
        assert AbsoluteRefAt(b, i - |a|);
      }
    }
    if i :| 0 <= i < |a| && AbsoluteRefAt(a, i) {
      assert AbsoluteRefAt(s, i);
    }
    if i :| 0 <= i < |b| && AbsoluteRefAt(b, i) {
      assert AbsoluteRefAt(s, |a| + i);
    }
  }

  lemma RefInside(a: string, b: string, i: nat)
    requires Terminated(a) && i < |a| && AbsoluteRefAt(a + b, i)
    ensures AbsoluteRefAt(a, i)
  {
    assert a[|a| - 1] == (a + b)[|a| - 1];
  }

  lemma RefNewline(s: string)
    ensures HasAbsoluteRef(s + "\n") <==> HasAbsoluteRef(s)
  {
    if i :| 0 <= i < |s + "\n"| && AbsoluteRefAt(s + "\n", i) {
      assert AbsoluteRefAt(s, i);
    }
    if i :| 0 <= i < |s| && AbsoluteRefAt(s, i) {
      assert AbsoluteRefAt(s + "\n", i);
    }
  }

  lemma {:induction false} RefDropNewlines(s: string)
    ensures HasAbsoluteRef(DropNewlines(s)) <==> HasAbsoluteRef(s)
  {
    if s != [] && s[|s| - 1] == '\n' {
      RefDropNewlines(s[..|s| - 1]);
      RefNewline(s[..|s| - 1]);
      assert s == s[..|s| - 1] + "\n";
    }
  }

  lemma {:induction false} RefSkipNewlines(s: string)
    ensures HasAbsoluteRef(SkipNewlines(s)) <==> HasAbsoluteRef(s)
  {
    if s != [] && s[0] == '\n' {
      RefSkipNewlines(s[1..]);
      assert s == "\n" + s[1..];
      RefJoined("\n", s[1..]);
    }
  }

  lemma RefTwoNewlines(s: string)
    ensures HasAbsoluteRef(s + "\n\n") <==> HasAbsoluteRef(s)
  {
    RefNewline(s);
    RefNewline(s + "\n");
    Seqs.Assoc(s, "\n", "\n");
    assert "\n" + "\n" == "\n\n";
  }

  /** The archive is referred to in the portable form. */
  predicate Portable(ref: string) {
    BreakFree(ref) && !HasAbsoluteRef(PointerSection(ref).body)
  }

  lemma PortableText(ref: string)
    requires Portable(ref)
    ensures !HasAbsoluteRef(PointerText(ref) + "\n\n")
  {
    PointerBody(ref);
    var text := PointerText(ref) + "\n\n";
    assert HEAD_LINE + PointerRest(ref) == (HEAD_LINE + "\n") + text;
    RefJoined(HEAD_LINE + "\n", text);
  }

  lemma BodyRef(sec: Section)
    requires SplitLines(sec.body) != []
    ensures HasAbsoluteRef(sec.body) <==> HasAbsoluteRef(SplitLines(sec.body)[0]) || HasAbsoluteRef(Prose(sec))
  {
    var lines := SplitLines(sec.body);
    SplitLinesFlat(sec.body);
    RefSkipNewlines(Flat(lines[1..]));
    RefDropNewlines(SkipNewlines(Flat(lines[1..])));
    if |lines| > 1 {
      assert Terminated(lines[0]);
      RefJoined(lines[0], Flat(lines[1..]));
    } else {
      assert lines[0] + [] == lines[0];
    }
  }

  /** A merge adds and removes no absolute path. */
  lemma MergedRef(sec: Section, ref: string)
    requires SplitLines(sec.body) != [] && Portable(ref)
    ensures HasAbsoluteRef(MergePointer(sec, PointerSection(ref)).body) <==> HasAbsoluteRef(sec.body)
  {
    var line, prose, text := SplitLines(sec.body)[0], Prose(sec), PointerText(ref) + "\n\n";
    MergeKeepsProse(sec, ref);
    BodyRef(sec);
    PortableText(ref);
    RefNewline(line);
    RefJoined(line + "\n", text);
    Seqs.Assoc(line + "\n", PointerText(ref), "\n\n");
    RefTwoNewlines(prose);
    if prose == [] {
      assert (line + "\n" + text) + [] == line + "\n" + text;
    } else {
      RefJoined(line + "\n" + text, prose + "\n\n");
    }
  }

  lemma PointerHasPrefix(ref: string)
    ensures Contains(PointerSection(ref).body, LINE_PREFIX)
  {
    var body, head := PointerSection(ref).body, "## Archived\n\n";
    assert body == head + (LINE_PREFIX + (" `" + ref + "`_\n\n"));
    assert LINE_PREFIX <= body[|head|..];
  }

  lemma MergedHasPrefix(line: string, ref: string, prose: string)
    ensures Contains(MergedText(line, ref, prose), LINE_PREFIX)
  {
    var body, head := MergedText(line, ref, prose), line + "\n";
    var rest := " `" + ref + "`_" + "\n\n" + if prose == [] then [] else prose + "\n\n";
    assert body == head + (LINE_PREFIX + rest);
    assert LINE_PREFIX <= body[|head|..];
  }

  /** What a second repair makes of a repaired section: nothing new, unless the first one merged the pointer into
      prose with an absolute path. Then the whole section is replaced by the bare pointer. */
  lemma RepairedTwice(sec: Section, ref: string)
    requires SplitLines(sec.body) != [] && sec.heading == ARCHIVED && Portable(ref)
    ensures var pointer := PointerSection(ref);
            var once := Repaired(sec, pointer);
            && Repaired(once, pointer) ==
               (if !Contains(sec.body, LINE_PREFIX) && HasAbsoluteRef(sec.body) then pointer else once)
            && (!Contains(sec.body, LINE_PREFIX) && HasAbsoluteRef(sec.body) ==> once != pointer)
  {
    PointerHasPrefix(ref);
    if !Contains(sec.body, LINE_PREFIX) {
      MergeKeepsProse(sec, ref);
      MergedHasPrefix(SplitLines(sec.body)[0], ref, Prose(sec));
      MergedRef(sec, ref);
    }
  }

  /** A second placement leaves the first section under the heading alone, or puts the bare pointer in its place. */
  lemma PlacedTwiceAt(sections: seq<Section>, i: nat, ref: string)
    requires FirstNamed(sections, ARCHIVED, i) && SplitLines(sections[i].body) != [] && Portable(ref)
    ensures var pointer, body := PointerSection(ref), sections[i].body;
            var once := EnsurePointer(sections, pointer);
            && (EnsurePointer(once, pointer) == once <==> Contains(body, LINE_PREFIX) || !HasAbsoluteRef(body))
            && (EnsurePointer(once, pointer) != once ==>
                  EnsurePointer(once, pointer) == sections[..i] + [pointer] + sections[i + 1..])
  {
    var pointer := PointerSection(ref);
    var once, here := EnsurePointer(sections, pointer), Repaired(sections[i], pointer);
    EnsurePointerAt(sections, i, pointer);
    assert once[i] == here && once[..i] == sections[..i] && once[i + 1..] == sections[i + 1..];
    forall k | 0 <= k < i
      ensures once[k].heading != ARCHIVED
    {
      assert once[k] == once[..i][k];
    }
    EnsurePointerAt(once, i, pointer);
    RepairedTwice(sections[i], ref);
    assert (once[..i] + [Repaired(here, pointer)] + once[i + 1..])[i] == Repaired(here, pointer);
  }

  lemma PlacedTwiceAppended(sections: seq<Section>, ref: string)
    requires (forall i | 0 <= i < |sections| :: sections[i].heading != ARCHIVED) && Portable(ref)
    ensures var pointer := PointerSection(ref);
            var once := EnsurePointer(sections, pointer);
            EnsurePointer(once, pointer) == once
  {
    var pointer := PointerSection(ref);
    PlacedLast(sections, pointer);
    PointerHasPrefix(ref);
    EnsurePointerSkips(sections, [pointer], pointer);
    assert EnsurePointer([pointer], pointer) == [pointer] + [];
  }

  lemma FirstOf(sections: seq<Section>, heading: string, i: nat) returns (k: nat)
    requires i < |sections| && sections[i].heading == heading
    ensures FirstNamed(sections, heading, k)
    ensures forall j | 0 <= j < |sections| && FirstNamed(sections, heading, j) :: j == k
  {
    k := 0;
    while sections[k].heading != heading
      invariant k <= i && forall j | 0 <= j < k :: sections[j].heading != heading
      decreases i - k
    {
      k := k + 1;
    }
  }

  /** The section has no pointer line yet, and mentions an absolute path. */
  predicate Endangered(sec: Section) {
    !Contains(sec.body, LINE_PREFIX) && HasAbsoluteRef(sec.body)
  }

  /** Placing the pointer again changes nothing exactly if the first section under its heading, when there is one,
      already had a pointer line or mentions no absolute path. */
  lemma PlacedTwiceExact(sections: seq<Section>, ref: string)
    requires (forall i | 0 <= i < |sections| :: SplitLines(sections[i].body) != []) && Portable(ref)
    ensures var pointer := PointerSection(ref);
            var once := EnsurePointer(sections, pointer);
            EnsurePointer(once, pointer) == once <==>
            forall i | 0 <= i < |sections| && FirstNamed(sections, ARCHIVED, i) :: !Endangered(sections[i])
  {
    if i :| 0 <= i < |sections| && sections[i].heading == ARCHIVED {
      var k := FirstOf(sections, ARCHIVED, i);
      PlacedTwiceAt(sections, k, ref);
    } else {
      PlacedTwiceAppended(sections, ref);
    }
  }

  /** An operator's one-line note under the pointer's heading. */
  function Noted(note: string): Section {
    Section(ARCHIVED, HEAD_LINE + (note + "\n"))
  }

  lemma NoteProse(note: string)
    requires note != [] && BreakFree(note)
    ensures SplitLines(Noted(note).body) == [HEAD_LINE, note + "\n"] && Prose(Noted(note)) == note
  {
    var line, lines := note + "\n", SplitLines(Noted(note).body);
    assert HASHED + "\n" == HEAD_LINE;
    LineThen(HASHED, line);
    SplitLinesOne(line);
    assert note[0] in note && note[|note| - 1] in note;
    assert lines[1..] == [line] && Flat([line]) == line + Flat([]) && line + [] == line;
    assert line[0] == note[0] && SkipNewlines(line) == line;
    DropNewlinesBehind(note, "\n");
  }

  lemma NoteRef(note: string)
    requires HasAbsoluteRef(note)
    ensures HasAbsoluteRef(Noted(note).body)
  {
    RefNewline(note);
    RefJoined(HEAD_LINE, note + "\n");
  }

  /** A note with an absolute path: the prune that merges the pointer keeps it, the next one that archives anything
      replaces it by the bare pointer. */
  lemma NoteIsLost(note: string, ref: string)
    requires note != [] && BreakFree(note) && HasAbsoluteRef(note) && Portable(ref)
    requires !Contains(Noted(note).body, LINE_PREFIX)
    ensures var pointer := PointerSection(ref);
            var once := EnsurePointer([Noted(note)], pointer);
            && once == [Section(ARCHIVED, MergedText(HEAD_LINE, ref, note))]
            && EnsurePointer(once, pointer) == [pointer]
  {
    var sections := [Noted(note)];
    NoteProse(note);
    NoteRef(note);
    MergeKeepsProse(sections[0], ref);
    PlacedTwiceAt(sections, 0, ref);
    EnsurePointerAt(sections, 0, PointerSection(ref));
  }
}
