/** A second prune behind the redactor: what the placeholder's words may claim. */
module PruneRedaction {
  import opened MdSections
  import opened Prune
  import opened PruneApply
  import opened PruneIdempotence
  import opened PruneTheorems
  import opened Scrub
  import opened Text
  import opened Wrappers
  import Seqs

  // ---- Redaction goes line by line -------------------------------------------------------------

  /** Line breaks are neither words nor the other case of anything else. */
  ghost predicate BreaksApart(cs: Charset) {
    forall c: char | IsBreak(c) :: !cs.word(c) && forall d: char | Same(cs, c, d) :: IsBreak(d)
  }

  /** What one line may be redacted with. */
  ghost predicate LineWise(cs: Charset, names: seq<string>, p: string) {
    && BreaksApart(cs) && p != [] && BreakFree(p)
    && forall i | 0 <= i < |names| :: names[i] != [] && BreakFree(names[i])
  }

  lemma MatchLetters(cs: Charset, pat: Pattern, text: string, i: nat)
    ensures MatchAt(cs, pat, text, i) ==>
              i + |pat.name| <= |text| && forall j | 0 <= j < |pat.name| :: Same(cs, text[i + j], pat.name[j])
  {
  }

  /** A match does not reach over a line break. */
  lemma MatchStops(cs: Charset, pat: Pattern, text: string, i: nat, n: nat)
    requires BreaksApart(cs) && BreakFree(pat.name) && i < n <= |text| && IsBreak(text[n - 1])
    ensures MatchAt(cs, pat, text, i) ==> i + |pat.name| < n
  {
    var j := n - 1 - i;
    MatchLetters(cs, pat, text, i);
    assert text[i + j] == text[n - 1];
    if j < |pat.name| {
      assert pat.name[j] in pat.name;
    }
  }

  lemma MatchInside(cs: Charset, pat: Pattern, a: string, b: string, i: nat)
    requires BreaksApart(cs) && pat.name != [] && BreakFree(pat.name) && Terminated(a) && i < |a|
    ensures MatchAt(cs, pat, a + b, i) <==> MatchAt(cs, pat, a, i)
    ensures MatchAt(cs, pat, a, i) ==> i + |pat.name| < |a|
  {
    MatchStops(cs, pat, a, i, |a|);
    MatchStops(cs, pat, a + b, i, |a|);
    if i + |pat.name| < |a| {
      assert (a + b)[i..i + |pat.name|] == a[i..i + |pat.name|];
    }
  }

  lemma BoundaryBehind(cs: Charset, a: string, b: string, i: nat)
    requires BreaksApart(cs) && Terminated(a) && i <= |b|
    ensures Boundary(cs, a + b, |a| + i) <==> Boundary(cs, b, i)
  {
    if i > 0 {
      assert (a + b)[|a| + i - 1] == b[i - 1];
    }
  }

  lemma OccursBehind(cs: Charset, m: string, a: string, b: string, i: nat)
    ensures OccursAt(cs, m, a + b, |a| + i) <==> OccursAt(cs, m, b, i)
  {
  }

  lemma MatchBehind(cs: Charset, pat: Pattern, a: string, b: string, i: nat)
    requires BreaksApart(cs) && Terminated(a) && i <= |b|
    ensures MatchAt(cs, pat, a + b, |a| + i) <==> MatchAt(cs, pat, b, i)
  {
    var m := |pat.name|;
    if pat.Anywhere? {
      OccursBehind(cs, pat.name, a, b, i);
    } else if i + m <= |b| {
      assert (a + b)[|a| + i..|a| + i + m] == b[i..i + m];
      BoundaryBehind(cs, a, b, i);
      BoundaryBehind(cs, a, b, i + m);
    }
  }

  /** At `n + k`, `text` reads and matches like `b` at `k`. */
  predicate SameAt(cs: Charset, pat: Pattern, text: string, n: nat, b: string, k: nat) {
    && |text| == n + |b| && k < |b| && text[n + k] == b[k]
    && (MatchAt(cs, pat, text, n + k) <==> MatchAt(cs, pat, b, k))
  }

  lemma {:induction false} SubShifted(cs: Charset, pat: Pattern, p: string, text: string, n: nat, b: string, i: nat)
    requires pat.name != [] && |text| == n + |b| && i <= |b|
    requires forall k: nat | k < |b| :: SameAt(cs, pat, text, n, b, k)
    ensures Sub(cs, pat, p, text, n + i) == Sub(cs, pat, p, b, i)
    decreases |b| - i
  {
    if i < |b| {
      assert SameAt(cs, pat, text, n, b, i);
      var next := if MatchAt(cs, pat, b, i) then i + |pat.name| else i + 1;
      SubShifted(cs, pat, p, text, n, b, next);
      SubStep(cs, pat, p, text, n + i);
      SubStep(cs, pat, p, b, i);
    }
  }

  lemma SubBehind(cs: Charset, pat: Pattern, p: string, a: string, b: string)
    requires BreaksApart(cs) && pat.name != [] && Terminated(a)
    ensures Sub(cs, pat, p, a + b, |a|) == Sub(cs, pat, p, b, 0)
  {
    forall k: nat | k < |b|
      ensures SameAt(cs, pat, a + b, |a|, b, k)
    {
      MatchBehind(cs, pat, a, b, k);
    }
    SubShifted(cs, pat, p, a + b, |a|, b, 0);
  }

  /** At `k`, `text` reads and matches like `a`, and a match ends before `a` does. */
  predicate InsideAt(cs: Charset, pat: Pattern, text: string, a: string, k: nat) {
    && k < |a| <= |text| && text[k] == a[k] && (MatchAt(cs, pat, text, k) <==> MatchAt(cs, pat, a, k))
    && (MatchAt(cs, pat, a, k) ==> k + |pat.name| < |a|)
  }

  lemma {:induction false} SubFront(cs: Charset, pat: Pattern, p: string, text: string, a: string, i: nat)
    requires pat.name != [] && i <= |a| <= |text|
    requires forall k: nat | k < |a| :: InsideAt(cs, pat, text, a, k)
    ensures Sub(cs, pat, p, text, i) == Sub(cs, pat, p, a, i) + Sub(cs, pat, p, text, |a|)
    decreases |a| - i
  {
    if i < |a| {
      assert InsideAt(cs, pat, text, a, i);
      var hit := MatchAt(cs, pat, a, i);
      var next := if hit then i + |pat.name| else i + 1;
      SubFront(cs, pat, p, text, a, next);
      SubStep(cs, pat, p, text, i);
      SubStep(cs, pat, p, a, i);
      Seqs.Assoc(if hit then p else [a[i]], Sub(cs, pat, p, a, next), Sub(cs, pat, p, text, |a|));
    }
  }

  /** The last character of a text that ends in a break is copied. */
  lemma {:induction false} SubEnds(cs: Charset, pat: Pattern, p: string, a: string, i: nat)
    requires pat.name != [] && i < |a| && forall k: nat | k < |a| :: InsideAt(cs, pat, a, a, k)
    ensures var out := Sub(cs, pat, p, a, i); out != [] && out[|out| - 1] == a[|a| - 1]
    decreases |a| - i
  {
    assert InsideAt(cs, pat, a, a, i);
    SubStep(cs, pat, p, a, i);
    var next := if MatchAt(cs, pat, a, i) then i + |pat.name| else i + 1;
    if next < |a| {
      SubEnds(cs, pat, p, a, next);
    }
  }

  lemma SubAppend(cs: Charset, pat: Pattern, p: string, a: string, b: string)
    requires BreaksApart(cs) && pat.name != [] && BreakFree(pat.name) && Terminated(a)
    ensures Sub(cs, pat, p, a + b, 0) == Sub(cs, pat, p, a, 0) + Sub(cs, pat, p, b, 0)
    ensures Terminated(Sub(cs, pat, p, a, 0))
  {
    forall k: nat | k < |a|
      ensures InsideAt(cs, pat, a + b, a, k)
    {
      MatchInside(cs, pat, a, b, k);
    }
    forall k: nat | k < |a|
      ensures InsideAt(cs, pat, a, a, k)
    {
      MatchInside(cs, pat, a, b, k);
    }
    if a != [] {
      SubEnds(cs, pat, p, a, 0);
    }
    SubFront(cs, pat, p, a + b, a, 0);
    SubBehind(cs, pat, p, a, b);
  }

  lemma {:induction false} RedactedAppend(cs: Charset, names: seq<string>, p: string, a: string, b: string)
    requires LineWise(cs, names, p) && Terminated(a)
    ensures Redacted(cs, names, p, a + b) == Redacted(cs, names, p, a) + Redacted(cs, names, p, b)
    ensures Terminated(Redacted(cs, names, p, a))
  {
    if names != [] {
      var n := |names| - 1;
      RedactedAppend(cs, names[..n], p, a, b);
      SubAppend(cs, Compile(names[n]), p, Redacted(cs, names[..n], p, a), Redacted(cs, names[..n], p, b));
    }
  }

  lemma {:induction false} SubOfLine(cs: Charset, pat: Pattern, p: string, line: string, i: nat)
    requires pat.name != [] && p != [] && BreakFree(p) && IsLine(line) && i <= |line|
    ensures var out := Sub(cs, pat, p, line, i); out == [] <==> i == |line|
    ensures forall k | 0 <= k < |Sub(cs, pat, p, line, i)| - 1 :: !IsBreak(Sub(cs, pat, p, line, i)[k])
    decreases |line| - i
  {
    if i < |line| {
      var out := Sub(cs, pat, p, line, i);
      if MatchAt(cs, pat, line, i) {
        SubOfLine(cs, pat, p, line, i + |pat.name|);
        var rest := Sub(cs, pat, p, line, i + |pat.name|);
        forall k | 0 <= k < |out| - 1
          ensures !IsBreak(out[k])
        {
          assert k < |p| ==> out[k] == p[k] && p[k] in p;
          assert k >= |p| ==> out[k] == rest[k - |p|];
        }
      } else {
        SubOfLine(cs, pat, p, line, i + 1);
      }
    }
  }

  lemma {:induction false} RedactedLine(cs: Charset, names: seq<string>, p: string, line: string)
    requires LineWise(cs, names, p) && IsLine(line)
    ensures IsLine(Redacted(cs, names, p, line))
  {
    if names != [] {
      var n := |names| - 1;
      RedactedLine(cs, names[..n], p, line);
      SubOfLine(cs, Compile(names[n]), p, Redacted(cs, names[..n], p, line), 0);
    }
  }

  /** The redacted form of the line is a heading that an owned done item claims. */
  predicate ClaimedLine(owned: seq<ReconcileItem>, line: string) {
    Heading(line).Some? && Claimed(owned, Heading(line).value)
  }

  lemma LineFree(owned: seq<ReconcileItem>, line: string)
    requires IsLine(line)
    ensures Free(owned, line) <==> !ClaimedLine(owned, line)
  {
    LineHeadings(line);
    if Heading(line).Some? {
      assert Heading(line).value in TextHeadings(line);
    }
  }

  lemma FreeParts(owned: seq<ReconcileItem>, a: string, b: string)
    requires Terminated(a)
    ensures Free(owned, a + b) <==> Free(owned, a) && Free(owned, b)
  {
    TextHeadingsAppend(a, b);
    var all := TextHeadings(a) + TextHeadings(b);
    assert forall h :: h in all <==> h in TextHeadings(a) || h in TextHeadings(b);
  }

  /** No line of the text is a claimed heading once it is redacted. */
  predicate LinesStayFree(cs: Charset, names: seq<string>, p: string, owned: seq<ReconcileItem>, lines: seq<string>)
    requires Vocabulary(names)
  {
    forall i | 0 <= i < |lines| :: !ClaimedLine(owned, Redacted(cs, names, p, lines[i]))
  }

  lemma {:induction false} RedactedNothing(cs: Charset, names: seq<string>, p: string)
    requires Vocabulary(names)
    ensures Redacted(cs, names, p, []) == []
  {
    if names != [] {
      RedactedNothing(cs, names[..|names| - 1], p);
    }
  }

  lemma {:induction false} LinesRedacted(cs: Charset, names: seq<string>, p: string, owned: seq<ReconcileItem>,
                                         lines: seq<string>)
    requires LineWise(cs, names, p) && AreLines(lines)
    ensures Free(owned, Redacted(cs, names, p, Flat(lines))) <==> LinesStayFree(cs, names, p, owned, lines)
  {
    if lines == [] {
      RedactedNothing(cs, names, p);
    } else {
      var line, rest := lines[0], lines[1..];
      assert IsLine(line);
      LinesRedacted(cs, names, p, owned, rest);
      RedactedLine(cs, names, p, line);
      LineFree(owned, Redacted(cs, names, p, line));
      FirstLineFree(cs, names, p, owned, lines);
      if rest == [] {
        assert line + [] == line;
      } else {
        assert Terminated(line);
        RedactedAppend(cs, names, p, line, Flat(rest));
        FreeParts(owned, Redacted(cs, names, p, line), Redacted(cs, names, p, Flat(rest)));
      }
    }
  }

  lemma FirstLineFree(cs: Charset, names: seq<string>, p: string, owned: seq<ReconcileItem>, lines: seq<string>)
    requires Vocabulary(names) && lines != []
    ensures LinesStayFree(cs, names, p, owned, lines) <==>
            !ClaimedLine(owned, Redacted(cs, names, p, lines[0])) && LinesStayFree(cs, names, p, owned, lines[1..])
  {
    assert forall i | 0 < i < |lines| :: lines[i] == lines[1..][i - 1];
  }

  /** Redaction makes a claimed heading exactly where it turns a line into one. */
  lemma RedactedFreeExact(cs: Charset, names: seq<string>, p: string, owned: seq<ReconcileItem>, text: string)
    requires LineWise(cs, names, p)
    ensures Free(owned, Redacted(cs, names, p, text)) <==> LinesStayFree(cs, names, p, owned, SplitLines(text))
  {
    SplitLinesFlat(text);
    LinesRedacted(cs, names, p, owned, SplitLines(text));
  }

  // ---- A second run behind the redactor -----------------------------------------------------------------

  /** The log that the plan for these files leaves to the redactor. */
  function LogToRedact(log: string, plan: Plan, recentN: int, ref: string): string {
    if plan.IsNoop() then log else LogAfter(log, ClaimedLog(plan), recentN, ref)
  }

  /** The backlog with its completed sections emptied. */
  function ClosedBacklog(backlog: string): string {
    Join(Parts(Split(backlog).preamble, CloseCompleted(Split(backlog).sections)))
  }

  lemma {:induction false} NothingToClose(sections: seq<Section>)
    requires CompletedMoves(sections) == []
    ensures CloseCompleted(sections) == sections && CompletedOf(sections) == []
  {
    CompletedMovesAreBacklog(sections);
    CompletedOfNone(sections);
  }

  lemma BacklogToRedact(files: Files, owned: seq<ReconcileItem>, recentN: int, target: Target,
                        entry: ReconcileItem -> string)
    requires files.backlog.Some? && owned != []
    ensures var plan := PlanOf(files.log, files.backlog, owned, recentN, entry);
            Written(files, plan, recentN, target).backlog == Some(ClosedBacklog(files.backlog.value))
  {
    var plan := PlanOf(files.log, files.backlog, owned, recentN, entry);
    var sections := Split(files.backlog.value).sections;
    var moves := CompletedMoves(sections);
    if !plan.IsNoop() {
      WrittenTexts(files, plan, recentN, target);
    }
    if moves == [] {
      NothingToClose(sections);
      JoinSplit(files.backlog.value);
    } else {
      CompletedMovesAreBacklog(sections);
      CompletedOfNone(sections);
      assert moves[0] in moves && moves[0] in plan.moves;
    }
  }

  lemma LogIsToRedact(files: Files, plan: Plan, recentN: int, target: Target)
    requires files.log.Some?
    ensures Written(files, plan, recentN, target).log ==
            Some(LogToRedact(files.log.value, plan, recentN, target.logRef))
  {
    if !plan.IsNoop() {
      WrittenTexts(files, plan, recentN, target);
    }
  }

  /** Redacting what the plan for these files leaves puts in, or leaves, nothing to move. */
  predicate RedactsToNothing(cs: Charset, names: seq<string>, p: string, files: Files, owned: seq<ReconcileItem>,
                             plan: Plan, recentN: int, ref: string)
    requires Vocabulary(names)
  {
    && (files.log.Some? ==> Free(owned, Redacted(cs, names, p, LogToRedact(files.log.value, plan, recentN, ref))))
    && (owned != [] && files.backlog.Some? ==> Open(Redacted(cs, names, p, ClosedBacklog(files.backlog.value))))
  }

  /** Behind the redactor of any vocabulary the second plan is empty exactly if redacting the log and the emptied
      backlog leaves no claimed heading and no completed section. With safe names it then writes nothing. */
  lemma RedactedPruneExact(files: Files, owned: seq<ReconcileItem>, recentN: int, target: Target,
                           cs: Charset, names: seq<string>, p: string, entry: ReconcileItem -> string)
    requires Vocabulary(names)
    ensures var scrub := text => Redacted(cs, names, p, text);
            var plan := PlanOf(files.log, files.backlog, owned, recentN, entry);
            var after := Applied(files, plan, recentN, target, scrub);
            var again := PlanOf(after.log, after.backlog, owned, recentN, entry);
            && (again.IsNoop() <==> RedactsToNothing(cs, names, p, files, owned, plan, recentN, target.logRef))
            && (again.IsNoop() && Safe(cs, names, p) ==> Applied(after, again, recentN, target, scrub) == after)
  {
    var scrub := text => Redacted(cs, names, p, text);
    var plan := PlanOf(files.log, files.backlog, owned, recentN, entry);
    var w := Written(files, plan, recentN, target);
    ReplanExact(files, owned, recentN, target, scrub, entry);
    if files.log.Some? {
      LogIsToRedact(files, plan, recentN, target);
    }
    if files.backlog.Some? && owned != [] {
      BacklogToRedact(files, owned, recentN, target, entry);
    }
    if Safe(cs, names, p) {
      if w.log.Some? {
        RedactionIdempotent(cs, names, p, w.log.value);
      }
      if w.backlog.Some? {
        RedactionIdempotent(cs, names, p, w.backlog.value);
      }
    }
  }

  /** The same, line by line: a log section is left to move exactly where redaction makes a line a claimed heading. */
  lemma RedactedPruneByLines(files: Files, owned: seq<ReconcileItem>, recentN: int, target: Target,
                             cs: Charset, names: seq<string>, p: string, entry: ReconcileItem -> string)
    requires LineWise(cs, names, p) && files.log.Some? && files.backlog.None?
    ensures var plan := PlanOf(files.log, None, owned, recentN, entry);
            var after := Applied(files, plan, recentN, target, text => Redacted(cs, names, p, text));
            PlanOf(after.log, after.backlog, owned, recentN, entry).IsNoop() <==>
            LinesStayFree(cs, names, p, owned, SplitLines(LogToRedact(files.log.value, plan, recentN, target.logRef)))
  {
    var plan := PlanOf(files.log, None, owned, recentN, entry);
    RedactedPruneExact(files, owned, recentN, target, cs, names, p, entry);
    RedactedFreeExact(cs, names, p, owned, LogToRedact(files.log.value, plan, recentN, target.logRef));
  }

  // ---- The placeholder's own words --------------------------------------------------------------------

  /** ASCII, as `re` compares and classifies it. */
  const ASCII := Charset((c: char) => LowerChar(c), (c: char) => IsAlnum(c) || c == '_')

  const PRIVATE_ITEM := ReconcileItem("Old", "private", "done", "repo")

  lemma AcmeIsApart()
    ensures Safe(ASCII, ["acme"], PLACEHOLDER)
  {
    var m, p := "acme", PLACEHOLDER;
    forall d | -|m| < d < |p|
      ensures !AgreeAt(ASCII, m, p, d)
    {
      if 0 <= d + 1 < |p| {
        assert p[1 + d] != 'c' && p[1 + d] != 'C';
        assert !Same(ASCII, p[1 + d], m[1]);
      } else if d == |p| - 1 {
        assert !Same(ASCII, p[0 + d], m[0]);
      } else {
        assert !Same(ASCII, p[3 + d], m[3]);
      }
    }
  }

  lemma WordTokens(w: string)
    requires w != [] && forall c | c in w :: IsAlnum(c) && LowerChar(c) == c
    ensures Tokens(w) == {w}
  {
    TokensWord(w, []);
    LowerPointwise(w);
    assert Lower(w) == w;
    assert [] + w == w;
  }

  lemma TokensAround(a: string, w: string, b: string)
    requires w != [] && forall c | c in w :: IsAlnum(c) && LowerChar(c) == c
    ensures w in Tokens(a + [' '] + (w + [' '] + b))
  {
    WordTokens(w);
    TokensSeparate(a, ' ', w + [' '] + b, []);
    TokensSeparate(w, ' ', b, []);
  }

  lemma PlaceholderTokens()
    ensures "private" in Tokens(PLACEHOLDER)
  {
    TokensAround("a", "private", "downstream repo");
    assert PLACEHOLDER == "a" + [' '] + ("private" + [' '] + "downstream repo");
  }

  lemma PrivateKeywords()
    ensures Keywords(PRIVATE_ITEM) == {"old", "private"}
  {
    OldTokens();
    WordTokens("private");
  }

  lemma PrivateItemWords()
    ensures Claimed([PRIVATE_ITEM], PLACEHOLDER) && !Claimed([PRIVATE_ITEM], "acme")
  {
    PrivateKeywords();
    WordTokens("acme");
    PlaceholderTokens();
    assert Claims([PRIVATE_ITEM][0], PLACEHOLDER);
  }

  lemma AcmeRedacted(text: string)
    requires text == "## acme\n"
    ensures Redacted(ASCII, ["acme"], PLACEHOLDER, text) == "## " + PLACEHOLDER + "\n"
  {
    var pat := Anywhere("acme");
    assert MatchAt(ASCII, pat, text, 3);
    forall i | 0 <= i < 3
      ensures !MatchAt(ASCII, pat, text, i)
    {
      assert !Same(ASCII, text[i + 0], "acme"[0]);
    }
    SubOnce(ASCII, pat, PLACEHOLDER, text, 3);
    assert text[0..3] == "## " && text[7..8] == "\n";
    Seqs.Assoc("## ", PLACEHOLDER, "\n");
  }

  predicate Title(s: string) {
    s != [] && BreakFree(s) && !IsSpace(s[0]) && !IsSpace(s[|s| - 1])
  }

  lemma TitleFree(owned: seq<ReconcileItem>, title: string)
    requires Title(title)
    ensures Free(owned, "## " + title + "\n") <==> !Claimed(owned, title)
  {
    EmptiedHeading(title);
    LineFree(owned, "## " + title + "\n");
  }

  lemma RedactionClaims(log: string, owned: seq<ReconcileItem>, target: Target, scrub: string -> string,
                        entry: ReconcileItem -> string)
    requires Free(owned, log) && !Free(owned, scrub(log))
    ensures var files := Files(Some(log), None, "", "", None);
            var plan := PlanOf(files.log, None, owned, 10, entry);
            var after := Applied(files, plan, 10, target, scrub);
            plan.IsNoop() && after.log == Some(scrub(log)) && !PlanOf(after.log, None, owned, 10, entry).IsNoop()
  {
    NoopExact(Some(log), None, owned, 10, entry);
    NoopExact(Some(scrub(log)), None, owned, 10, entry);
  }

  lemma TitlesFree(owned: seq<ReconcileItem>, log: string, redacted: string, a: string, b: string)
    requires Title(a) && Title(b) && log == "## " + a + "\n" && redacted == "## " + b + "\n"
    requires !Claimed(owned, a) && Claimed(owned, b)
    ensures Free(owned, log) && !Free(owned, redacted)
  {
    TitleFree(owned, a);
    TitleFree(owned, b);
  }

  lemma PlainTitle(s: string)
    requires s != [] && forall c | c in s :: IsAlnum(c) || c == ' '
    requires IsAlnum(s[0]) && IsAlnum(s[|s| - 1])
    ensures Title(s)
  {
  }

  lemma AcmeTitles()
    ensures Title("acme") && Title(PLACEHOLDER)
  {
    PlainTitle("acme");
    PlainTitle(PLACEHOLDER);
  }

  lemma AcmeIsClaimed(log: string, redacted: string)
    requires log == "## acme\n" && redacted == Redacted(ASCII, ["acme"], PLACEHOLDER, log)
    ensures Free([PRIVATE_ITEM], log) && !Free([PRIVATE_ITEM], redacted)
  {
    AcmeRedacted(log);
    AcmeTitles();
    PrivateItemWords();
    TitlesFree([PRIVATE_ITEM], log, redacted, "acme", PLACEHOLDER);
  }

  /** A prune that moves nothing, of a log in which it redacts one safe name, leaves a log that the next prune
      archives from: an item titled `private` claims the placeholder. */
  lemma PlaceholderPrunesAgain(target: Target, entry: ReconcileItem -> string)
    ensures var files := Files(Some("## acme\n"), None, "", "", None);
            var plan := PlanOf(files.log, None, [PRIVATE_ITEM], 10, entry);
            var after := Applied(files, plan, 10, target, text => Redacted(ASCII, ["acme"], PLACEHOLDER, text));
            && Safe(ASCII, ["acme"], PLACEHOLDER) && plan.IsNoop()
            && !PlanOf(after.log, None, [PRIVATE_ITEM], 10, entry).IsNoop()
  {
    AcmeIsApart();
    var log := "## acme\n";
    AcmeIsClaimed(log, Redacted(ASCII, ["acme"], PLACEHOLDER, log));
    RedactionClaims(log, [PRIVATE_ITEM], target, text => Redacted(ASCII, ["acme"], PLACEHOLDER, text), entry);
  }
}
