/** What a prune keeps: the preview is what apply does, nothing is lost, and a second run finds nothing. */
module PruneTheorems {
  import opened MdSections
  import opened Positions
  import opened Prune
  import opened PruneApply
  import opened Text
  import opened Wrappers
  import Seqs

  // ---- Preview equals apply --------------------------------------------------------------------

  /** The headings at the positions in `S`, with multiplicity. */
  function HeadingBag(headings: seq<string>, S: set<nat>): multiset<string> {
    if headings == [] then multiset{}
    else
      var n := |headings| - 1;
      HeadingBag(headings[..n], S) + if n in S then multiset{headings[n]} else multiset{}
  }

  lemma {:induction false} HeadingBagAdd(headings: seq<string>, S: set<nat>, p: nat)
    requires p !in S
    ensures HeadingBag(headings, S + {p}) ==
            HeadingBag(headings, S) + if p < |headings| then multiset{headings[p]} else multiset{}
  {
    if headings != [] {
      var n := |headings| - 1;
      HeadingBagAdd(headings[..n], S, p);
      if p < n {
        assert headings[..n][p] == headings[p];
      }
      if n in S {
        assert n in S + {p} && n != p;
      } else {
        assert n in S + {p} <==> n == p;
      }
    }
  }

  lemma {:induction false} HeadingBagEmpty(headings: seq<string>)
    ensures HeadingBag(headings, {}) == multiset{}
  {
    if headings != [] {
      HeadingBagEmpty(headings[..|headings| - 1]);
    }
  }

  /** The headings of the planned log moves. */
  function LogHeadings(moves: seq<Move>): seq<string> {
    if moves == [] then []
    else
      LogHeadings(moves[..|moves| - 1]) + if moves[|moves| - 1].source == Log then [moves[|moves| - 1].heading] else []
  }

  lemma ClaimsSnoc(claims: seq<Claim>, last: Claim)
    ensures Moves(claims + [last]) == Moves(claims) + [last.move]
    ensures Taken(claims + [last]) == Taken(claims) + {last.at}
  {
  }

  lemma {:induction false} ClaimsBag(headings: seq<string>, claims: seq<Claim>)
    requires DistinctPositions(claims) && forall c | c in claims :: ClaimOf(headings, c)
    ensures multiset(LogHeadings(Moves(claims))) == HeadingBag(headings, Taken(claims))
  {
    if claims == [] {
      assert Moves(claims) == [] && Taken(claims) == {};
      HeadingBagEmpty(headings);
    } else {
      var n := |claims| - 1;
      var init, last := claims[..n], claims[n];
      assert last in claims;
      assert claims == init + [last];
      ClaimsBag(headings, init);
      ClaimsSnoc(init, last);
      HeadingBagAdd(headings, Taken(init), last.at);
    }
  }

  lemma {:induction false} LogHeadingsAppend(a: seq<Move>, b: seq<Move>)
    requires forall m | m in b :: m.source == Backlog
    ensures LogHeadings(a + b) == LogHeadings(a)
  {
    if b == [] {
      assert a + b == a;
    } else {
      assert (a + b)[..|a + b| - 1] == a + b[..|b| - 1];
      LogHeadingsAppend(a, b[..|b| - 1]);
    }
  }

  lemma {:induction false} CompletedMovesAreBacklog(sections: seq<Section>)
    ensures forall m | m in CompletedMoves(sections) :: m.source == Backlog
    ensures CompletedMoves(sections) == [] <==> forall i | 0 <= i < |sections| :: !Completed(sections[i])
  {
    if sections != [] {
      CompletedMovesAreBacklog(sections[..|sections| - 1]);
    }
  }

  /** What apply archives: the claimed sections and the planned trims. */
  lemma {:induction false} ArchivedBag(sections: seq<Section>, claimed: set<string>, recentN: int, S: set<nat>)
    requires forall p: nat | p < |sections| :: p in S <==> sections[p].heading in claimed
    ensures var r := Retain(sections, claimed, recentN);
            multiset(Headings(r.archived)) == HeadingBag(Headings(sections), S) + multiset(TrimsOf(r.archived, claimed))
  {
    if sections != [] {
      var n := |sections| - 1;
      ArchivedBag(sections[..n], claimed, recentN, S);
      assert Headings(sections)[..n] == Headings(sections[..n]);
      var init := Retain(sections[..n], claimed, recentN);
      ArchivedOneMore(init.archived, sections[n], claimed);
    }
  }

  lemma ArchivedOneMore(archived: seq<Section>, sec: Section, claimed: set<string>)
    ensures multiset(Headings(archived + [sec])) == multiset(Headings(archived)) + multiset{sec.heading}
    ensures TrimsOf(archived + [sec], claimed) ==
            TrimsOf(archived, claimed) + if sec.heading in claimed then [] else [sec.heading]
  {
    assert Headings(archived + [sec]) == Headings(archived) + [sec.heading];
    assert (archived + [sec])[..|archived|] == archived;
  }

  lemma {:induction false} KeptCount(sections: seq<Section>, claimed: set<string>, recentN: int)
    ensures var r := Retain(sections, claimed, recentN); |r.kept| == Min(Max(0, recentN), r.unclaimed)
  {
    if sections != [] {
      KeptCount(sections[..|sections| - 1], claimed, recentN);
    }
  }

  lemma LogMoves(claims: seq<Claim>, later: seq<Move>)
    requires forall c | c in claims :: c.move.source == Log
    requires forall m | m in later :: m.source == Backlog
    ensures (set m | m in Moves(claims) + later && m.source == Log :: m.heading) == HeadingsOf(claims)
  {
    forall c | c in claims
      ensures c.move in Moves(claims) + later
    {
      var i :| 0 <= i < |claims| && claims[i] == c;
      assert (Moves(claims) + later)[i] == c.move;
    }
    forall m | m in Moves(claims) + later && m.source == Log
      ensures m.heading in HeadingsOf(claims)
    {
      var i :| 0 <= i < |claims| && claims[i].move == m;
      assert claims[i] in claims;
    }
  }

  /** A word of more than two characters, not a stop word, is in the heading and in the item's id or title. */
  predicate SharesWord(item: ReconcileItem, heading: string) {
    exists word | word in Tokens(heading) ::
      |word| > 2 && word !in {"the", "and", "for", "with"} && (word in Tokens(item.id) || word in Tokens(item.title))
  }

  lemma ClaimsSharesWord(item: ReconcileItem, heading: string)
    ensures Claims(item, heading) <==> SharesWord(item, heading)
  {
    if heading == "" {
      assert Tokens(heading) == {};
    }
    if word :| word in Tokens(heading) && |word| > 2 && word !in {"the", "and", "for", "with"}
               && (word in Tokens(item.id) || word in Tokens(item.title)) {
      assert word in Keywords(item);
    }
  }

  predicate SharedBySome(items: seq<ReconcileItem>, heading: string) {
    exists i | 0 <= i < |items| :: SharesWord(items[i], heading)
  }

  lemma ClaimedByWords(items: seq<ReconcileItem>, heading: string)
    ensures Claimed(items, heading) <==> SharedBySome(items, heading)
  {
    forall i | 0 <= i < |items| {
      ClaimsSharesWord(items[i], heading);
    }
  }

  /** The headings a plan claims are those that share a word with some item. */
  lemma ClaimedLogExact(log: string, backlog: Option<string>, owned: seq<ReconcileItem>, recentN: int,
                        entry: ReconcileItem -> string)
    ensures var plan := PlanOf(Some(log), backlog, owned, recentN, entry);
            var headings := Headings(Split(log).sections);
            && ClaimedLog(plan) == HeadingsOf(ClaimAll(owned, headings, entry).claims)
            && (forall h | h in headings :: h in ClaimedLog(plan) <==> Claimed(owned, h))
            && (forall h | h in headings :: h in ClaimedLog(plan) <==> SharedBySome(owned, h))
  {
    var plan := PlanOf(Some(log), backlog, owned, recentN, entry);
    var headings := Headings(Split(log).sections);
    var claims := ClaimAll(owned, headings, entry).claims;
    ClaimsExact(owned, headings, entry);
    var later := if backlog.Some? && owned != [] then CompletedMoves(Split(backlog.value).sections) else [];
    if backlog.Some? {
      CompletedMovesAreBacklog(Split(backlog.value).sections);
    }
    LogMoves(claims, later);
    forall h | h in headings && Claimed(owned, h)
      ensures h in HeadingsOf(claims)
    {
      var p :| 0 <= p < |headings| && headings[p] == h;
      assert p in Taken(claims);
    }
    forall h {
      ClaimedByWords(owned, h);
    }
  }

  lemma RetainPreviewed(log: string, backlog: Option<string>, owned: seq<ReconcileItem>, recentN: int,
                        entry: ReconcileItem -> string)
    ensures var plan := PlanOf(Some(log), backlog, owned, recentN, entry);
            var r := Retain(Split(log).sections, ClaimedLog(plan), recentN);
            multiset(Headings(r.archived)) == multiset(LogHeadings(plan.moves)) + multiset(plan.trims)
  {
    var plan := PlanOf(Some(log), backlog, owned, recentN, entry);
    var sections := Split(log).sections;
    var headings := Headings(sections);
    var claims := ClaimAll(owned, headings, entry).claims;
    ClaimedLogExact(log, backlog, owned, recentN, entry);
    ClaimsExact(owned, headings, entry);
    forall p: nat | p < |sections|
      ensures p in Taken(claims) <==> sections[p].heading in ClaimedLog(plan)
    {
      assert headings[p] in headings;
    }
    ArchivedBag(sections, ClaimedLog(plan), recentN, Taken(claims));
    ClaimsBag(headings, claims);
    var later := if backlog.Some? && owned != [] then CompletedMoves(Split(backlog.value).sections) else [];
    if backlog.Some? {
      CompletedMovesAreBacklog(Split(backlog.value).sections);
    }
    LogHeadingsAppend(Moves(claims), later);
  }

  /** Applying an unchanged plan archives exactly the moves and trims it lists, and keeps the newest unclaimed
      sections, as many as there are up to `recentN`. */
  lemma PreviewEqualsApply(log: string, backlog: Option<string>, owned: seq<ReconcileItem>, recentN: int,
                           entry: ReconcileItem -> string)
    ensures var plan := PlanOf(Some(log), backlog, owned, recentN, entry);
            var sections := Split(log).sections;
            exists kept, archived ::
              && KeepsNewest(sections, ClaimedLog(plan), plan.recentN, kept, archived)
              && multiset(Headings(archived)) == multiset(LogHeadings(plan.moves)) + multiset(plan.trims)
              && |kept| == Min(Max(0, recentN), |UnclaimedBefore(sections, ClaimedLog(plan), |sections|)|)
  {
    var plan := PlanOf(Some(log), backlog, owned, recentN, entry);
    var sections := Split(log).sections;
    var r := Retain(sections, ClaimedLog(plan), recentN);
    RetainPreviewed(log, backlog, owned, recentN, entry);
    RetainExact(sections, ClaimedLog(plan), recentN);
    KeptCount(sections, ClaimedLog(plan), recentN);
    assert KeepsNewest(sections, ClaimedLog(plan), plan.recentN, r.kept, r.archived);
  }

  // ---- Nothing is lost ---------------------------------------------------------------------------

  /** `s` is `a` and `b` merged, each in its own order. */
  predicate Interleaves<T(==)>(s: seq<T>, a: seq<T>, b: seq<T>)
    decreases |s|
  {
    if s == [] then a == [] && b == []
    else
      var x, init := s[|s| - 1], s[..|s| - 1];
      || (a != [] && a[|a| - 1] == x && Interleaves(init, a[..|a| - 1], b))
      || (b != [] && b[|b| - 1] == x && Interleaves(init, a, b[..|b| - 1]))
  }

  lemma {:induction false} RetainInterleaves(sections: seq<Section>, claimed: set<string>, recentN: int)
    ensures var r := Retain(sections, claimed, recentN); Interleaves(sections, r.kept, r.archived)
  {
    if sections != [] {
      var init := Retain(sections[..|sections| - 1], claimed, recentN);
      RetainInterleaves(sections[..|sections| - 1], claimed, recentN);
      var r := Retain(sections, claimed, recentN);
      if r.kept != init.kept {
        assert r.kept[..|r.kept| - 1] == init.kept;
      } else {
        assert r.archived[..|r.archived| - 1] == init.archived;
      }
    }
  }

  /** `sections[i]` is the first section with that heading. */
  predicate FirstNamed(sections: seq<Section>, heading: string, i: nat) {
    && i < |sections| && sections[i].heading == heading
    && forall k | 0 <= k < i :: sections[k].heading != heading
  }

  /** The first section under the pointer's heading is repaired, or the pointer is appended if there is none:
      every other section stays where it is, also a later one under that heading. */
  predicate PlacedExactly(sections: seq<Section>, placed: seq<Section>, pointer: Section) {
    && (forall i | 0 <= i < |sections| && FirstNamed(sections, pointer.heading, i) ::
          placed == sections[..i] + [Repaired(sections[i], pointer)] + sections[i + 1..])
    && ((forall i | 0 <= i < |sections| :: sections[i].heading != pointer.heading) ==> placed == sections + [pointer])
  }

  lemma PointerKeepsOthers(sections: seq<Section>, pointer: Section)
    ensures PlacedExactly(sections, EnsurePointer(sections, pointer), pointer)
  {
    forall i | 0 <= i < |sections| && FirstNamed(sections, pointer.heading, i)
      ensures EnsurePointer(sections, pointer) == sections[..i] + [Repaired(sections[i], pointer)] + sections[i + 1..]
    {
      EnsurePointerAt(sections, i, pointer);
    }
    if forall i | 0 <= i < |sections| :: sections[i].heading != pointer.heading {
      EnsurePointerSkips(sections, [], pointer);
      assert sections + [] == sections;
    }
  }

  /** The archive if no section were skipped. */
  function Appended(base: string, sections: seq<Section>): string {
    if sections == [] then base
    else EndLine(EndLine(Appended(base, sections[..|sections| - 1])) + sections[|sections| - 1].body)
  }

  /** The sections that an append to `base` does not skip: the archive so far does not hold their heading line. */
  function Unskipped(base: string, sections: seq<Section>): seq<Section> {
    if sections == [] then []
    else
      var n := |sections| - 1;
      Unskipped(base, sections[..n])
      + if AlreadyArchived(ArchiveAll(base, sections[..n]), sections[n]) then [] else [sections[n]]
  }

  lemma AppendedSnoc(base: string, init: seq<Section>, sec: Section)
    ensures Appended(base, init + [sec]) == EndLine(EndLine(Appended(base, init)) + sec.body)
  {
    assert (init + [sec])[..|init|] == init;
  }

  /** The archive is the base followed by exactly the bodies of the sections that are not skipped, in order. */
  lemma {:induction false} ArchiveIsUnskipped(base: string, sections: seq<Section>)
    ensures ArchiveAll(base, sections) == Appended(base, Unskipped(base, sections))
  {
    if sections == [] {
      assert Unskipped(base, sections) == [];
    } else {
      var n := |sections| - 1;
      var before, init := ArchiveAll(base, sections[..n]), Unskipped(base, sections[..n]);
      ArchiveIsUnskipped(base, sections[..n]);
      if AlreadyArchived(before, sections[n]) {
        assert Unskipped(base, sections) == init + [] == init;
      } else {
        AppendedSnoc(base, init, sections[n]);
      }
    }
  }

  /** The section at `i` is skipped: its heading line is already in the archive when its turn comes. */
  predicate SkippedAt(base: string, sections: seq<Section>, i: nat)
    requires i < |sections|
  {
    AlreadyArchived(ArchiveAll(base, sections[..i]), sections[i])
  }

  lemma SkippedInPrefix(base: string, sections: seq<Section>, n: nat, i: nat)
    requires i < n <= |sections|
    ensures SkippedAt(base, sections[..n], i) == SkippedAt(base, sections, i)
  {
    assert sections[..n][..i] == sections[..i];
  }

  /** Some section equal to `sec` is not skipped. */
  predicate Reaches(base: string, sections: seq<Section>, sec: Section) {
    exists i | 0 <= i < |sections| :: sections[i] == sec && !SkippedAt(base, sections, i)
  }

  lemma ReachesSnoc(base: string, sections: seq<Section>, sec: Section)
    requires sections != []
    ensures var n := |sections| - 1;
            Reaches(base, sections, sec) <==>
            Reaches(base, sections[..n], sec) || (sections[n] == sec && !SkippedAt(base, sections, n))
  {
    var n := |sections| - 1;
    var init := sections[..n];
    if i :| 0 <= i < |sections| && sections[i] == sec && !SkippedAt(base, sections, i) {
      if i < n {
        SkippedInPrefix(base, sections, n, i);
        assert init[i] == sec;
      }
    }
    if i :| 0 <= i < n && init[i] == sec && !SkippedAt(base, init, i) {
      SkippedInPrefix(base, sections, n, i);
      assert sections[i] == sec;
    }
  }

  /** The appended sections are exactly those that are not skipped. */
  lemma {:induction false} UnskippedExact(base: string, sections: seq<Section>, sec: Section)
    ensures sec in Unskipped(base, sections) <==> Reaches(base, sections, sec)
  {
    if sections != [] {
      UnskippedExact(base, sections[..|sections| - 1], sec);
      ReachesSnoc(base, sections, sec);
    }
  }

  predicate NoneSkipped(base: string, sections: seq<Section>) {
    forall i | 0 <= i < |sections| :: !SkippedAt(base, sections, i)
  }

  lemma NoneSkippedLast(base: string, sections: seq<Section>)
    requires sections != []
    ensures var n := |sections| - 1;
            NoneSkipped(base, sections) <==> NoneSkipped(base, sections[..n]) && !SkippedAt(base, sections, n)
  {
    var n := |sections| - 1;
    forall i | 0 <= i < n
      ensures SkippedAt(base, sections[..n], i) == SkippedAt(base, sections, i)
    {
      SkippedInPrefix(base, sections, n, i);
    }
  }

  lemma {:induction false} NoneSkippedAppends(base: string, sections: seq<Section>)
    requires NoneSkipped(base, sections)
    ensures ArchiveAll(base, sections) == Appended(base, sections)
  {
    if sections != [] {
      NoneSkippedLast(base, sections);
      NoneSkippedAppends(base, sections[..|sections| - 1]);
    }
  }

  lemma SkipSizes(u: string, v: string, sec: Section)
    requires sec.body != ""
    requires |EndLine(u)| < |v| || (u == v && AlreadyArchived(u, sec))
    ensures |EndLine(ArchiveOne(u, sec))| < |EndLine(EndLine(v) + sec.body)|
  {
  }

  lemma {:induction false} SkippingShortens(base: string, sections: seq<Section>)
    requires !NoneSkipped(base, sections) && forall i | 0 <= i < |sections| :: sections[i].body != ""
    ensures |EndLine(ArchiveAll(base, sections))| < |Appended(base, sections)|
  {
    var n := |sections| - 1;
    var init, sec := sections[..n], sections[n];
    NoneSkippedLast(base, sections);
    if NoneSkipped(base, init) {
      NoneSkippedAppends(base, init);
    } else {
      SkippingShortens(base, init);
    }
    SkipSizes(ArchiveAll(base, init), Appended(base, init), sec);
  }

  /** All sections are appended exactly if none is skipped. */
  lemma AppendsAllExact(base: string, sections: seq<Section>)
    requires forall i | 0 <= i < |sections| :: sections[i].body != ""
    ensures ArchiveAll(base, sections) == Appended(base, sections) <==> NoneSkipped(base, sections)
  {
    if NoneSkipped(base, sections) {
      NoneSkippedAppends(base, sections);
    } else {
      SkippingShortens(base, sections);
    }
  }

  lemma ContainsLonger(text: string, all: string, part: string)
    requires text <= all && Contains(text, part)
    ensures Contains(all, part)
  {
    var i :| 0 <= i <= |text| && part <= text[i..];
    assert part <= all[i..];
  }

  lemma ContainsBehind(a: string, b: string, part: string)
    requires Contains(b, part)
    ensures Contains(a + b, part)
  {
    var k :| 0 <= k <= |b| && part <= b[k..];
    assert (a + b)[|a| + k..] == b[k..];
  }

  lemma AppendOne(before: string, body: string)
    ensures var all := EndLine(EndLine(before) + body); before <= all && Contains(all, body)
  {
    var all := EndLine(EndLine(before) + body);
    assert body <= all[|EndLine(before)|..];
  }

  /** The unskipped archive starts with what was there. */
  lemma {:induction false} AppendedExtends(base: string, sections: seq<Section>)
    ensures base <= Appended(base, sections)
  {
    if sections != [] {
      var n := |sections| - 1;
      AppendedExtends(base, sections[..n]);
      AppendOne(Appended(base, sections[..n]), sections[n].body);
    }
  }

  /** The unskipped archive holds every body verbatim. */
  lemma {:induction false} AppendedHolds(base: string, sections: seq<Section>, i: nat)
    requires i < |sections|
    ensures Contains(Appended(base, sections), sections[i].body)
  {
    var n := |sections| - 1;
    var init := sections[..n];
    AppendOne(Appended(base, init), sections[n].body);
    if i < n {
      AppendedHolds(base, init, i);
      ContainsLonger(Appended(base, init), Appended(base, sections), init[i].body);
    }
  }

  /** What is appended later stays behind what was there. */
  lemma {:induction false} ArchiveExtends(base: string, sections: seq<Section>, i: nat)
    requires i <= |sections|
    ensures ArchiveAll(base, sections[..i]) <= ArchiveAll(base, sections)
  {
    var n := |sections| - 1;
    if i <= n {
      assert sections[..n][..i] == sections[..i];
      ArchiveExtends(base, sections[..n], i);
      AppendOne(ArchiveAll(base, sections[..n]), sections[n].body);
    } else {
      assert sections[..i] == sections;
    }
  }

  /** A section that is not skipped is in the archive verbatim, whatever comes before and after it. */
  lemma UnskippedReachesArchive(base: string, sections: seq<Section>, i: nat)
    requires i < |sections| && !SkippedAt(base, sections, i)
    ensures Contains(ArchiveAll(base, sections), sections[i].body)
  {
    var so, next := sections[..i], sections[..i + 1];
    assert next[..i] == so;
    AppendOne(ArchiveAll(base, so), sections[i].body);
    ArchiveExtends(base, sections, i + 1);
    ContainsLonger(ArchiveAll(base, next), ArchiveAll(base, sections), sections[i].body);
  }

  /** After its turn the archive holds a section's heading line, if the body opens with it in plain form. */
  lemma HeadingLineHeld(base: string, sections: seq<Section>, i: nat)
    requires i < |sections| && sections[i].heading != "" && "## " + sections[i].heading + "\n" <= sections[i].body
    ensures Contains(ArchiveAll(base, sections[..i + 1]), "## " + sections[i].heading + "\n")
  {
    var line, so, next := "## " + sections[i].heading + "\n", sections[..i], sections[..i + 1];
    assert next[..i] == so;
    if !SkippedAt(base, sections, i) {
      var text, body := ArchiveAll(base, next), sections[i].body;
      AppendOne(ArchiveAll(base, so), body);
      var k :| 0 <= k <= |text| && body <= text[k..];
      assert line <= text[k..];
    }
  }

  /** Of two archived sections under one plain heading the second is always skipped. */
  lemma SameHeadingSkips(base: string, sections: seq<Section>, i: nat, j: nat)
    requires i < j < |sections| && sections[i].heading == sections[j].heading != ""
    requires "## " + sections[i].heading + "\n" <= sections[i].body
    ensures SkippedAt(base, sections, j)
  {
    var line := "## " + sections[i].heading + "\n";
    HeadingLineHeld(base, sections, i);
    assert sections[..j][..i + 1] == sections[..i + 1];
    ArchiveExtends(base, sections[..j], i + 1);
    ContainsLonger(ArchiveAll(base, sections[..i + 1]), ArchiveAll(base, sections[..j]), line);
  }

  // ---- When a section is skipped ----------------------------------------------------------------------

  /** One whole line with its ending. */
  predicate FullLine(x: string) {
    |x| > 1 && x[|x| - 1] == '\n' && '\n' !in x[..|x| - 1]
  }

  lemma LineEndsInside(u: string, body: string, x: string, i: nat)
    requires FullLine(x) && i < |u| && u[|u| - 1] == '\n' && x <= (u + body)[i..]
    ensures i + |x| <= |u|
  {
    assert forall j | 0 <= j < |x| - 1 :: x[j] == x[..|x| - 1][j] != '\n';
    assert (u + body)[i..][|u| - 1 - i] == u[|u| - 1];
  }

  lemma LineJoined(u: string, body: string, x: string)
    requires FullLine(x) && u != "" && u[|u| - 1] == '\n'
    ensures Contains(u + body, x) <==> Contains(u, x) || Contains(body, x)
  {
    var all := u + body;
    if Contains(u, x) {
      ContainsLonger(u, all, x);
    }
    if Contains(body, x) {
      ContainsBehind(u, body, x);
    }
    if i :| 0 <= i <= |all| && x <= all[i..] {
      if i >= |u| {
        assert body[i - |u|..] == all[i..];
      } else {
        LineEndsInside(u, body, x, i);
        assert x <= u[i..];
      }
    }
  }

  lemma EmptyLineHolds(x: string)
    requires FullLine(x)
    ensures !Contains(EndLine(""), x)
  {
    assert EndLine("") == "\n" && |x| > 1;
  }

  lemma EndLineJoined(u: string, body: string)
    requires body != ""
    ensures EndLine(EndLine(u) + body) == EndLine(u) + EndLine(body)
  {
    if body[|body| - 1] != '\n' {
      Seqs.Assoc(EndLine(u), body, "\n");
    }
  }

  lemma LineAppended(u: string, body: string, x: string)
    requires FullLine(x)
    ensures Contains(EndLine(EndLine(u) + body), x) <==> Contains(EndLine(u), x) || Contains(EndLine(body), x)
  {
    if body == "" {
      EmptyLineHolds(x);
      assert EndLine(u) + body == EndLine(u);
    } else {
      EndLineJoined(u, body);
      LineJoined(EndLine(u), EndLine(body), x);
    }
  }

  lemma AppendedEnded(base: string, sections: seq<Section>)
    requires sections != []
    ensures EndLine(Appended(base, sections)) == Appended(base, sections)
  {
  }

  predicate SomeBodyHas(sections: seq<Section>, x: string) {
    exists k | 0 <= k < |sections| :: Contains(EndLine(sections[k].body), x)
  }

  lemma SomeBodySnoc(sections: seq<Section>, x: string)
    requires sections != []
    ensures var n := |sections| - 1;
            SomeBodyHas(sections, x) <==> SomeBodyHas(sections[..n], x) || Contains(EndLine(sections[n].body), x)
  {
    var n := |sections| - 1;
    assert forall k | 0 <= k < n :: sections[..n][k] == sections[k];
  }

  lemma {:induction false} LineInAppended(base: string, sections: seq<Section>, x: string)
    requires FullLine(x) && sections != []
    ensures Contains(Appended(base, sections), x) <==> Contains(EndLine(base), x) || SomeBodyHas(sections, x)
  {
    var n := |sections| - 1;
    LineAppended(Appended(base, sections[..n]), sections[n].body, x);
    SomeBodySnoc(sections, x);
    if n > 0 {
      LineInAppended(base, sections[..n], x);
      AppendedEnded(base, sections[..n]);
    }
  }

  /** The heading line occurs in the archive that was there or in an earlier body that is not skipped. Both count with
      a line ending added where it is missing, the archive only once something is appended to it. */
  predicate HeadingTaken(base: string, sections: seq<Section>, i: nat)
    requires i < |sections|
  {
    var line := "## " + sections[i].heading + "\n";
    || Contains(base, line)
    || exists k | 0 <= k < i && !SkippedAt(base, sections, k) ::
         Contains(EndLine(base), line) || Contains(EndLine(sections[k].body), line)
  }

  lemma EarlierAppended(base: string, sections: seq<Section>, i: nat, k: nat)
    requires k < i <= |sections| && !SkippedAt(base, sections, k)
    ensures sections[k] in Unskipped(base, sections[..i])
  {
    SkippedInPrefix(base, sections, i, k);
    assert sections[..i][k] == sections[k];
    UnskippedExact(base, sections[..i], sections[k]);
  }

  lemma AppendedEarlier(base: string, sections: seq<Section>, i: nat, sec: Section) returns (k: nat)
    requires i <= |sections| && sec in Unskipped(base, sections[..i])
    ensures k < i && !SkippedAt(base, sections, k) && sections[k] == sec
  {
    var before := sections[..i];
    UnskippedExact(base, before, sec);
    k :| 0 <= k < |before| && before[k] == sec && !SkippedAt(base, before, k);
    SkippedInPrefix(base, sections, i, k);
  }

  lemma LineTaken(base: string, sections: seq<Section>, i: nat)
    requires i < |sections| && FullLine("## " + sections[i].heading + "\n")
    ensures Contains(ArchiveAll(base, sections[..i]), "## " + sections[i].heading + "\n") <==>
            HeadingTaken(base, sections, i)
  {
    var line := "## " + sections[i].heading + "\n";
    var appended := Unskipped(base, sections[..i]);
    ArchiveIsUnskipped(base, sections[..i]);
    AppendedExtends(base, appended);
    if Contains(base, line) {
      ContainsLonger(base, Appended(base, appended), line);
    } else if appended != [] {
      LineInAppended(base, appended, line);
      var some := AppendedEarlier(base, sections, i, appended[0]);
      if j :| 0 <= j < |appended| && Contains(EndLine(appended[j].body), line) {
        var k := AppendedEarlier(base, sections, i, appended[j]);
      }
    }
    if k: nat :| k < i && !SkippedAt(base, sections, k) {
      EarlierAppended(base, sections, i, k);
    }
    if k: nat :| k < i && !SkippedAt(base, sections, k) && Contains(EndLine(sections[k].body), line) {
      EarlierAppended(base, sections, i, k);
    }
  }

  /** A section is skipped exactly if it has a title and its heading line is taken. */
  lemma SkippedExact(base: string, sections: seq<Section>, i: nat)
    requires i < |sections| && '\n' !in sections[i].heading
    ensures SkippedAt(base, sections, i) <==> sections[i].heading != "" && HeadingTaken(base, sections, i)
  {
    var line := "## " + sections[i].heading + "\n";
    assert line[..|line| - 1] == "## " + sections[i].heading;
    LineTaken(base, sections, i);
  }

  // ---- What is lost ---------------------------------------------------------------------------------

  /** A piece of one line. */
  predicate Piece(x: string) {
    x != "" && '\n' !in x
  }

  lemma PieceEndLine(u: string, x: string)
    requires Piece(x)
    ensures Contains(EndLine(u), x) <==> Contains(u, x)
  {
    if Contains(u, x) {
      ContainsLonger(u, EndLine(u), x);
    }
    if i :| 0 <= i <= |EndLine(u)| && x <= EndLine(u)[i..] {
      assert x[|x| - 1] in x && EndLine(u)[i..][|x| - 1] == EndLine(u)[i + |x| - 1];
      assert x <= u[i..];
    }
  }

  /** A piece does not reach over the end of a line. */
  lemma PieceEndsInside(u: string, body: string, x: string, i: nat)
    requires Piece(x) && i < |u| && u[|u| - 1] == '\n' && x <= (u + body)[i..]
    ensures i + |x| <= |u|
  {
    assert forall j | 0 <= j < |x| :: x[j] != '\n';
    assert (u + body)[i..][|u| - 1 - i] == u[|u| - 1];
  }

  lemma PieceJoined(u: string, body: string, x: string)
    requires Piece(x) && u != "" && u[|u| - 1] == '\n'
    ensures Contains(u + body, x) <==> Contains(u, x) || Contains(body, x)
  {
    var all := u + body;
    if Contains(u, x) {
      ContainsLonger(u, all, x);
    }
    if k :| 0 <= k <= |body| && x <= body[k..] {
      assert all[|u| + k..] == body[k..];
    }
    if i :| 0 <= i <= |all| && x <= all[i..] {
      if i >= |u| {
        assert body[i - |u|..] == all[i..];
      } else {
        PieceEndsInside(u, body, x, i);
        assert x <= u[i..];
      }
    }
  }

  lemma {:induction false} PieceAppended(base: string, sections: seq<Section>, x: string)
    requires Piece(x)
    ensures Contains(Appended(base, sections), x) <==>
            Contains(base, x) || exists i | 0 <= i < |sections| :: Contains(sections[i].body, x)
  {
    if sections != [] {
      var n := |sections| - 1;
      var u := EndLine(Appended(base, sections[..n]));
      PieceAppended(base, sections[..n], x);
      PieceEndLine(Appended(base, sections[..n]), x);
      PieceJoined(u, sections[n].body, x);
      PieceEndLine(u + sections[n].body, x);
      if i :| 0 <= i < |sections| && Contains(sections[i].body, x) {
        assert i < n ==> sections[..n][i] == sections[i];
      }
    }
  }

  /** A piece of a line is in the archive exactly if it was there before or a section that is not skipped holds it:
      what only skipped sections say is lost. */
  lemma ArchivedPieceExact(base: string, sections: seq<Section>, x: string)
    requires Piece(x)
    ensures var appended := Unskipped(base, sections);
            Contains(ArchiveAll(base, sections), x) <==>
            Contains(base, x) || exists i | 0 <= i < |appended| :: Contains(appended[i].body, x)
  {
    ArchiveIsUnskipped(base, sections);
    PieceAppended(base, Unskipped(base, sections), x);
  }

  lemma CharMissing(text: string, part: string, k: nat)
    requires k < |part| && part[k] !in text
    ensures !Contains(text, part)
  {
    if i :| 0 <= i <= |text| && part <= text[i..] {
      CharAt(text, part, i, k);
    }
  }

  lemma CharAt(text: string, part: string, i: nat, k: nat)
    requires i <= |text| && k < |part| && part <= text[i..]
    ensures part[k] in text
  {
    assert text[i..][k] == text[i + k];
  }

  /** Two log entries with the same heading: the text of the second one does not reach the archive. */
  lemma SecondEntryIsLost()
    ensures var sections := [Section("A", "## A\nfirst\n"), Section("A", "## A\nsecond\n")];
            !Contains(ArchiveAll("# Archived\n\n", sections), "second")
  {
    var base, a, b := "# Archived\n\n", Section("A", "## A\nfirst\n"), Section("A", "## A\nsecond\n");
    var sections := [a, b];
    assert "## " + "A" + "\n" == "## A\n" <= a.body;
    SameHeadingSkips(base, sections, 0, 1);
    assert sections[..1] == [a] && [a][..0] == [];
    CharMissing(base, "second", 3);
    CharMissing(a.body, "second", 3);
    ArchivedPieceExact(base, sections, "second");
  }

  lemma {:induction false} RetainFrom(sections: seq<Section>, claimed: set<string>, recentN: int)
    ensures var r := Retain(sections, claimed, recentN);
            && (forall sec | sec in r.kept :: sec in sections && sec.heading !in claimed)
            && (forall sec | sec in r.archived :: sec in sections)
  {
    if sections != [] {
      var n := |sections| - 1;
      RetainFrom(sections[..n], claimed, recentN);
      assert sections == sections[..n] + [sections[n]];
    }
  }

  /** What an append of the sections to `base` leaves in the archive. */
  predicate ArchivedExactly(base: string, sections: seq<Section>, archive: string) {
    && base <= archive && archive == Appended(base, Unskipped(base, sections))
    && (archive == Appended(base, sections) <==> NoneSkipped(base, sections))
    && forall i | 0 <= i < |sections| && !SkippedAt(base, sections, i) :: Contains(archive, sections[i].body)
  }

  lemma ArchiveHolds(base: string, sections: seq<Section>)
    requires forall i | 0 <= i < |sections| :: sections[i].body != ""
    ensures ArchivedExactly(base, sections, ArchiveAll(base, sections))
  {
    ArchiveIsUnskipped(base, sections);
    AppendedExtends(base, Unskipped(base, sections));
    AppendsAllExact(base, sections);
    forall i | 0 <= i < |sections| && !SkippedAt(base, sections, i)
      ensures Contains(ArchiveAll(base, sections), sections[i].body)
    {
      UnskippedReachesArchive(base, sections, i);
    }
  }

  lemma AllStay(sections: seq<Section>, claimed: set<string>, recentN: int, kept: seq<Section>, archived: seq<Section>)
    requires KeepsNewest(sections, claimed, recentN, kept, archived)
    ensures archived == [] <==> forall i: nat | i < |sections| :: Stays(sections, claimed, recentN, i)
  {
    var goes := (i: nat) => !Stays(sections, claimed, recentN, i);
    var at: seq<nat> :| PicksAt(sections, archived, at) && forall i: nat | i < |sections| :: i in at <==> goes(i);
    if archived == [] {
      forall i: nat | i < |sections|
        ensures Stays(sections, claimed, recentN, i)
      {
        assert !goes(i);
      }
    } else {
      assert at[0] in at && goes(at[0]);
      assert !Stays(sections, claimed, recentN, at[0]);
    }
  }

  /** `after` is what an apply leaves if the log keeps `kept` and archives `archived`: the pointer is placed among the
      sections kept, and the archive gains the bodies that are not skipped, each of them verbatim. */
  ghost predicate LogMoved(files: Files, after: Files, target: Target, kept: seq<Section>, archived: seq<Section>) {
    && files.log.Some?
    && (exists placed ::
          && after.log == Some(Join(Parts(Split(files.log.value).preamble, placed)))
          && PlacedExactly(kept, placed, PointerSection(target.logRef)))
    && ArchivedExactly(ArchiveBase(files.logArchive, "log.md", target), archived, after.logArchive)
    && after == files.(log := after.log, logArchive := after.logArchive)
  }

  /** The sections that stay, by position, are kept in order and all others are archived; if every section stays,
      nothing is written. */
  ghost predicate LogApplied(files: Files, after: Files, plan: Plan, recentN: int, target: Target)
    requires files.log.Some?
  {
    var sections := Split(files.log.value).sections;
    if forall i: nat | i < |sections| :: Stays(sections, ClaimedLog(plan), recentN, i) then after == files
    else exists kept, archived ::
      && KeepsNewest(sections, ClaimedLog(plan), recentN, kept, archived)
      && LogMoved(files, after, target, kept, archived)
  }

  lemma ArchivedBodies(log: string, claimed: set<string>, recentN: int)
    ensures var archived := Retain(Split(log).sections, claimed, recentN).archived;
            forall i | 0 <= i < |archived| :: archived[i].body != ""
  {
    var sections := Split(log).sections;
    var archived := Retain(sections, claimed, recentN).archived;
    RetainFrom(sections, claimed, recentN);
    SplitWellFormed(log);
    forall i | 0 <= i < |archived|
      ensures archived[i].body != ""
    {
      assert archived[i] in archived;
      var k :| 0 <= k < |sections| && sections[k] == archived[i];
      assert IsSection(sections[k]);
    }
  }

  /** One apply on the log. */
  lemma LogConserved(files: Files, plan: Plan, recentN: int, target: Target)
    requires files.log.Some?
    ensures LogApplied(files, AppliedLog(files, plan, recentN, target), plan, recentN, target)
  {
    var sections := Split(files.log.value).sections;
    var r := Retain(sections, ClaimedLog(plan), recentN);
    RetainExact(sections, ClaimedLog(plan), recentN);
    AllStay(sections, ClaimedLog(plan), recentN, r.kept, r.archived);
    if r.archived != [] {
      PointerKeepsOthers(r.kept, PointerSection(target.logRef));
      ArchivedBodies(files.log.value, ClaimedLog(plan), recentN);
      ArchiveHolds(ArchiveBase(files.logArchive, "log.md", target), r.archived);
      assert LogMoved(files, AppliedLog(files, plan, recentN, target), target, r.kept, r.archived);
    }
  }

  // ---- The changelog -----------------------------------------------------------------------------------

  lemma {:induction false} NewEntriesHold(base: string, lines: seq<string>, i: nat)
    requires i < |lines| && !Contains(base, lines[i])
    ensures Contains(NewEntries(base, lines), lines[i])
  {
    var n := |lines| - 1;
    var before, all := NewEntries(base, lines[..n]), NewEntries(base, lines);
    if i < n {
      assert lines[..n][i] == lines[i];
      NewEntriesHold(base, lines[..n], i);
      ContainsLonger(before, all, lines[i]);
    } else {
      assert lines[n] <= all[|before|..];
    }
  }

  lemma {:induction false} NewEntriesEnd(base: string, lines: seq<string>)
    ensures var all := NewEntries(base, lines); all == "" || all[|all| - 1] == '\n'
  {
    if lines != [] {
      NewEntriesEnd(base, lines[..|lines| - 1]);
    }
  }

  lemma {:induction false} NoNewEntries(base: string, lines: seq<string>)
    requires forall i | 0 <= i < |lines| :: Contains(base, lines[i])
    ensures NewEntries(base, lines) == ""
  {
    if lines != [] {
      assert Contains(base, lines[|lines| - 1]);
      NoNewEntries(base, lines[..|lines| - 1]);
    }
  }

  /** The lines, each ended. */
  function EndedLines(lines: seq<string>): string {
    if lines == [] then [] else EndedLines(lines[..|lines| - 1]) + (lines[|lines| - 1] + "\n")
  }

  /** The old text, ended, and then exactly the lines that it does not hold, in order. */
  ghost predicate Grown(base: string, lines: seq<string>, after: string) {
    exists picked ::
      && Picks(lines, picked, (i: nat) => i < |lines| && !Contains(base, lines[i]))
      && after == EndLine(base) + EndedLines(picked)
  }

  lemma {:induction false} NewEntriesPicked(base: string, lines: seq<string>) returns (picked: seq<string>)
    ensures Picks(lines, picked, (i: nat) => i < |lines| && !Contains(base, lines[i]))
    ensures NewEntries(base, lines) == EndedLines(picked)
  {
    if lines == [] {
      picked := [];
      assert PicksAt(lines, picked, []);
    } else {
      var n := |lines| - 1;
      var init, line := lines[..n], lines[n];
      var before := NewEntriesPicked(base, init);
      assert lines == init + [line];
      var chosen := (i: nat) => i < |lines| && !Contains(base, lines[i]);
      PicksSame(init, before, (i: nat) => i < |init| && !Contains(base, init[i]), chosen);
      PickOne(init, line, before, chosen);
      picked := before + if chosen(n) then [line] else [];
      if chosen(n) {
        assert picked[..|before|] == before;
      } else {
        assert EndedLines(before) + [] == EndedLines(before) && before + [] == before;
      }
    }
  }

  lemma ChangelogExact(existing: Option<string>, lines: seq<string>)
    ensures Grown(ChangelogBase(existing), lines, Changelog(existing, lines))
  {
    var picked := NewEntriesPicked(ChangelogBase(existing), lines);
  }

  /** The new changelog starts with the old one and holds every line. */
  lemma ChangelogHolds(existing: Option<string>, lines: seq<string>)
    ensures ChangelogBase(existing) <= Changelog(existing, lines)
    ensures forall i | 0 <= i < |lines| :: Contains(Changelog(existing, lines), lines[i])
  {
    var base, more := ChangelogBase(existing), NewEntries(ChangelogBase(existing), lines);
    forall i | 0 <= i < |lines|
      ensures Contains(EndLine(base) + more, lines[i])
    {
      if Contains(base, lines[i]) {
        ContainsLonger(base, EndLine(base) + more, lines[i]);
      } else {
        NewEntriesHold(base, lines, i);
        ContainsBehind(EndLine(base), more, lines[i]);
      }
    }
  }

  /** Appending the same lines again changes nothing. */
  lemma ChangelogTwice(existing: Option<string>, lines: seq<string>)
    ensures var once := Changelog(existing, lines); Changelog(Some(once), lines) == once
  {
    var once := Changelog(existing, lines);
    ChangelogHolds(existing, lines);
    NewEntriesEnd(ChangelogBase(existing), lines);
    NoNewEntries(once, lines);
    assert EndLine(once) + "" == once;
  }
}
