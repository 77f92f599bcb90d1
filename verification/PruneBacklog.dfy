/** What one apply makes of the backlog and its archive (prune.py). */
module PruneBacklog {
  import opened MdSections
  import opened Positions
  import opened Prune
  import opened PruneApply
  import opened PruneIdempotence
  import opened PruneTheorems
  import opened Text
  import opened Wrappers
  import Seqs

  lemma {:induction false} CompletedOfExact(sections: seq<Section>, sec: Section)
    ensures sec in CompletedOf(sections) <==> sec in sections && Completed(sec)
  {
    if sections != [] {
      var n := |sections| - 1;
      CompletedOfExact(sections[..n], sec);
      assert sections == sections[..n] + [sections[n]];
    }
  }

  predicate HasBacklogMove(plan: Plan) {
    exists m | m in plan.moves :: m.source == Backlog
  }

  /** A titled entry not emptied yet: under the heading `done`, or with a ticked box and not under a running one. */
  predicate IsFinished(sec: Section) {
    var title := Lower(Strip(sec.heading));
    && sec.heading != "" && !Contains(sec.body, "_Completed items archived._")
    && (title == "done" || "done " <= title
        || (Contains(Lower(sec.body), "[x]") && title != "in progress" && title != "up next" && title != "recent"))
  }

  lemma CompletedIsFinished(sec: Section)
    ensures Completed(sec) <==> IsFinished(sec)
  {
    var title := Lower(Strip(sec.heading));
    if title in {"in progress", "up next", "recent"} {
      assert title[0] in {'i', 'u', 'r'};
      assert "done"[0] == 'd' && "done "[0] == 'd';
    }
  }

  /** The completed sections, by position. */
  lemma {:induction false} CompletedPicked(sections: seq<Section>)
    ensures Picks(sections, CompletedOf(sections), (i: nat) => i < |sections| && Completed(sections[i]))
  {
    if sections == [] {
      assert PicksAt(sections, [], []);
    } else {
      var n := |sections| - 1;
      CompletedPicked(sections[..n]);
      assert sections == sections[..n] + [sections[n]];
      var completed := (i: nat) => i < |sections| && Completed(sections[i]);
      PicksSame(sections[..n], CompletedOf(sections[..n]),
                (i: nat) => i < |sections[..n]| && Completed(sections[..n][i]), completed);
      PickOne(sections[..n], sections[n], CompletedOf(sections[..n]), completed);
    }
  }

  /** The backlog keeps its sections in place, the open ones verbatim and each completed one emptied. */
  predicate ClosedInPlace(sections: seq<Section>, after: seq<Section>) {
    |after| == |sections| && forall i | 0 <= i < |sections| ::
      after[i] == if !IsFinished(sections[i]) then sections[i]
                  else Section(sections[i].heading,
                               "## " + sections[i].heading + "\n\n" + "_Completed items archived._" + "\n\n")
  }

  lemma ClosesInPlace(sections: seq<Section>)
    ensures ClosedInPlace(sections, CloseCompleted(sections))
  {
    forall i | 0 <= i < |sections| {
      CompletedIsFinished(sections[i]);
    }
  }

  lemma CompletedBodies(backlog: string)
    ensures var archived := CompletedOf(Split(backlog).sections);
            forall i | 0 <= i < |archived| :: archived[i].body != ""
  {
    var sections := Split(backlog).sections;
    var archived := CompletedOf(sections);
    SplitWellFormed(backlog);
    forall i | 0 <= i < |archived|
      ensures archived[i].body != ""
    {
      CompletedOfExact(sections, archived[i]);
      var k :| 0 <= k < |sections| && sections[k] == archived[i];
      assert IsSection(sections[k]);
    }
  }

  lemma NoneCompleted(sections: seq<Section>)
    ensures CompletedOf(sections) == [] <==> forall i: nat | i < |sections| :: !Completed(sections[i])
  {
    var archived := CompletedOf(sections);
    forall i: nat | i < |sections|
      ensures sections[i] in archived <==> Completed(sections[i])
    {
      CompletedOfExact(sections, sections[i]);
    }
    if archived != [] {
      CompletedOfExact(sections, archived[0]);
      assert archived[0] in archived;
    }
  }

  /** `after` is what an apply leaves if it archives the sections `archived` of the backlog. */
  ghost predicate BacklogMoved(files: Files, after: Files, target: Target, archived: seq<Section>) {
    && files.backlog.Some? && after.backlog.Some?
    && (var parts, left := Split(files.backlog.value), Split(after.backlog.value);
        left.preamble == parts.preamble && ClosedInPlace(parts.sections, left.sections))
    && ArchivedExactly(ArchiveBase(files.backlogArchive, "backlog.md", target), archived, after.backlogArchive)
    && after == files.(backlog := after.backlog, backlogArchive := after.backlogArchive)
  }

  lemma BacklogMoves(files: Files, plan: Plan, target: Target)
    requires files.backlog.Some? && HasBacklogMove(plan) && CompletedOf(Split(files.backlog.value).sections) != []
    ensures BacklogMoved(files, AppliedBacklog(files, plan, target), target,
                         CompletedOf(Split(files.backlog.value).sections))
  {
    var parts := Split(files.backlog.value);
    SplitWellFormed(files.backlog.value);
    ClosedOpen(parts);
    CompletedBodies(files.backlog.value);
    ClosesInPlace(parts.sections);
    ArchiveHolds(ArchiveBase(files.backlogArchive, "backlog.md", target), CompletedOf(parts.sections));
  }

  /** Read back, the backlog has the same sections, of which exactly the completed ones are emptied, and its archive
      is the old one followed by exactly the completed bodies that are not skipped; if none is completed or the plan
      moves none, nothing is written. */
  ghost predicate BacklogApplied(files: Files, after: Files, plan: Plan, target: Target)
    requires files.backlog.Some?
  {
    var sections := Split(files.backlog.value).sections;
    if (forall m | m in plan.moves :: m.source == Log) || (forall i: nat | i < |sections| :: !IsFinished(sections[i]))
    then after == files
    else exists archived ::
      && Picks(sections, archived, (i: nat) => i < |sections| && IsFinished(sections[i]))
      && BacklogMoved(files, after, target, archived)
  }

  /** One apply on the backlog. */
  lemma BacklogConserved(files: Files, plan: Plan, target: Target)
    requires files.backlog.Some?
    ensures BacklogApplied(files, AppliedBacklog(files, plan, target), plan, target)
  {
    var sections := Split(files.backlog.value).sections;
    CompletedPicked(sections);
    NoneCompleted(sections);
    forall i: nat | i < |sections| {
      CompletedIsFinished(sections[i]);
    }
    PicksSame(sections, CompletedOf(sections), (i: nat) => i < |sections| && Completed(sections[i]),
              (i: nat) => i < |sections| && IsFinished(sections[i]));
    if HasBacklogMove(plan) && CompletedOf(sections) != [] {
      BacklogMoves(files, plan, target);
    }
  }

  /** An empty plan moves nothing; any other one moves the log and then the backlog. */
  ghost predicate BothApplied(files: Files, log: Files, backlog: Files, plan: Plan, recentN: int, target: Target) {
    && (if files.log.Some? && plan.moves != [] then LogApplied(files, log, plan, recentN, target) else log == files)
    && (if log.backlog.Some? && plan.moves != [] then BacklogApplied(log, backlog, plan, target) else backlog == log)
  }

  /** The changelog gets the entries of a plan that is not empty. */
  ghost predicate ChangelogApplied(before: Option<string>, after: Option<string>, plan: Plan) {
    if plan.moves == [] || plan.changelog == [] then after == before
    else
      && after.Some? && Grown(if before.Some? then before.value else "# Changelog\n", plan.changelog, after.value)
      && forall i | 0 <= i < |plan.changelog| :: Contains(after.value, plan.changelog[i])
  }

  /** What is left of a console file, behind the redactor. */
  predicate Redacted(moved: Option<string>, after: Option<string>, scrub: string -> string) {
    if moved.None? then after == None else after == Some(scrub(moved.value))
  }

  /** One whole apply: both files are moved, the changelog gets the plan's entries, the log and the backlog left go
      through the redactor, and the archives never do. */
  lemma ApplyConserved(files: Files, plan: Plan, recentN: int, target: Target, scrub: string -> string)
    ensures exists log: Files, backlog: Files ::
              && BothApplied(files, log, backlog, plan, recentN, target)
              && var after := Applied(files, plan, recentN, target, scrub);
                 && Redacted(backlog.log, after.log, scrub) && Redacted(backlog.backlog, after.backlog, scrub)
                 && after.logArchive == backlog.logArchive && after.backlogArchive == backlog.backlogArchive
                 && ChangelogApplied(files.changelog, after.changelog, plan)
  {
    var log := if plan.moves == [] then files else AppliedLog(files, plan, recentN, target);
    var backlog := if plan.moves == [] then files else AppliedBacklog(log, plan, target);
    if files.log.Some? && plan.moves != [] {
      LogConserved(files, plan, recentN, target);
    }
    if log.backlog.Some? && plan.moves != [] {
      BacklogConserved(log, plan, target);
    }
    assert BothApplied(files, log, backlog, plan, recentN, target);
    AppliedParts(files, plan, recentN, target, scrub);
  }

  lemma AppliedParts(files: Files, plan: Plan, recentN: int, target: Target, scrub: string -> string)
    ensures var log := if plan.moves == [] then files else AppliedLog(files, plan, recentN, target);
            var backlog := if plan.moves == [] then files else AppliedBacklog(log, plan, target);
            var after := Applied(files, plan, recentN, target, scrub);
            && Redacted(backlog.log, after.log, scrub) && Redacted(backlog.backlog, after.backlog, scrub)
            && after.logArchive == backlog.logArchive && after.backlogArchive == backlog.backlogArchive
            && ChangelogApplied(files.changelog, after.changelog, plan)
  {
    ChangelogHolds(files.changelog, plan.changelog);
    ChangelogExact(files.changelog, plan.changelog);
    var log := if plan.moves == [] then files else AppliedLog(files, plan, recentN, target);
    var backlog := if plan.moves == [] then files else AppliedBacklog(log, plan, target);
    assert backlog.changelog == files.changelog;
    assert Written(files, plan, recentN, target) ==
           if plan.moves == [] then files else AppliedChangelog(backlog, plan);
  }

  // ---- A completed section whose heading is in the archive ------------------------------------------

  /** A `Done` section with one entry. */
  function DoneSection(entry: string): Section {
    Section("Done", "## Done\n" + (entry + "\n"))
  }

  lemma JoinOne(sec: Section)
    ensures Join(Parts([], [sec])) == sec.body
  {
    assert [sec][1..] == [];
    assert Bodies([sec]) == sec.body + Bodies([]);
    assert sec.body + [] == sec.body && [] + sec.body == sec.body;
  }

  lemma DoneSplits(entry: string)
    requires BreakFree(entry) && Heading(entry + "\n").None?
    ensures Split(DoneSection(entry).body) == Parts([], [DoneSection(entry)])
  {
    var sec := DoneSection(entry);
    LineThen("## Done", entry + "\n");
    SplitLinesOne(entry + "\n");
    assert "## Done" + "\n" == "## " + "Done" + "\n" == "## Done\n";
    EmptiedHeading("Done");
    assert SplitLines(sec.body)[1..] == [entry + "\n"];
    assert IsSection(sec);
    JoinOne(sec);
    SplitJoin(Parts([], [sec]));
  }

  lemma DoneCompleted(entry: string)
    requires !Contains(DoneSection(entry).body, ARCHIVED_MARKER)
    ensures Completed(DoneSection(entry))
  {
    StripStripped("Done");
    assert Lower("Done") == "done";
  }

  /** A second `Done` list, after an earlier one was archived: an apply empties the section and its entry is neither
      in the backlog nor in the archive. */
  lemma DoneEntryIsLost(entry: string, base: string, plan: Plan, target: Target)
    requires BreakFree(entry) && Heading(entry + "\n").None? && HasBacklogMove(plan)
    requires !Contains(DoneSection(entry).body, ARCHIVED_MARKER)
    requires base != "" && Contains(base, "## Done\n")
    ensures var files := Files(None, Some(DoneSection(entry).body), "", base, None);
            AppliedBacklog(files, plan, target) == files.(backlog := Some(Emptied("Done").body))
  {
    var sec := DoneSection(entry);
    DoneSplits(entry);
    DoneCompleted(entry);
    assert [sec][..0] == [];
    assert CompletedOf([sec]) == CompletedOf([]) + [sec] == [sec];
    assert "## " + "Done" + "\n" == "## Done\n";
    assert ArchiveAll(base, [sec]) == ArchiveOne(ArchiveAll(base, []), sec) == base;
    assert CloseCompleted([sec]) == [Emptied("Done")];
    JoinOne(Emptied("Done"));
  }
}
