/** Executing a prune plan on the tracked files and the archive (prune.py). */
module PruneApply {
  import opened MdSections
  import opened Prune
  import opened Text
  import opened Wrappers
  import Seqs

  /** The files one apply may touch; an archive that does not exist yet is empty. */
  datatype Files = Files(log: Option<string>, backlog: Option<string>, logArchive: string, backlogArchive: string,
                         changelog: Option<string>)

  /** What the archive headers and the pointer mention. */
  datatype Target = Target(repo: string, cutoff: string, logRef: string)

  // ---- The pointer section ------------------------------------------------------------------

  const ARCHIVED := "Archived"

  function PointerText(ref: string): string {
    LINE_PREFIX + " `" + ref + "`_"
  }

  function PointerSection(ref: string): Section {
    Section(ARCHIVED, "## Archived\n\n" + PointerText(ref) + "\n\n")
  }

  function FirstWith(lines: seq<string>, part: string): string {
    if lines == [] then "" else if Contains(lines[0], part) then lines[0] else FirstWith(lines[1..], part)
  }

  function SkipNewlines(s: string): string {
    if s != [] && s[0] == '\n' then SkipNewlines(s[1..]) else s
  }

  /** `_merge_pointer_into`: the pointer line goes under the heading, the prose stays. */
  function MergePointer(sec: Section, pointer: Section): Section {
    var lines := SplitLines(sec.body);
    var headingLine := if lines == [] then "## " + sec.heading + "\n" else lines[0];
    var remainder := DropNewlines(SkipNewlines(if lines == [] then [] else Flat(lines[1..])));
    var body := headingLine + "\n" + FirstWith(SplitLines(pointer.body), LINE_PREFIX)
                + if remainder == [] then [] else "\n" + remainder + "\n";
    Section(sec.heading, DropNewlines(body) + "\n\n")
  }

  /** A back-quote with the start of an absolute path behind it. */
  predicate AbsoluteRefAt(s: string, i: nat) {
    && i + 1 < |s| && s[i] == '`'
    && (s[i + 1] == '/' || (i + 3 < |s| && s[i + 2] == ':' && s[i + 3] in {'/', '\\'}
                            && ('A' <= s[i + 1] <= 'Z' || 'a' <= s[i + 1] <= 'z')))
  }

  predicate HasAbsoluteRef(s: string) {
    exists i | 0 <= i < |s| :: AbsoluteRefAt(s, i)
  }

  /** What becomes of the first section under the pointer's heading. */
  function Repaired(sec: Section, pointer: Section): Section {
    if !Contains(sec.body, LINE_PREFIX) then MergePointer(sec, pointer)
    else if HasAbsoluteRef(sec.body) then pointer
    else sec
  }

  /** `_ensure_pointer`: repair the pointer section in place, or append one. */
  function EnsurePointer(sections: seq<Section>, pointer: Section): seq<Section> {
    if sections == [] then [pointer]
    else if sections[0].heading == pointer.heading then [Repaired(sections[0], pointer)] + sections[1..]
    else [sections[0]] + EnsurePointer(sections[1..], pointer)
  }

  lemma {:induction false} EnsurePointerSkips(before: seq<Section>, rest: seq<Section>, pointer: Section)
    requires forall i | 0 <= i < |before| :: before[i].heading != pointer.heading
    ensures EnsurePointer(before + rest, pointer) == before + EnsurePointer(rest, pointer)
  {
    if before == [] {
      assert before + rest == rest;
    } else {
      assert (before + rest)[1..] == before[1..] + rest;
      assert before[0].heading != pointer.heading;
      EnsurePointerSkips(before[1..], rest, pointer);
      Seqs.Assoc([before[0]], before[1..], EnsurePointer(rest, pointer));
      assert [before[0]] + before[1..] == before;
    }
  }

  lemma EnsurePointerAt(sections: seq<Section>, i: nat, pointer: Section)
    requires i < |sections| && sections[i].heading == pointer.heading
    requires forall k | 0 <= k < i :: sections[k].heading != pointer.heading
    ensures EnsurePointer(sections, pointer) == sections[..i] + [Repaired(sections[i], pointer)] + sections[i + 1..]
  {
    assert sections == sections[..i] + sections[i..];
    EnsurePointerSkips(sections[..i], sections[i..], pointer);
    assert sections[i..][1..] == sections[i + 1..];
    Seqs.Assoc(sections[..i], [Repaired(sections[i], pointer)], sections[i + 1..]);
  }

  method PlacePointer(sections: seq<Section>, pointer: Section) returns (placed: seq<Section>)
    ensures placed == EnsurePointer(sections, pointer)
  {
    for i := 0 to |sections|
      invariant forall k | 0 <= k < i :: sections[k].heading != pointer.heading
    {
      var sec := sections[i];
      if sec.heading != pointer.heading {
        continue;
      }
      EnsurePointerAt(sections, i, pointer);
      if !Contains(sec.body, LINE_PREFIX) {
        return sections[..i] + [MergePointer(sec, pointer)] + sections[i + 1..];
      }
      if HasAbsoluteRef(sec.body) {
        return sections[..i] + [pointer] + sections[i + 1..];
      }
      assert sections == sections[..i] + [sec] + sections[i + 1..];
      return sections;
    }
    EnsurePointerSkips(sections, [], pointer);
    assert sections + [] == sections;
    return sections + [pointer];
  }

  // ---- The archive -----------------------------------------------------------------------------

  function EndLine(s: string): string {
    if s != [] && s[|s| - 1] == '\n' then s else s + "\n"
  }

  predicate AlreadyArchived(text: string, sec: Section) {
    sec.heading != "" && Contains(text, "## " + sec.heading + "\n")
  }

  function ArchiveOne(text: string, sec: Section): string {
    if AlreadyArchived(text, sec) then text else EndLine(EndLine(text) + sec.body)
  }

  function ArchiveAll(text: string, sections: seq<Section>): string {
    if sections == [] then text
    else ArchiveOne(ArchiveAll(text, sections[..|sections| - 1]), sections[|sections| - 1])
  }

  function ArchiveHeader(source: string, target: Target): string {
    "# Archived `" + source + "` \U{2014} " + target.repo + " (cutoff " + target.cutoff + ")\n\n"
  }

  /** The archive text that sections are appended to. */
  function ArchiveBase(existing: string, source: string, target: Target): string {
    if existing == "" then ArchiveHeader(source, target) else existing
  }

  method AppendSection(before: string, sec: Section) returns (text: string)
    ensures text == ArchiveOne(before, sec)
  {
    text := before;
    if AlreadyArchived(text, sec) {
      return;
    }
    if text == [] || text[|text| - 1] != '\n' {
      text := text + "\n";
    }
    text := text + sec.body;
    if text == [] || text[|text| - 1] != '\n' {
      text := text + "\n";
    }
  }

  /** `_append_archive`. */
  method AppendArchive(existing: string, source: string, target: Target, sections: seq<Section>) returns (text: string)
    ensures text == ArchiveAll(ArchiveBase(existing, source, target), sections)
  {
    text := existing;
    if existing == "" {
      text := ArchiveHeader(source, target);
    }
    ghost var base := text;
    for i := 0 to |sections|
      invariant text == ArchiveAll(base, sections[..i])
    {
      assert sections[..i + 1][..i] == sections[..i];
      text := AppendSection(text, sections[i]);
    }
    assert sections[..|sections|] == sections;
  }

  // ---- Changelog and backlog -------------------------------------------------------------------

  function NewEntries(base: string, lines: seq<string>): string {
    if lines == [] then []
    else
      NewEntries(base, lines[..|lines| - 1])
      + if Contains(base, lines[|lines| - 1]) then [] else lines[|lines| - 1] + "\n"
  }

  function ChangelogBase(existing: Option<string>): string {
    if existing.Some? then existing.value else "# Changelog\n"
  }

  /** The changelog with the lines it does not hold yet. */
  function Changelog(existing: Option<string>, lines: seq<string>): string {
    EndLine(ChangelogBase(existing)) + NewEntries(ChangelogBase(existing), lines)
  }

  /** `_append_changelog`: entries already in the file are not repeated. */
  method AppendChangelog(existing: Option<string>, lines: seq<string>) returns (body: string)
    ensures body == Changelog(existing, lines)
  {
    var base := ChangelogBase(existing);
    body := base;
    if base == [] || base[|base| - 1] != '\n' {
      body := body + "\n";
    }
    ghost var start := body;
    for i := 0 to |lines|
      invariant body == start + NewEntries(base, lines[..i])
    {
      assert lines[..i + 1][..i] == lines[..i];
      if Contains(base, lines[i]) {
        continue;
      }
      Seqs.Assoc(start, NewEntries(base, lines[..i]), lines[i] + "\n");
      body := body + (lines[i] + "\n");
    }
    assert lines[..|lines|] == lines;
  }

  /** What a completed backlog section is reduced to. */
  function Emptied(heading: string): Section {
    Section(heading, "## " + heading + "\n\n" + ARCHIVED_MARKER + "\n\n")
  }

  function CloseCompleted(sections: seq<Section>): seq<Section> {
    seq(|sections|, i requires 0 <= i < |sections| =>
      if Completed(sections[i]) then Emptied(sections[i].heading) else sections[i])
  }

  function CompletedOf(sections: seq<Section>): seq<Section> {
    if sections == [] then []
    else
      CompletedOf(sections[..|sections| - 1])
      + if Completed(sections[|sections| - 1]) then [sections[|sections| - 1]] else []
  }

  // ---- Apply -------------------------------------------------------------------------------------

  function ClaimedLog(plan: Plan): set<string> {
    set m | m in plan.moves && m.source == Log :: m.heading
  }

  function AppliedLog(files: Files, plan: Plan, recentN: int, target: Target): Files {
    if files.log.None? then files
    else
      var parts := Split(files.log.value);
      var r := Retain(parts.sections, ClaimedLog(plan), recentN);
      if r.archived == [] then files
      else files.(
           log := Some(Join(Parts(parts.preamble, EnsurePointer(r.kept, PointerSection(target.logRef))))),
           logArchive := ArchiveAll(ArchiveBase(files.logArchive, "log.md", target), r.archived))
  }

  function AppliedBacklog(files: Files, plan: Plan, target: Target): Files {
    if files.backlog.None? || (forall m | m in plan.moves :: m.source != Backlog) then files
    else
      var parts := Split(files.backlog.value);
      var archived := CompletedOf(parts.sections);
      if archived == [] then files
      else files.(
           backlog := Some(Join(Parts(parts.preamble, CloseCompleted(parts.sections)))),
           backlogArchive := ArchiveAll(ArchiveBase(files.backlogArchive, "backlog.md", target), archived))
  }

  function AppliedChangelog(files: Files, plan: Plan): Files {
    if plan.changelog == [] then files
    else files.(changelog := Some(Changelog(files.changelog, plan.changelog)))
  }

  /** The retained tracked files go through the redactor; the archive never does. */
  function Scrubbed(files: Files, scrub: string -> string): Files {
    files.(log := if files.log.Some? then Some(scrub(files.log.value)) else None,
           backlog := if files.backlog.Some? then Some(scrub(files.backlog.value)) else None)
  }

  /** The files as the plan's moves leave them, before the scrub. */
  function Written(files: Files, plan: Plan, recentN: int, target: Target): Files {
    if plan.IsNoop() then files
    else AppliedChangelog(AppliedBacklog(AppliedLog(files, plan, recentN, target), plan, target), plan)
  }

  /** `apply_plan`. For a private repository and for an empty vocabulary `scrub` is the identity. */
  function Applied(files: Files, plan: Plan, recentN: int, target: Target, scrub: string -> string): Files {
    Scrubbed(Written(files, plan, recentN, target), scrub)
  }

  /** One repository's console files and private archive. */
  class Console {
    var log: Option<string>
    var backlog: Option<string>
    var logArchive: string
    var backlogArchive: string
    var changelog: Option<string>

    constructor (files: Files)
      ensures Contents() == files
    {
      log, backlog, logArchive, backlogArchive, changelog :=
        files.log, files.backlog, files.logArchive, files.backlogArchive, files.changelog;
    }

    function Contents(): Files
      reads this
    {
      Files(log, backlog, logArchive, backlogArchive, changelog)
    }

    /** `apply_plan`: the plan's own recent_n unless one is passed. */
    method ApplyPlan(plan: Plan, override: Option<int>, target: Target, scrub: string -> string)
      modifies this
      ensures Contents() == Applied(old(Contents()), plan, if override.Some? then override.value else plan.recentN,
                                    target, scrub)
    {
      var recentN := if override.Some? then override.value else plan.recentN;
      if !plan.IsNoop() {
        MoveLog(plan, recentN, target);
        MoveBacklog(plan, target);
        if plan.changelog != [] {
          var body := AppendChangelog(changelog, plan.changelog);
          changelog := Some(body);
        }
      }
      if log.Some? {
        log := Some(scrub(log.value));
      }
      if backlog.Some? {
        backlog := Some(scrub(backlog.value));
      }
    }

    method MoveLog(plan: Plan, recentN: int, target: Target)
      modifies this
      ensures Contents() == AppliedLog(old(Contents()), plan, recentN, target)
    {
      if log.Some? {
        var parts := SplitSections(log.value);
        var claimed := set m | m in plan.moves && m.source == Log :: m.heading;
        var kept, archived := RetainRecentLog(parts.sections, claimed, recentN);
        if archived != [] {
          logArchive := AppendArchive(logArchive, "log.md", target, archived);
          kept := PlacePointer(kept, PointerSection(target.logRef));
          log := Some(Join(Parts(parts.preamble, kept)));
        }
      }
    }

    method MoveBacklog(plan: Plan, target: Target)
      modifies this
      ensures Contents() == AppliedBacklog(old(Contents()), plan, target)
    {
      if backlog.Some? && exists m | m in plan.moves :: m.source == Backlog {
        var parts := SplitSections(backlog.value);
        var kept, archived := CloseSections(parts.sections);
        if archived != [] {
          backlogArchive := AppendArchive(backlogArchive, "backlog.md", target, archived);
          backlog := Some(Join(Parts(parts.preamble, kept)));
        }
      }
    }
  }

  /** The backlog loop of `apply_plan`. */
  method CloseSections(sections: seq<Section>) returns (kept: seq<Section>, archived: seq<Section>)
    ensures kept == CloseCompleted(sections) && archived == CompletedOf(sections)
  {
    kept, archived := [], [];
    for i := 0 to |sections|
      invariant kept == CloseCompleted(sections[..i]) && archived == CompletedOf(sections[..i])
    {
      var sec := sections[i];
      CloseStep(sections, i);
      if Completed(sec) {
        archived := archived + [sec];
        kept := kept + [Emptied(sec.heading)];
      } else {
        kept := kept + [sec];
      }
    }
    assert sections[..|sections|] == sections;
  }

  lemma CloseStep(sections: seq<Section>, i: nat)
    requires i < |sections|
    ensures CloseCompleted(sections[..i + 1]) ==
            CloseCompleted(sections[..i])
            + [if Completed(sections[i]) then Emptied(sections[i].heading) else sections[i]]
    ensures CompletedOf(sections[..i + 1]) ==
            CompletedOf(sections[..i]) + if Completed(sections[i]) then [sections[i]] else []
  {
    assert sections[..i + 1][..i] == sections[..i];
  }
}
