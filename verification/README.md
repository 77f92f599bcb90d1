# ContextLifecycle: verified model

A Dafny model of the parts of ContextLifecycle that decide what is kept, moved, promoted, redacted or run, with proofs
about them. Disk becomes maps and strings, days and clock readings become integers, and git, CI, hooks and CLIs become
arbitrary inputs. Loops stay loops and objects that update their fields stay classes: each method is proved against a
specification function or states its property outright, and the theorems are lemmas about those functions, about
sequences of passes, or about whole traces.

| area | files |
|---|---|
| glob compiler and router | `Regex`, `Glob`, `Router`, `LeafRoutes` |
| knowledge-item lifecycle | `CiStatus`, `Knowledge`, `Attribution`, `AttributionApply`, `DaySets`, `Consolidate`, `Lifecycle` |
| leaf documents | `LeafDoc`, `LeafDocTheorems`, `Promotion` |
| reconcile prune | `Text`, `MdSections`, `Prune`, `PruneApply`, `PruneTheorems`, `PruneIdempotence`, `PruneBacklog`, `PruneMerge`, `PruneRedaction` |
| redaction | `Scrub` |
| session loop | `EngineTrace`, `Engine` |
| session garbage collection | `Retention` |
| stock facts | `Seqs`, `Positions`, `Wrappers`, `Ordering`, `Listings` |

Six promises do not hold on all inputs. For each of them the code is modelled as it is and the exact condition is
proved:

- **Segment reading of globs** (`Glob.CompiledMeaningExact`). Among globs whose segments are each `**` or free of `**`,
  the compiled regex means the documented segment match exactly if every `**` that opens the glob or follows another
  `**` is followed by a segment opening with `*`, or the glob consists of `**` only. `**/b` and `a/**/**/b` are outside:
  `**/b` also matches `ab` (`Glob.DoubleStarNameWidens`), and for every such glob a target that tells the two readings
  apart is constructed (`Glob.UnroutableDiffers`).
- **A prune right after a prune is a no-op** (`PruneIdempotence.PruneIdempotentExact`). With nothing to redact it fails
  exactly if the first run archived log sections, an owned done item has the keyword `archived`, which then claims the
  new `## Archived` section, and the kept log does not end in an unended line that swallows that heading.
  `PruneIdempotence.KeywordPrunesAgain` is a concrete case.
- **Scrubbing keeps a second prune a no-op** (`PruneRedaction.RedactedPruneExact`). Behind the redactor the second plan is
  empty exactly if redacting the log and the emptied backlog leaves no claimed heading and no completed section; for the
  log that is decided line by line (`PruneRedaction.RedactedFreeExact`). The placeholder itself has words: a prune that
  moves nothing turns `## acme` into a heading that an item titled `private` claims
  (`PruneRedaction.PlaceholderPrunesAgain`).
- **An annotated pointer section is left alone** (`PruneMerge.PlacedTwiceExact`). Merging the pointer keeps the prose
  (`PruneMerge.MergeKeepsProse`), but placing it again changes something exactly if the section had no pointer line and
  mentions an absolute path: the bare pointer then replaces all of it (`PruneMerge.NoteIsLost`).
- **The archive keeps every archived section.** It is the old archive followed by exactly the sections whose heading line
  it does not hold yet, each verbatim (`PruneTheorems.ArchiveIsUnskipped`), so all are appended exactly if none is
  skipped (`PruneTheorems.AppendsAllExact`). A section is skipped exactly if its heading line occurs, also at the end of
  a longer line, in the archive that was there or in an earlier appended section (`PruneTheorems.SkippedExact`). A piece
  of a line is in the archive exactly if it was there before or a section that is not skipped holds it
  (`PruneTheorems.ArchivedPieceExact`). Of two archived sections under one plain heading the second is always skipped
  (`PruneTheorems.SameHeadingSkips`), and `PruneTheorems.SecondEntryIsLost` is a concrete loss. The backlog loses text
  the same way (`PruneBacklog.DoneEntryIsLost`).
- **Redaction removes the name** (`Scrub.SubCompleteExact`). Replacing one long name removes it from every text exactly
  if the placeholder's letters cannot complete an occurrence; otherwise a text that keeps the name is constructed. The
  pruner's own placeholder keeps the name `downstream` in every text (`Scrub.PlaceholderKeepsDownstream`).

The docstring of `_glob_to_regex` gives `**` the segment reading without the first exception, and those of the prune
module call it idempotent, also behind the scrub, and never deleting, without the next four: the model follows the code.

## Model

| member | source | states |
|---|---|---|
| Glob.GlobToRegex | src/context_lifecycle/context_engine/route.py:66-107 | the index-driven pass emits exactly the compiled form of the glob, one turn per construct |
| Glob.CompiledMeaningExact | src/context_lifecycle/context_engine/route.py:66-107 | for a glob with segments free of inner `**`, the regex agrees with segment-wise path matching on all newline-free targets if and only if the glob is routable |
| Glob.RoutableAgrees | src/context_lifecycle/context_engine/route.py:66-107 | a routable glob matches a target exactly when the target's segments match the glob's, `**` taking zero or more segments and `*` staying inside one |
| Glob.UnroutableDiffers | src/context_lifecycle/context_engine/route.py:86-100 | every unroutable glob has a target on which regex and segment reading differ |
| Glob.CompiledReadsExact | src/context_lifecycle/context_engine/route.py:66-107 | for every glob, also one with `**` inside a segment, and every newline-free target: the regex matches exactly if the target can be read along the glob from left to right, `/**/` taking what begins and ends with a slash, `/**` nothing or what begins with a slash, another `**` anything, `*` anything without a slash |
| Glob.DoubleStarNameWidens | src/context_lifecycle/context_engine/route.py:93-100 | `**/b` is not routable: its regex matches `ab`, whose one segment is not `b` |
| Router.SelectDocsSplit | src/context_lifecycle/context_engine/route.py:194-226 | kept followed by dropped lists exactly the docs of the routes whose compiled glob matches the path without one leading `./`, each once, by the smallest priority of those routes, ties by the position of the first such route and the place in its list; the cap cuts a prefix only when positive |
| Router.SelectDocs | src/context_lifecycle/context_engine/route.py:183-191 | returns that list of the docs of the matching routes, cut to the cap only when it is positive |
| Router.RankingUnique | src/context_lifecycle/context_engine/route.py:194-226 | the routes and the path leave only one list that is ranked so |
| Router.SelectionUnique | src/context_lifecycle/context_engine/route.py:194-226 | the offers of the matching routes determine the selection |
| LeafRoutes.AddRoute | src/context_lifecycle/context_engine/distill.py:149-182 | entries whose glob already injects their doc are skipped, the others appended in order |
| LeafRoutes.AddKeepsAndRegisters | src/context_lifecycle/context_engine/distill.py:149-182 | existing routes stay in place and every entry is registered afterwards |
| LeafRoutes.AddsOnlyEntries | src/context_lifecycle/context_engine/distill.py:149-182 | every route that is new is one of the entries, and no route had injected its doc under its glob before |
| LeafRoutes.AddTwice | src/context_lifecycle/context_engine/distill.py:149-182 | adding the same entries again changes nothing |
| LeafRoutes.LoadedPicked | src/context_lifecycle/context_engine/route.py:137-181 | the routes loaded are exactly the entries with a glob and docs, in the order of the file |
| LeafRoutes.PromotedIsRouted | src/context_lifecycle/context_engine/distill.py:88-94 | after a promotion every selection for a path one of the item's globs matches lists its leaf doc |
| LeafRoutes.RegisteredIsRouted | src/context_lifecycle/context_engine/distill.py:149-182 | every selection for a path that a registered glob matches lists the doc registered for it |
| LeafDoc.ExtractInject | src/context_lifecycle/context_engine/route.py:234-253 | the loop returns the stripped lines under Inject headings, and the sentinel for an unreadable file |
| LeafDoc.SectionTail | src/context_lifecycle/context_engine/distill.py:128-146 | the loop returns the stripped lines of all other sections |
| LeafDoc.WriteLeafDoc | src/context_lifecycle/context_engine/distill.py:97-125 | the new text is the Inject section with the bullets found plus the bullet if absent, then the other sections |
| LeafDocTheorems.RewriteRoundTrips | src/context_lifecycle/context_engine/distill.py:97-146 | reading back gives the old bullets in order plus the new one exactly if it was absent, and the other sections unchanged |
| LeafDocTheorems.RewriteKeepsLines | src/context_lifecycle/context_engine/distill.py:97-146 | line by line and by position: the lines below Inject headings in the new text are those of the old text plus the bullet exactly if it was not among them, and the lines of all other sections are the same, in order; blank lines and the space at the edges of a line aside |
| LeafDocTheorems.StoredItemRoundTrips | src/context_lifecycle/context_engine/distill.py:97-146 | for every finding a stored item can have: the old bullets in order plus this one exactly if it was absent, the other sections unchanged, and a second write of it changes nothing |
| LeafDocTheorems.FindingIsTight | src/context_lifecycle/context_engine/cold.py:121-125 | a finding read from an item has no line break and its bullet has no space at its end |
| LeafDocTheorems.RewriteIsStable | src/context_lifecycle/context_engine/distill.py:97-125 | writing the same bullet again gives the same text if and only if it was present or has no space at its end |
| LeafDocTheorems.TrailingSpaceRewrites | src/context_lifecycle/context_engine/distill.py:97-125 | a bare bullet with space at its end, which no stored item has, is written differently the second time |
| Promotion.Workspace.Materialize | src/context_lifecycle/context_engine/distill.py:185-196 | the item's bullet is written to its leaf document and one route is added for each of its globs |
| Promotion.LeafPathIsFlat | src/context_lifecycle/context_engine/distill.py:69-75 | the leaf document lies directly in docs/inject under the stripped topic, else slug, with every slash and nothing else turned into a dash |
| Promotion.BatchIsDelivered | src/context_lifecycle/context_engine/distill.py:185-201 | after any batch of promotions, also several into one document, the bullet of every promoted item reads back from its leaf document and each of its globs injects that document |
| Promotion.BatchKeepsRest | src/context_lifecycle/context_engine/distill.py:97-182 | a batch leaves every other document as it was, each document it extends keeps its bullets in front and its other sections, routes stay in place, and each new route is for a glob of a promoted item and its leaf document |
| Promotion.DeliveredIsSelected | src/context_lifecycle/context_engine/distill.py:88-94 | every selection for a path that one of a delivered item's globs matches lists its leaf document |
| CiStatus.LatestByName | src/context_lifecycle/context_engine/ci_status.py:131-143 | keeps for each name the run with the highest positive id, the first one on a tie, and nothing else |
| CiStatus.Rollup | src/context_lifecycle/context_engine/ci_status.py:146-188 | False if a run that counts fails, True if some count and all pass, unknown otherwise; the audit set is what those runs observed |
| CiStatus.VerdictByTops | src/context_lifecycle/context_engine/ci_status.py:146-188 | with ids that identify runs, over the runs with the highest positive id per name: False exactly if one completed with failure, timed_out, cancelled, action_required or stale, True exactly if there are some and all completed with success, neutral or skipped |
| CiStatus.VerdictOrderFree | src/context_lifecycle/context_engine/ci_status.py:131-188 | the verdict is the same for every permutation of the runs |
| Attribution.EarliestInjections | src/context_lifecycle/context_engine/attribution.py:248-280 | maps exactly the recorded slugs to the smallest readable time in the ledger |
| Attribution.MatchesAnyGlob | src/context_lifecycle/context_engine/attribution.py:283-294 | true exactly if some changed file matches some glob under the router's matcher |
| Attribution.WalkCiting | src/context_lifecycle/context_engine/attribution.py:391-433 | the walk stops at the first citing commit that links and records why each earlier one does not |
| Attribution.PlanAttribution | src/context_lifecycle/context_engine/attribution.py:302-446 | the loops compute the plan that the following rows characterise |
| Attribution.PlannedIsFirstProof | src/context_lifecycle/context_engine/attribution.py:352-440 | each planned commit is the least by author date and sha of the commits that cite the item, come no earlier than its injection and touch its paths |
| Attribution.PlannedIffLinked | src/context_lifecycle/context_engine/attribution.py:383-440 | a candidate is planned exactly if some commit meets the full link predicate |
| Attribution.UnplannedIffExplained | src/context_lifecycle/context_engine/attribution.py:336-440 | with shas that identify commits, a candidate is unplanned exactly if a rejection of the slug as such, or one for every commit that cites it, is recorded |
| Attribution.RejectionsExact | src/context_lifecycle/context_engine/attribution.py:336-433 | with shas that identify commits, a rejection is in the plan exactly if its reason holds: each of the eight reasons is spelled out for its slug, and for a citing commit that comes before every linking one: unreadable date, authored before the injection, or else no overlap |
| Attribution.PlanOrderFree | src/context_lifecycle/context_engine/attribution.py:352-361 | with shas that identify commits the attributions are the same for every order of the commit list |
| AttributionApply.KnowledgeBase.ReadPendingFlips | src/context_lifecycle/context_engine/attribution_apply.py:238-257 | lists the cold items with a real sha and an unknown CI value, in name order |
| AttributionApply.KnowledgeBase.ApplyAttribution | src/context_lifecycle/context_engine/attribution_apply.py:265-374 | the store after both phases, and what was applied, flipped and skipped |
| AttributionApply.KnowledgeBase.WritePlanned | src/context_lifecycle/context_engine/attribution_apply.py:294-325 | Phase A: the store after every planned write with its re-checks, and the writes and skips it reports |
| AttributionApply.KnowledgeBase.FlipPending | src/context_lifecycle/context_engine/attribution_apply.py:327-369 | Phase B: the store after every flip with its re-checks, and the flips and skips it reports |
| AttributionApply.PhaseAItems | src/context_lifecycle/context_engine/attribution_apply.py:294-325 | item by item: only a cold item without a real sha is written, with the commit planned for it; all other fields stay |
| AttributionApply.PhaseAReports | src/context_lifecycle/context_engine/attribution_apply.py:294-325 | each planned slug is reported as written with its commit and CI value, or as skipped because the item is missing, not cold or attributed, as the store before tells |
| AttributionApply.PhaseBItems | src/context_lifecycle/context_engine/attribution_apply.py:327-369 | item by item: only an attributed cold item with an unknown CI value changes, to a literal True or False |
| AttributionApply.PhaseBReports | src/context_lifecycle/context_engine/attribution_apply.py:327-369 | each pending item is reported as flipped to the verdict for its commit, or as skipped because CI has none |
| Consolidate.GatePromotions | src/context_lifecycle/context_engine/consolidate.py:160-205 | eligible is exactly cold with a real sha and a literal True; every other cold item is rejected for exactly the reason that holds: no commit, not a sha, or the CI value |
| Consolidate.StaleIsCounting | src/context_lifecycle/context_engine/consolidate.py:246-295 | an item is stale exactly if at least min(max(1, threshold), number of starts) campaign starts are later than its last injection |
| Consolidate.StaleExact | src/context_lifecycle/context_engine/consolidate.py:246-295 | stale: never injected; or injected before enough campaign starts; with no readable start, before the current campaign; never with a date of injection that cannot be read |
| Consolidate.StaleIsMonotone | src/context_lifecycle/context_engine/consolidate.py:246-295 | raising the threshold never makes a fresh item stale |
| Consolidate.DecayWarm | src/context_lifecycle/context_engine/consolidate.py:298-348 | decays exactly the stale unpinned items that are not cold; pinned and fresh ones are kept |
| Consolidate.DeriveCampaignStarts | src/context_lifecycle/context_engine/consolidate.py:499-522 | the days on which some campaign has its earliest readable creation day, and that of the current campaign, each once and in order |
| Consolidate.ApplyPromotions | src/context_lifecycle/context_engine/consolidate.py:467-475 | exactly the promoted items become warm with today's date, every other item and field stays, and the leaf documents and routes are those of the promotions in turn |
| Consolidate.ApplyDecays | src/context_lifecycle/context_engine/consolidate.py:476-487 | each listed item goes down one tier, warm to cold and hot to warm; every other item and field stays |
| Consolidate.ConsolidationPass | src/context_lifecycle/context_engine/consolidate.py:356-496 | item by item after attribution: an eligible cold item in scope ends warm with today's date; an unpinned warm or hot item that was never injected, or not since min(max(1, threshold), all) of the campaign starts, ends exactly one tier lower; every other item is unchanged; every promoted item is delivered, and the batch leaves all else in documents and routes alone |
| Consolidate.SettleExact | src/context_lifecycle/context_engine/consolidate.py:246-348 | promotion, else decay, of one item as that row spells it, with an unreadable date of injection never decaying |
| Lifecycle.PromotedMeansProved | src/context_lifecycle/context_engine/consolidate.py:160-205 | in every run from a store without attributions an item that turns warm carries a commit that some pass linked by the full predicate, with an injection of that item recorded no later than the commit, and that some pass saw with every check run passing |
| Lifecycle.AllBacked | src/context_lifecycle/context_engine/attribution_apply.py:294-369 | in every such run whatever an item says about a commit was established by an earlier pass |
| Lifecycle.WriteOnce | src/context_lifecycle/context_engine/attribution_apply.py:294-369 | over every sequence of passes, seals, usage records and single writer phases with lists that may be out of date, a real sha stays forever, the CI value changes at most once and only from unknown, items never vanish and a pinned warm or hot item keeps its tier |
| Lifecycle.WriteKeeps | src/context_lifecycle/context_engine/attribution_apply.py:294-325 | Phase A with any planned list keeps what every item already claims |
| Lifecycle.FlipKeeps | src/context_lifecycle/context_engine/attribution_apply.py:327-369 | Phase B with any worklist keeps what every item already claims |
| Lifecycle.AttributionKeepsItems | src/context_lifecycle/context_engine/attribution_apply.py:265-374 | one attribution pass changes only the two evidence fields, and only backed by a linking commit and a CI query of that pass |
| Lifecycle.AttributionExact | src/context_lifecycle/context_engine/attribution_apply.py:265-374 | what a pass makes of one item: the commit that first proves it and CI's word on it, or nothing, and then, if cold and still unknown, CI's verdict on its commit as of now |
| Lifecycle.PassKeepsEvidence | src/context_lifecycle/context_engine/consolidate.py:390-487 | promotion and decay leave the evidence alone, and only an eligible cold item gets warm |
| Scrub.Redact | src/context_lifecycle/reconcile/scrub.py:62-67 | one text after each name, in order: of the matches of its pattern, whole words for names of up to three characters, the leftmost that do not overlap are replaced and every other character stays in place |
| Scrub.SubExact | src/context_lifecycle/reconcile/scrub.py:62-67 | one replacement is exactly that of the leftmost matches that do not overlap; every other match starts inside one of them |
| Scrub.Matches | src/context_lifecycle/reconcile/scrub.py:49-57 | lists exactly the names whose pattern is found, each once |
| Scrub.SubCompleteExact | src/context_lifecycle/reconcile/scrub.py:62-67 | replacing a long name removes it from every text if and only if the placeholder cannot complete it |
| Scrub.SubLeavesSome | src/context_lifecycle/reconcile/scrub.py:62-67 | otherwise a text that still holds the name after the replacement |
| Scrub.PlaceholderKeepsDownstream | src/context_lifecycle/reconcile/prune.py:356-372 | the pruner's placeholder leaves the name `downstream` in every text that holds it |
| Scrub.SubStaysClean | src/context_lifecycle/reconcile/scrub.py:62-67 | replacing another name never recreates a name that is absent and apart from the placeholder |
| Scrub.RedactionComplete | src/context_lifecycle/reconcile/scrub.py:49-67 | with names apart from the placeholder no pattern of the vocabulary, long or short, finds anything after redaction, also none replaced earlier |
| Scrub.RedactionIdempotent | src/context_lifecycle/reconcile/scrub.py:62-67 | redacting again changes nothing |
| MdSections.SplitSections | src/context_lifecycle/reconcile/mdsections.py:31-54 | the loop yields the preamble and sections of the text |
| MdSections.JoinSplit | src/context_lifecycle/reconcile/mdsections.py:31-58 | joining what was split gives the text back |
| MdSections.SplitJoin | src/context_lifecycle/reconcile/mdsections.py:31-58 | splitting what was joined gives well-formed parts back |
| MdSections.SplitWellFormed | src/context_lifecycle/reconcile/mdsections.py:31-54 | every split has heading-free bodies under their own heading lines, all but the last ended |
| Prune.BuildPlan | src/context_lifecycle/reconcile/prune.py:142-218 | the loops compute the plan: claims, trims, changelog entries and backlog moves, or a refusal |
| Prune.RetainRecentLog | src/context_lifecycle/reconcile/prune.py:221-240 | a section stays exactly if its heading is not claimed and fewer than recent_n unclaimed sections stand before it; kept and archived list their sections in order |
| Prune.RetainExact | src/context_lifecycle/reconcile/prune.py:221-240 | the same of the specification, with the number of unclaimed sections |
| Prune.ClaimSections | src/context_lifecycle/reconcile/prune.py:172-191 | the claiming loops over items and sections, with one changelog line per claiming item |
| Prune.ClaimsExact | src/context_lifecycle/reconcile/prune.py:172-185 | a section is claimed, once, exactly if some owned done item shares a keyword with its heading |
| Prune.ClaimsNameFirst | src/context_lifecycle/reconcile/prune.py:172-185 | each planned log move names the first owned item that claims its heading |
| Prune.EntriesExact | src/context_lifecycle/reconcile/prune.py:172-191 | the changelog entries are those of exactly the items that are the first to claim some section, one each, in order |
| Prune.OwnedExact | src/context_lifecycle/reconcile/prune.py:170-170 | the items planned for are exactly those with status done owned by this repository, in order |
| Prune.CompletedMovesExact | src/context_lifecycle/reconcile/prune.py:206-213 | one backlog move for exactly the completed sections, in order |
| PruneApply.PlacePointer | src/context_lifecycle/reconcile/prune.py:413-438 | the first section under the pointer's heading is kept, merged or replaced; without one the pointer is appended |
| PruneApply.AppendArchive | src/context_lifecycle/reconcile/prune.py:441-457 | the archive after appending the sections whose heading line is not in it yet |
| PruneApply.AppendChangelog | src/context_lifecycle/reconcile/prune.py:460-469 | the changelog followed by the entries it does not hold yet |
| PruneTheorems.ChangelogHolds | src/context_lifecycle/reconcile/prune.py:460-469 | the new changelog starts with the old one and holds every entry |
| PruneTheorems.ChangelogExact | src/context_lifecycle/reconcile/prune.py:460-469 | the new changelog is the old one, ended, followed by exactly the entries it does not hold, each as a line, in order |
| PruneTheorems.ChangelogTwice | src/context_lifecycle/reconcile/prune.py:460-469 | appending the same entries again changes nothing |
| PruneApply.Console.MoveLog | src/context_lifecycle/reconcile/prune.py:294-304 | the log and its archive after the move, all other files unchanged |
| PruneApply.Console.MoveBacklog | src/context_lifecycle/reconcile/prune.py:306-322 | the backlog and its archive after the move, all other files unchanged |
| PruneApply.Console.ApplyPlan | src/context_lifecycle/reconcile/prune.py:243-333 | all five files after an apply, with the plan's own limit unless one is passed |
| PruneTheorems.ClaimedLogExact | src/context_lifecycle/reconcile/prune.py:172-204 | claiming by index and claiming by heading pick the same sections: those whose heading shares with the id or title of an owned item a word of more than two characters that is no stop word |
| PruneTheorems.PreviewEqualsApply | src/context_lifecycle/reconcile/prune.py:172-240 | the sections an apply keeps are, by position, the unclaimed ones with fewer than recent_n unclaimed before them, min(recent_n, unclaimed) in number, and the headings of all others are exactly the planned log moves plus the planned trims |
| PruneTheorems.RetainInterleaves | src/context_lifecycle/reconcile/prune.py:221-240 | kept and archived sections interleave to the original log |
| PruneTheorems.PointerKeepsOthers | src/context_lifecycle/reconcile/prune.py:413-438 | exactly the first section under the pointer's heading is repaired, or the pointer is appended if there is none; every other section stays verbatim and in place |
| PruneTheorems.AppendsAllExact | src/context_lifecycle/reconcile/prune.py:441-457 | all archived sections are appended if and only if none is skipped for a heading line that the archive holds when its turn comes |
| PruneTheorems.ArchiveIsUnskipped | src/context_lifecycle/reconcile/prune.py:441-457 | the archive is the old one followed by exactly the sections that are not skipped, in order |
| PruneTheorems.UnskippedExact | src/context_lifecycle/reconcile/prune.py:448-456 | the appended sections are exactly those that are not skipped |
| PruneTheorems.SkippedExact | src/context_lifecycle/reconcile/prune.py:448-450 | a section is skipped exactly if it has a title and its heading line occurs in the archive that was there or, once a section is appended, in that archive or an earlier appended body with a line ending added where it was missing |
| PruneTheorems.UnskippedReachesArchive | src/context_lifecycle/reconcile/prune.py:448-456 | a section that is not skipped is in the archive verbatim, whatever else is skipped |
| PruneTheorems.ArchivedPieceExact | src/context_lifecycle/reconcile/prune.py:448-456 | a piece of one line is in the archive if and only if it was there before or a section that is not skipped holds it |
| PruneTheorems.SecondEntryIsLost | src/context_lifecycle/reconcile/prune.py:448-450 | a concrete pair of sections of which the second one's text is not in the archive |
| PruneTheorems.AppendedHolds | src/context_lifecycle/reconcile/prune.py:451-456 | an archive that skips nothing holds every body verbatim |
| PruneTheorems.SameHeadingSkips | src/context_lifecycle/reconcile/prune.py:448-450 | of two archived sections under one heading, the first with the plain heading line `## ` and the heading, the second is skipped |
| PruneTheorems.LogConserved | src/context_lifecycle/reconcile/prune.py:294-304 | one apply on the log: by position, the newest unclaimed sections stay, in order and verbatim but for the first one under the pointer's heading, and all others go to the archive, which is the old one followed by exactly the bodies that are not skipped; if every section stays nothing is written |
| PruneBacklog.BacklogConserved | src/context_lifecycle/reconcile/prune.py:306-353 | one apply on the backlog: read back it has the same sections in place, with exactly those emptied that have a title, no marker yet, and the title `done`, or a ticked box and no title of a running list; its archive is the old one followed by exactly their bodies that are not skipped; without a planned backlog move or such a section nothing is written |
| PruneBacklog.ApplyConserved | src/context_lifecycle/reconcile/prune.py:270-333 | one whole apply: an empty plan moves nothing, any other one moves log and backlog as the two rows above say and adds to the changelog exactly the entries it lacks; the log and the backlog left go through the redactor, the archives never do |
| PruneBacklog.DoneEntryIsLost | src/context_lifecycle/reconcile/prune.py:306-322 | when the archive already holds a `Done` heading, the entry of a completed `Done` section is in neither file afterwards |
| PruneMerge.MergeKeepsProse | src/context_lifecycle/reconcile/prune.py:395-410 | a merge yields the heading line, the pointer line and the prose without the empty lines around it |
| PruneMerge.MergedHeadings | src/context_lifecycle/reconcile/prune.py:395-410 | a merged section is still one section under its heading |
| PruneMerge.PlacedTwiceExact | src/context_lifecycle/reconcile/prune.py:413-438 | with a portable pointer, placing it again changes nothing if and only if the first section under its heading had a pointer line or mentions no absolute path |
| PruneMerge.NoteIsLost | src/context_lifecycle/reconcile/prune.py:413-438 | every note with an absolute path is kept by the prune that merges the pointer and gone after the next placement |
| PruneIdempotence.PruneIsIdempotent | src/context_lifecycle/reconcile/prune.py:142-333 | for any log, without the keyword `archived` and with a redactor that on the texts written is idempotent and puts in no claimed heading and no completed section, the second plan has no move and a second apply leaves all files identical |
| PruneIdempotence.PruneIdempotentExact | src/context_lifecycle/reconcile/prune.py:142-333 | with nothing to redact, for any log, ended or not: the second plan has moves if and only if the first archived log sections, an owned done item has the keyword `archived` and no unended last line swallows the pointer's heading; otherwise a second apply leaves all files identical |
| PruneIdempotence.EndedLogExact | src/context_lifecycle/reconcile/prune.py:142-333 | for a log that ends with a line break the keyword and an archived log section alone decide |
| PruneIdempotence.KeywordPrunesAgain | src/context_lifecycle/reconcile/prune.py:413-438 | a concrete log and item for which the second plan is not empty |
| PruneIdempotence.ReplanExact | src/context_lifecycle/reconcile/prune.py:142-218 | for any redactor the second plan is empty exactly if the files left have no claimed log heading and, if anything is owned, no completed backlog section; an empty plan writes nothing if another redaction does not |
| PruneIdempotence.NoopExact | src/context_lifecycle/reconcile/prune.py:142-218 | a plan is empty exactly if no log heading is claimed and, if anything is owned, no backlog section is completed |
| PruneIdempotence.LogAfterFree | src/context_lifecycle/reconcile/prune.py:294-304 | the log an apply leaves, before redaction, has a claimed heading exactly if sections were archived, the keyword is there and no unended line swallows the pointer's heading |
| PruneIdempotence.AppendedFree | src/context_lifecycle/reconcile/prune.py:375-379 | appending the pointer makes a claimed heading exactly with the keyword, unless an unended last line that cannot open a heading swallows it |
| PruneIdempotence.MergedFree | src/context_lifecycle/reconcile/prune.py:395-410 | merging the pointer into an annotated section makes no claimed heading |
| PruneIdempotence.ClosedOpen | src/context_lifecycle/reconcile/prune.py:306-353 | the emptied backlog splits back into the same sections, none of them completed |
| PruneRedaction.RedactedPruneExact | src/context_lifecycle/reconcile/prune.py:243-333 | behind the redactor of any vocabulary the second plan is empty if and only if redacting the log and the emptied backlog of the first one leaves no claimed heading and, if anything is owned, no completed section; with safe names it then writes nothing |
| PruneRedaction.RedactedFreeExact | src/context_lifecycle/reconcile/prune.py:356-372 | with names and placeholder free of line breaks, redaction puts a claimed heading into a text exactly where the redacted form of one of its lines is one |
| PruneRedaction.RedactedPruneByLines | src/context_lifecycle/reconcile/prune.py:243-333 | with only a log, the second plan is empty if and only if no line of what the first one keeps is a claimed heading once redacted |
| PruneRedaction.PlaceholderPrunesAgain | src/context_lifecycle/reconcile/prune.py:252-255 | a log and an item for which the first plan is empty, one safe name is redacted, and the second plan has a move |
| EngineTrace.SessionsBounded | src/context_lifecycle/pseudo_operator/engine.py:388-475 | every legal trace starts at most max_iterations times number-of-backends sessions |
| EngineTrace.StartAfter | src/context_lifecycle/pseudo_operator/engine.py:169-179 | sessions of one iteration use strictly increasing priority positions |
| EngineTrace.FallbackOnlyAfterLimits | src/context_lifecycle/pseudo_operator/engine.py:441-464 | every earlier session of a fallback's iteration ran on a backend of higher priority and ended, as the very next event, in a limit |
| EngineTrace.LimitLeadsOn | src/context_lifecycle/pseudo_operator/engine.py:420-464 | after a session that ran into a limit, primary or fallback, the same iteration refuses the positions below in turn until it starts a fallback session on one, or has refused them all; so for every settled trace |
| EngineTrace.OtherEndsClose | src/context_lifecycle/pseudo_operator/engine.py:420-464 | a session that ended otherwise is the last thing of its iteration |
| EngineTrace.SleepsUntilReset | src/context_lifecycle/pseudo_operator/engine.py:186-204 | after an iteration that has passed over every backend the next event comes only after a sleep that ends more than 119 seconds behind the earliest reset that was ahead, unless no reset was ahead or a stop cut the sleep short |
| EngineTrace.NoSessionPastTheCap | src/context_lifecycle/pseudo_operator/engine.py:425-439 | once unlimited primary failures since the last primary success reach the cap no session starts any more |
| EngineTrace.NotBeforeReset | src/context_lifecycle/pseudo_operator/engine.py:147-152 | after a limit or budget hold with reset R no primary or fallback session starts on the backend before R, unless a global limit on another claude backend moved it |
| EngineTrace.OnlyGlobalLimitsBringForward | src/context_lifecycle/pseudo_operator/engine.py:206-226 | the only event that brings a reset in force forward is a global limit on another claude backend |
| EngineTrace.PrimaryIsHighestRunnable | src/context_lifecycle/pseudo_operator/engine.py:161-167 | each backend above a primary session's was checked in that iteration and was missing or cooling down |
| Engine.PseudoOperatorEngine.Run | src/context_lifecycle/pseudo_operator/engine.py:358-482 | for whatever the hooks, the flags, the CLIs and the session logs tell, with finitely many pauses: the loop terminates with a legal, settled trace in the session bound that tells what was read; each session ends as its exit code and log say, a limit in the log of a failed one as that limit; every iteration looks at the first backend; a stop flag seen ends the loop and nothing else ends it as stopped; it ends for the failure cap exactly if the count reached it, for the iteration cap only at the cap, and for want of a backend only after passing over all of them with no reset ahead |
| Engine.PseudoOperatorEngine.RunPrimary | src/context_lifecycle/pseudo_operator/engine.py:420-439 | the session starts on the chosen backend; unless a stop came it ends as succeeded for exit code 0, else as the limit its log tells, else as failed; the failure count becomes 0, stays, or grows by 1 accordingly, and a limit goes down the ladder |
| Engine.PseudoOperatorEngine.RunFallbacks | src/context_lifecycle/pseudo_operator/engine.py:441-464 | the fallback loop keeps the trace legal and the failure count, and ends stopped, or with every backend passed over and slept, or after a session that met no limit |
| Engine.PseudoOperatorEngine.FinishSession | src/context_lifecycle/pseudo_operator/engine.py:425-464 | a session that is over is logged as its exit code and its log tell it, with the limited backends cooling down; after a stop nothing is logged |
| Engine.PseudoOperatorEngine.RunIteration | src/context_lifecycle/pseudo_operator/engine.py:388-475 | one iteration: why the loop ends in it, if it does, and that it looked at the first backend |
| Engine.PseudoOperatorEngine.BackendAvailable | src/context_lifecycle/pseudo_operator/engine.py:147-152 | yes only if no cooldown the trace tells is in force, otherwise a refusal is recorded |
| Engine.PseudoOperatorEngine.ClearExpiredCooldowns | src/context_lifecycle/pseudo_operator/engine.py:154-159 | clears exactly the cooldowns that are over |
| Engine.PseudoOperatorEngine.SelectBackend | src/context_lifecycle/pseudo_operator/engine.py:161-167 | the chosen backend is runnable and all before it have been passed over; with none chosen all have, and the missing-CLI exit is taken exactly if then no backend's CLI is found |
| Engine.PseudoOperatorEngine.NextRunnableFallback | src/context_lifecycle/pseudo_operator/engine.py:169-179 | the chosen fallback lies after the limited backend, is runnable, and all before it have been passed over; with none chosen all have |
| Engine.PseudoOperatorEngine.NextBackendReset | src/context_lifecycle/pseudo_operator/engine.py:181-184 | the earliest reset time still ahead, none only if no cooldown is in force |
| Engine.PseudoOperatorEngine.SleepUntilBackendReset | src/context_lifecycle/pseudo_operator/engine.py:186-204 | does not sleep only if no cooldown is in force; a sleep that is not cut short ends more than 119 seconds after the earliest reset that was still ahead when it was read |
| Engine.DelayPassesReset | src/context_lifecycle/pseudo_operator/engine.py:190-193 | the delay is at least 60 seconds and passes the reset by more than 119, also with the remaining time truncated to whole seconds |
| Engine.PseudoOperatorEngine.HandleBackendLimit | src/context_lifecycle/pseudo_operator/engine.py:206-245 | the limited backend, and for a global claude limit every claude backend, gets the reset time; all others keep theirs |
| Engine.PseudoOperatorEngine.SeedCooldowns | src/context_lifecycle/pseudo_operator/sessions.py:135-154 | merges the known backends' future times of the hook, the last readable one of a name winning, so that no session starts on an otherwise untouched backend before it |
| Engine.PseudoOperatorEngine.BudgetGuard | src/context_lifecycle/pseudo_operator/sessions.py:156-182 | merges the known backends' future times of this iteration's hook where they are later |
| Engine.GuardNeverShortens | src/context_lifecycle/pseudo_operator/sessions.py:156-182 | after the guard each backend has the latest of its cooldown and its future horizons |
| Retention.FindDestination | src/context_lifecycle/session/retention.py:237-243 | the suffix search terminates at the plain name if free, else at the name with the least number from 2 on that is free |
| Retention.FreeSuffix | src/context_lifecycle/session/retention.py:239-243 | the suffix is free and every smaller one is taken |
| Retention.Anchor.AutoGc | src/context_lifecycle/session/retention.py:213-273 | entry by entry after one sweep: a session is gone exactly if it is an unprotected directory with no leading dot whose day, that of the id or else the last touch, is before today - 14, and is then in the archive under a fresh name with its files and today's stamp; an archived directory is gone exactly if it is so named, unprotected, and stamped before today - 30 or without a stamp before today - 44; everything else is as it was; the actions report exactly these |
| Retention.SweepExact | src/context_lifecycle/session/retention.py:213-273 | the same of the specification of a sweep |
| Retention.SweepReports | src/context_lifecycle/session/retention.py:248-272 | exactly the sessions moved are reported, each with its day, and exactly the directories deleted |
| Retention.Anchor.EndSession | src/context_lifecycle/cli/session.py:167-179 | the session moves to the archive unless its name is taken there |
| Retention.TierOneLosesNothing | src/context_lifecycle/session/retention.py:227-250 | exactly the stale unprotected sessions move, each with its files and the day's stamp to a fresh name of its own; everything else is untouched |
| Retention.TierTwoExact | src/context_lifecycle/session/retention.py:252-273 | exactly the expired unprotected archive directories are deleted, the rest is untouched |
| Retention.SecondSweepIsNoop | src/context_lifecycle/session/retention.py:213-273 | a second sweep on the same day with the same protected names changes nothing and reports nothing |
| Retention.KeptUntilExpired | src/context_lifecycle/session/retention.py:252-273 | over any mix of sweeps, session ends and session activity an archive entry stays as it is until the first sweep for which it has expired, which removes it |
| Retention.RecoveryWindow | src/context_lifecycle/session/retention.py:213-273 | a session moved on day t stays in the archive with its files until the first unprotected sweep dated after t + 30, which deletes it |

## Left out

- Subprocesses, git, gh, YAML and JSON parsing, file operations: replaced by maps and arbitrary inputs that succeed. A failed or interrupted write is not modelled, nor are two processes writing at once.
- Locks, signing, hooks, configuration loading, ledger capture, hydration, cold surfacing, worksheet and campaign parsing: single-branch checks or plumbing without a hard property.
- Glob.CompiledMeaningExact: states nothing for globs with `**` inside a longer segment, to which the documentation gives no segment reading; what they match is stated by `Glob.CompiledReadsExact` alone. Newlines are left out of globs and targets, because `$` and `.` treat them specially.
- Character tables: `re.IGNORECASE` and `\w` are arbitrary tables in `Scrub`, except that case-insensitive matching compares one folded character with one character. `Text.LowerChar` and heading tokens are ASCII, so `str.lower` on a non-ASCII backlog title is not modelled.
- Carriage returns: `read_text` turns them into newlines, so texts contain none.
- Scrub.RedactionComplete: sufficient, not necessary, for a whole vocabulary: the exact condition is proved for one long name, and short aliases and the placeholder are taken to begin and end with word characters.
- PruneRedaction.RedactedFreeExact: a character table in which a line break is the other case of another character, and a name or placeholder with a line break, are not covered.
- The archive path in the pointer is one line of text; how it is made portable is not modelled, and the changelog entry of an item is an arbitrary function of the item.
- Consolidate.ConsolidationPass: the pruning of finished session directories by their capsules, in the same pass, is not modelled.
- Promotion.BatchIsDelivered: every file operation succeeds; that two items of different names share a leaf document because of `/` in their topics is covered, letter case of file names is not.
- Attribution.PlanAttribution: a planner that raises, or a missing runner, is the pass without attribution.
- CiStatus.Rollup: the detail text of a verdict is left out.
- Leaf documents: a finding is one line; text before the first heading of an existing document is not kept, as in the code, so no statement is made about it.
- LeafRoutes.AddRoute: list members that are not mappings, and the other keys of routes.yaml, are not represented.
- Engine: how a limit is found in a log, and hook output, are parsed outside: the environment tells the exit code of each session and the reset and scope its log tells, and lists of names and times for the hooks; a time without an offset or output that is not an object is not represented. Backend names are distinct, because the position of a name finds only the first one. The adaptive delay between sessions, the runtime state file and the lock's mutual exclusion are left out.
- Engine.PseudoOperatorEngine.SelectBackend: which CLIs are installed is read anew at the missing-CLI exit, so the exit does not imply that the refusals before it were for a missing CLI.
- Engine.PseudoOperatorEngine.Run: the pause flag is found set only in a given number of first turns; a stop request may appear and vanish at any check; clock readings are arbitrary but never run backwards.
- Retention.Anchor.AutoGc: the date in a session id is an arbitrary function of the name; the once-a-day throttle and the audit log of `maybe_auto_gc`, and the manual `cl session prune`, are left out. No directory has the empty name.
- The `## Detail` text of cold items, which `write_item` does not keep.
