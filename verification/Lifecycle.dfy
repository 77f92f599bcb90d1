/** The knowledge-item lifecycle over whole runs: passes in any number, with items sealed and re-injected in between. */
module Lifecycle {
  import opened Attribution
  import opened AttributionApply
  import opened CiStatus
  import opened Consolidate
  import opened Knowledge
  import opened Wrappers
  import Text

  datatype Step =
    | Pass(input: PassInput)                    // consolidate --apply
    | Seal(slug: string, item: Item)            // a new item, not yet acted on
    | Reinject(slug: string, when: DateField)   // usage recorded on an item

  ghost function After(store: Store, step: Step): Store {
    match step
    case Pass(input) => AfterPass(store, input)
    case Seal(slug, item) => if slug in store || RealSha(item.actedOn).Some? then store else store[slug := item]
    case Reinject(slug, when) => if slug in store then store[slug := store[slug].(lastInjected := when)] else store
  }

  ghost predicate StepAt(states: seq<Store>, steps: seq<Step>, k: nat) {
    k < |steps| && k + 1 < |states| && states[k + 1] == After(states[k], steps[k])
  }

  ghost predicate IsRun(states: seq<Store>, steps: seq<Step>) {
    |states| == |steps| + 1 && forall k: nat | k < |steps| :: StepAt(states, steps, k)
  }

  // ---- One pass on one item ----------------------------------------------------------

  /** The ledger records an injection of `slug` no later than the commit. */
  ghost predicate InjectedBefore(ledger: seq<InjectionRecord>, slug: string, c: CitedCommit) {
    c.authored.Some? && exists ts :: RecordedAt(ledger, slug, ts) && ts <= c.authored.value
  }

  ghost predicate ProofIn(store: Store, input: PassInput, slug: string, c: CitedCommit) {
    && FirstProof(store, EarliestOf(input.ledger), input.cited, input.changed, slug, c)
    && InjectedBefore(input.ledger, slug, c)
  }

  /** The pass found, in this store, the first commit that links `slug`, and its sha is `sha`. */
  ghost predicate LinkedIn(store: Store, input: PassInput, slug: string, sha: string) {
    input.attribute && exists c :: ProofIn(store, input, slug, c) && RealSha(Some(c.sha)) == Some(sha)
  }

  /** "No earlier than the earliest injection" means that an injection of that very slug is on record. */
  lemma ProofIsInjected(store: Store, input: PassInput, slug: string, c: CitedCommit)
    requires FirstProof(store, EarliestOf(input.ledger), input.cited, input.changed, slug, c)
    ensures ProofIn(store, input, slug, c)
  {
    EarliestExact(input.ledger);
    assert RecordedAt(input.ledger, slug, EarliestOf(input.ledger)[slug]);
  }

  /** A CI query of this pass for the commit came back with every run that counts passing. */
  ghost predicate GreenIn(input: PassInput, sha: string) {
    input.attribute && exists text ::
      RealSha(Some(text)) == Some(sha)
      && (Resolve(input.planFetch(text)) == True || Resolve(input.flipFetch(text)) == True)
  }

  /** What the attribution half may do to an item. */
  ghost predicate AttributionStep(store: Store, input: PassInput, slug: string, item: Item)
    requires slug in store
  {
    var was := store[slug];
    && item == was.(actedOn := item.actedOn, testsGreen := item.testsGreen)
    && (RealSha(was.actedOn).Some? ==>
          && item.actedOn == was.actedOn
          && (item.testsGreen != was.testsGreen ==>
                was.testsGreen == Unknown && item.testsGreen in {True, False}
                && (item.testsGreen == True ==> GreenIn(input, RealSha(was.actedOn).value))))
    && (RealSha(was.actedOn).None? && RealSha(item.actedOn).Some? ==>
          && LinkedIn(store, input, slug, RealSha(item.actedOn).value)
          && item.testsGreen in {True, False, Unknown}
          && (item.testsGreen == True ==> GreenIn(input, RealSha(item.actedOn).value)))
  }

  lemma ShaIsStripped(value: Option<string>)
    ensures RealSha(value).Some? ==> RealSha(RealSha(value)) == RealSha(value)
  {
    if RealSha(value).Some? {
      var sha := RealSha(value).value;
      assert forall c | c in sha :: !Text.IsSpace(c);
      assert sha[0] in sha && sha[|sha| - 1] in sha;
    }
  }

  lemma AppliedItems(store: Store, planned: seq<Planned>, flip: string -> TestsGreen)
    requires forall i, j | 0 <= i < j < |planned| :: planned[i].slug != planned[j].slug
    ensures Applied(store, planned, flip).Keys == store.Keys
    ensures forall slug | slug in store ::
              Applied(store, planned, flip)[slug] == FlipItem(WriteItem(store, slug, planned), flip)
  {
    PhaseAItems(store, planned);
    PhaseBItems(WriteAll(store, planned).store, flip);
  }

  lemma AttributionKeepsItems(store: Store, input: PassInput)
    ensures AfterAttribution(store, input).Keys == store.Keys
    ensures forall slug | slug in store :: AttributionStep(store, input, slug, AfterAttribution(store, input)[slug])
  {
    if input.attribute {
      var plan := sha => Resolve(input.planFetch(sha));
      var planned := PlanOf(store, EarliestOf(input.ledger), input.cited, input.changed, plan).attributions;
      PlannedIsFirstProof(store, EarliestOf(input.ledger), input.cited, input.changed, plan);
      forall p | p in planned
        ensures exists c ::
                  (FirstProof(store, EarliestOf(input.ledger), input.cited, input.changed, p.slug, c)
                   && p == Planned(p.slug, c.sha, Literal(Resolve(input.planFetch(c.sha)))))
      {
        var c :| FirstProof(store, EarliestOf(input.ledger), input.cited, input.changed, p.slug, c)
                 && p == Planned(p.slug, c.sha, Literal(plan(c.sha)));
      }
      AppliedItems(store, planned, sha => Resolve(input.flipFetch(sha)));
      forall slug | slug in store
        ensures AttributionStep(store, input, slug, AfterAttribution(store, input)[slug])
      {
        AttributionKeepsItem(store, input, slug, planned);
      }
    }
  }

  lemma AttributionKeepsItem(store: Store, input: PassInput, slug: string, planned: seq<Planned>)
    requires input.attribute && slug in store
    requires forall p | p in planned :: exists c ::
               (FirstProof(store, EarliestOf(input.ledger), input.cited, input.changed, p.slug, c)
                && p == Planned(p.slug, c.sha, Literal(Resolve(input.planFetch(c.sha)))))
    ensures AttributionStep(store, input, slug,
                            FlipItem(WriteItem(store, slug, planned), sha => Resolve(input.flipFetch(sha))))
  {
    var written := WriteItem(store, slug, planned);
    var item := FlipItem(written, sha => Resolve(input.flipFetch(sha)));
    ShaIsStripped(written.actedOn);
    var p := PlannedFor(planned, slug);
    if Candidate(store, slug) && p.Some? && RealSha(item.actedOn).Some? {
      var c :| FirstProof(store, EarliestOf(input.ledger), input.cited, input.changed, slug, c)
               && p.value == Planned(slug, c.sha, Literal(Resolve(input.planFetch(c.sha))));
      ProofIsInjected(store, input, slug, c);
      assert RealSha(Some(c.sha)) == RealSha(item.actedOn);
    }
  }

  /** Phase A, from the store a pass finds: the item gets the commit that first proves it and what CI says of it,
      and stays as it is if there is none. */
  ghost predicate WrittenTo(store: Store, input: PassInput, slug: string, item: Item)
    requires slug in store
  {
    if exists c :: FirstProof(store, EarliestOf(input.ledger), input.cited, input.changed, slug, c) then
      exists c :: FirstProof(store, EarliestOf(input.ledger), input.cited, input.changed, slug, c)
        && var green := Resolve(input.planFetch(c.sha));
           item == store[slug].(actedOn := Some(c.sha),
                                testsGreen := if green in {True, False} then green else Unknown)
    else item == store[slug]
  }

  /** Phase B: a cold item whose commit is still unknown to CI gets what CI says now, if that is a verdict. */
  predicate FlippedTo(written: Item, item: Item, input: PassInput) {
    if written.tier == Cold && written.testsGreen == Unknown && RealSha(written.actedOn).Some? then
      var green := Resolve(input.flipFetch(RealSha(written.actedOn).value));
      item == if green in {True, False} then written.(testsGreen := green) else written
    else item == written
  }

  lemma WriteItemExact(store: Store, input: PassInput, slug: string)
    requires slug in store
    ensures var planned := PlanOf(store, EarliestOf(input.ledger), input.cited, input.changed,
                                  sha => Resolve(input.planFetch(sha))).attributions;
            WrittenTo(store, input, slug, WriteItem(store, slug, planned))
  {
    var earliest, resolve := EarliestOf(input.ledger), sha => Resolve(input.planFetch(sha));
    var plan := PlanOf(store, earliest, input.cited, input.changed, resolve);
    PlannedIsFirstProof(store, earliest, input.cited, input.changed, resolve);
    var p := PlannedFor(plan.attributions, slug);
    if p.Some? {
      var c :| FirstProof(store, earliest, input.cited, input.changed, slug, c)
               && p.value == Planned(slug, c.sha, Literal(resolve(c.sha)));
      ProvedIsWritten(store, input, slug, plan.attributions, c);
    } else {
      UnplannedIsUnproved(store, input, slug, resolve);
    }
  }

  lemma ProvedIsWritten(store: Store, input: PassInput, slug: string, planned: seq<Planned>, c: CitedCommit)
    requires slug in store && FirstProof(store, EarliestOf(input.ledger), input.cited, input.changed, slug, c)
    requires PlannedFor(planned, slug) == Some(Planned(slug, c.sha, Literal(Resolve(input.planFetch(c.sha)))))
    ensures WrittenTo(store, input, slug, WriteItem(store, slug, planned))
  {
  }

  lemma UnplannedIsUnproved(store: Store, input: PassInput, slug: string, resolve: string -> TestsGreen)
    requires var plan := PlanOf(store, EarliestOf(input.ledger), input.cited, input.changed, resolve);
             PlannedFor(plan.attributions, slug).None?
    ensures forall c :: !FirstProof(store, EarliestOf(input.ledger), input.cited, input.changed, slug, c)
  {
    if Candidate(store, slug) {
      PlannedIffLinked(store, EarliestOf(input.ledger), input.cited, input.changed, resolve, slug);
    }
  }

  /** What the attribution half of a pass makes of one item. */
  lemma AttributionExact(store: Store, input: PassInput, slug: string)
    requires slug in store && input.attribute
    ensures slug in AfterAttribution(store, input)
    ensures exists written :: WrittenTo(store, input, slug, written)
                              && FlippedTo(written, AfterAttribution(store, input)[slug], input)
  {
    var resolve := sha => Resolve(input.planFetch(sha));
    var planned := PlanOf(store, EarliestOf(input.ledger), input.cited, input.changed, resolve).attributions;
    PlannedIsFirstProof(store, EarliestOf(input.ledger), input.cited, input.changed, resolve);
    AppliedItems(store, planned, sha => Resolve(input.flipFetch(sha)));
    WriteItemExact(store, input, slug);
    var written := WriteItem(store, slug, planned);
    assert FlippedTo(written, AfterAttribution(store, input)[slug], input);
  }

  lemma SettleKeepsEvidence(item: Item, input: PassInput, starts: seq<DateField>)
    ensures var end := Settle(item, input, starts);
            && end.actedOn == item.actedOn && end.testsGreen == item.testsGreen
            && (item.tier == Cold && end.tier != Cold ==> end.tier == Warm && Eligible(item))
            && (end.tier != Cold ==> item.tier != Cold || Eligible(item))
  {
  }

  lemma SettledAt(store: Store, input: PassInput, slug: string)
    requires slug in store
    ensures SettleAll(store, input).Keys == store.Keys
    ensures SettleAll(store, input)[slug] == Settle(store[slug], input, Starts(store, input.current))
  {
  }

  /** The tier half leaves the evidence fields alone. */
  lemma PassKeepsEvidence(store: Store, input: PassInput, slug: string)
    requires slug in store
    ensures AfterPass(store, input).Keys == store.Keys
    ensures var mid, end := AfterAttribution(store, input)[slug], AfterPass(store, input)[slug];
            && AttributionStep(store, input, slug, mid)
            && end.actedOn == mid.actedOn && end.testsGreen == mid.testsGreen
            && (mid.tier == Cold && end.tier != Cold ==> end.tier == Warm && Eligible(mid))
            && (end.tier != Cold ==> mid.tier != Cold || Eligible(mid))
  {
    AttributionKeepsItems(store, input);
    var middle := AfterAttribution(store, input);
    SettledAt(middle, input, slug);
    SettleKeepsEvidence(middle[slug], input, Starts(middle, input.current));
  }

  // ---- Promoted means proved -------------------------------------------------------------

  ghost predicate LinkedBefore(states: seq<Store>, steps: seq<Step>, n: nat, slug: string, sha: string) {
    exists j :: 0 <= j < n && j < |steps| && j < |states| && steps[j].Pass?
      && LinkedIn(states[j], steps[j].input, slug, sha)
  }

  ghost predicate GreenBefore(steps: seq<Step>, n: nat, sha: string) {
    exists j :: 0 <= j < n && j < |steps| && steps[j].Pass? && GreenIn(steps[j].input, sha)
  }

  /** Whatever an item claims about a commit was established by an earlier pass. */
  ghost predicate Backed(states: seq<Store>, steps: seq<Step>, n: nat, slug: string, item: Item) {
    RealSha(item.actedOn).Some? ==>
      && LinkedBefore(states, steps, n, slug, RealSha(item.actedOn).value)
      && (item.testsGreen == True ==> GreenBefore(steps, n, RealSha(item.actedOn).value))
  }

  lemma BackedByPass(states: seq<Store>, steps: seq<Step>, n: nat, slug: string)
    requires IsRun(states, steps) && n < |steps| && steps[n].Pass? && slug in states[n]
    requires Backed(states, steps, n, slug, states[n][slug])
    ensures slug in states[n + 1] && Backed(states, steps, n + 1, slug, states[n + 1][slug])
  {
    var input := steps[n].input;
    assert StepAt(states, steps, n);
    PassKeepsEvidence(states[n], input, slug);
    var item := states[n + 1][slug];
    if RealSha(item.actedOn).Some? {
      var sha := RealSha(item.actedOn).value;
      if LinkedIn(states[n], input, slug, sha) {
        assert LinkedBefore(states, steps, n + 1, slug, sha);
      }
      if GreenIn(input, sha) {
        assert GreenBefore(steps, n + 1, sha);
      }
    }
  }

  ghost predicate Unattributed(store: Store) {
    forall s | s in store :: RealSha(store[s].actedOn).None?
  }

  lemma PassKeepsKeys(store: Store, input: PassInput)
    ensures AfterPass(store, input).Keys == store.Keys
  {
    AttributionKeepsItems(store, input);
  }

  lemma BackedStep(states: seq<Store>, steps: seq<Step>, n: nat, slug: string)
    requires IsRun(states, steps) && n < |steps| && slug in states[n + 1]
    requires slug in states[n] ==> Backed(states, steps, n, slug, states[n][slug])
    ensures Backed(states, steps, n + 1, slug, states[n + 1][slug])
  {
    assert StepAt(states, steps, n);
    if steps[n].Pass? {
      PassKeepsKeys(states[n], steps[n].input);
      BackedByPass(states, steps, n, slug);
    }
  }

  lemma {:induction false} AllBacked(states: seq<Store>, steps: seq<Step>, n: nat, slug: string)
    requires IsRun(states, steps) && n <= |steps| && slug in states[n] && Unattributed(states[0])
    ensures Backed(states, steps, n, slug, states[n][slug])
  {
    if n > 0 {
      if slug in states[n - 1] {
        AllBacked(states, steps, n - 1, slug);
      }
      BackedStep(states, steps, n - 1, slug);
    }
  }

  /** In every run from a store without attributions, an item that turns warm carries a commit that some pass
      linked to it by the full predicate, after a recorded injection of the item, and some pass saw with green CI. */
  lemma PromotedMeansProved(states: seq<Store>, steps: seq<Step>, k: nat, slug: string)
    requires IsRun(states, steps) && k < |steps| && Unattributed(states[0])
    requires slug in states[k] && states[k][slug].tier == Cold
    requires slug in states[k + 1] && states[k + 1][slug].tier != Cold
    ensures states[k + 1][slug].tier == Warm
    ensures var sha := RealSha(states[k + 1][slug].actedOn);
            sha.Some? && LinkedBefore(states, steps, k + 1, slug, sha.value) && GreenBefore(steps, k + 1, sha.value)
  {
    AllBacked(states, steps, k + 1, slug);
    assert StepAt(states, steps, k);
    PassKeepsEvidence(states[k], steps[k].input, slug);
  }

  // ---- Write-once, monotone, pinned ----------------------------------------------------------

  /** A store never loses an item; an attributed item keeps its commit, and its CI value once it is known. */
  ghost predicate Keeps(was: Item, now: Item) {
    && (RealSha(was.actedOn).Some? ==>
          && now.actedOn == was.actedOn
          && (was.testsGreen != Unknown ==> now.testsGreen == was.testsGreen)
          && (was.testsGreen == Unknown ==> now.testsGreen in {Unknown, True, False}))
    && now.paths == was.paths && now.finding == was.finding && now.pinned == was.pinned
    && (was.pinned && was.tier != Cold ==> now.tier == was.tier)
  }

  lemma StepKeeps(store: Store, step: Step, slug: string)
    requires slug in store
    ensures slug in After(store, step) && Keeps(store[slug], After(store, step)[slug])
  {
    if step.Pass? {
      PassKeepsEvidence(store, step.input, slug);
    }
  }

  lemma {:induction false} WriteKeeps(store: Store, planned: seq<Planned>, slug: string)
    requires slug in store
    ensures var after := WriteAll(store, planned).store; slug in after && Keeps(store[slug], after[slug])
  {
    if planned != [] {
      WriteKeeps(store, planned[..|planned| - 1], slug);
    }
  }

  lemma {:induction false} FlipKeeps(e: Effect, slugs: seq<string>, resolve: string -> TestsGreen, slug: string)
    requires slug in e.store
    ensures var after := FlipAll(e, slugs, resolve).store; slug in after && Keeps(e.store[slug], after[slug])
  {
    if slugs != [] {
      FlipKeeps(e, slugs[..|slugs| - 1], resolve, slug);
    }
  }

  /** A step of a run, or one phase of the writer with a list that may be out of date: another pass, a seal or a
      promotion came in between. */
  datatype Change =
    | Whole(step: Step)
    | LateWrite(planned: seq<Planned>)
    | LateFlip(slugs: seq<string>, resolve: string -> TestsGreen)

  ghost function AfterChange(store: Store, change: Change): Store {
    match change
    case Whole(step) => After(store, step)
    case LateWrite(planned) => WriteAll(store, planned).store
    case LateFlip(slugs, resolve) => FlipAll(Effect(store, [], []), slugs, resolve).store
  }

  ghost predicate ChangeAt(states: seq<Store>, changes: seq<Change>, k: nat) {
    k < |changes| && k + 1 < |states| && states[k + 1] == AfterChange(states[k], changes[k])
  }

  /** Steps and late phases in any order. */
  ghost predicate IsHistory(states: seq<Store>, changes: seq<Change>) {
    |states| == |changes| + 1 && forall k: nat | k < |changes| :: ChangeAt(states, changes, k)
  }

  lemma ChangeKeeps(store: Store, change: Change, slug: string)
    requires slug in store
    ensures slug in AfterChange(store, change) && Keeps(store[slug], AfterChange(store, change)[slug])
  {
    match change
    case Whole(step) => StepKeeps(store, step, slug);
    case LateWrite(planned) => WriteKeeps(store, planned, slug);
    case LateFlip(slugs, resolve) => FlipKeeps(Effect(store, [], []), slugs, resolve, slug);
  }

  lemma {:induction false} WriteOnce(states: seq<Store>, changes: seq<Change>, i: nat, j: nat, slug: string)
    requires IsHistory(states, changes) && i <= j <= |changes| && slug in states[i]
    ensures slug in states[j] && Keeps(states[i][slug], states[j][slug])
    decreases j - i
  {
    if i < j {
      WriteOnce(states, changes, i, j - 1, slug);
      assert ChangeAt(states, changes, j - 1);
      ChangeKeeps(states[j - 1], changes[j - 1], slug);
    }
  }
}
