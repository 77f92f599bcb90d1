/** The attribution planner (attribution.py): which merged commit proves which cold item useful. */
module Attribution {
  import opened CiStatus
  import opened Knowledge
  import opened Listings
  import opened Ordering
  import opened Regex
  import opened Wrappers
  import Glob
  import Router
  import Seqs

  /** A merged commit with its `Context-Used` trailers; the date is absent when it does not parse. */
  datatype CitedCommit = CitedCommit(sha: string, authored: Option<int>, slugs: seq<string>)

  datatype Planned = Planned(slug: string, sha: string, testsGreen: TestsGreen)

  datatype Reason =
    | AlreadyAttributed | NeverInjected | NoCitingCommit | CitedBeforeInjection
    | CitedNoPathOverlap | NotColdTier | UnknownSlug | TimestampUnparseable

  datatype Rejection = Rejection(slug: string, sha: Option<string>, reason: Reason)

  datatype Plan = Plan(attributions: seq<Planned>, rejections: seq<Rejection>)

  /** One `cold_slugs` record of the injection ledger. */
  datatype InjectionRecord = InjectionRecord(slug: string, ts: Option<int>)

  // ---- Evidence --------------------------------------------------------------------

  predicate Records(rec: InjectionRecord, slug: string, ts: int) {
    rec == InjectionRecord(slug, Some(ts)) && slug != ""
  }

  /** Per slug, the smallest readable time in the ledger. */
  function EarliestOf(ledger: seq<InjectionRecord>): map<string, int> {
    if ledger == [] then map[]
    else
      var earliest, rec := EarliestOf(ledger[..|ledger| - 1]), ledger[|ledger| - 1];
      if rec.slug == "" || rec.ts.None? then earliest
      else if rec.slug in earliest && earliest[rec.slug] <= rec.ts.value then earliest
      else earliest[rec.slug := rec.ts.value]
  }

  predicate RecordedAt(ledger: seq<InjectionRecord>, slug: string, ts: int) {
    exists rec :: rec in ledger && Records(rec, slug, ts)
  }

  lemma {:induction false} EarliestExact(ledger: seq<InjectionRecord>)
    ensures forall slug | slug in EarliestOf(ledger) :: RecordedAt(ledger, slug, EarliestOf(ledger)[slug])
    ensures forall rec, slug, ts | rec in ledger && Records(rec, slug, ts) ::
              slug in EarliestOf(ledger) && EarliestOf(ledger)[slug] <= ts
  {
    if ledger != [] {
      var init, rec := ledger[..|ledger| - 1], ledger[|ledger| - 1];
      EarliestExact(init);
      assert ledger == init + [rec];
      forall slug | slug in EarliestOf(ledger)
        ensures RecordedAt(ledger, slug, EarliestOf(ledger)[slug])
      {
        if slug in EarliestOf(init) && EarliestOf(ledger)[slug] == EarliestOf(init)[slug] {
          var r :| r in init && Records(r, slug, EarliestOf(init)[slug]);
          assert r in ledger;
        } else {
          assert rec in ledger && Records(rec, slug, EarliestOf(ledger)[slug]);
        }
      }
    }
  }

  /** `_earliest_injections`. */
  method EarliestInjections(ledger: seq<InjectionRecord>) returns (earliest: map<string, int>)
    ensures earliest == EarliestOf(ledger)
    ensures forall slug :: slug in earliest <==> exists ts :: RecordedAt(ledger, slug, ts)
    ensures forall slug | slug in earliest ::
              && RecordedAt(ledger, slug, earliest[slug])
              && (forall ts | RecordedAt(ledger, slug, ts) :: earliest[slug] <= ts)
  {
    earliest := map[];
    for i := 0 to |ledger|
      invariant earliest == EarliestOf(ledger[..i])
    {
      var rec := ledger[i];
      assert ledger[..i + 1][..i] == ledger[..i];
      if rec.slug == "" || rec.ts.None? {
        continue;
      }
      if rec.slug !in earliest || rec.ts.value < earliest[rec.slug] {
        earliest := earliest[rec.slug := rec.ts.value];
      }
    }
    assert ledger[..|ledger|] == ledger;
    EarliestExact(ledger);
  }

  /** Some changed file matches some glob, with the router's matcher. */
  predicate Overlaps(changed: seq<string>, globs: seq<string>) {
    exists i, j | 0 <= i < |changed| && 0 <= j < |globs| ::
      Matches(Glob.Compile(globs[j]), Router.StripDotSlash(changed[i]))
  }

  /** The inner loop over the globs. */
  method MatchesOne(target: string, globs: seq<string>) returns (hit: bool)
    ensures hit == exists j | 0 <= j < |globs| :: Matches(Glob.Compile(globs[j]), target)
  {
    for j := 0 to |globs|
      invariant forall m | 0 <= m < j :: !Matches(Glob.Compile(globs[m]), target)
    {
      var re := Glob.GlobToRegex(globs[j]);
      if Matches(re, target) {
        return true;
      }
    }
    return false;
  }

  /** `_matches_any_glob`. */
  method MatchesAnyGlob(changed: seq<string>, globs: seq<string>) returns (hit: bool)
    ensures hit == Overlaps(changed, globs)
  {
    for i := 0 to |changed|
      invariant forall k, j | 0 <= k < i && 0 <= j < |globs| ::
                  !Matches(Glob.Compile(globs[j]), Router.StripDotSlash(changed[k]))
    {
      var found := MatchesOne(Router.StripDotSlash(changed[i]), globs);
      if found {
        return true;
      }
    }
    return false;
  }

  /** The link predicate: cited by name, authored no earlier than the first injection, touching the item's paths. */
  predicate Links(c: CitedCommit, slug: string, item: Item, injectedAt: int, changed: string -> seq<string>) {
    && slug in c.slugs
    && c.authored.Some? && c.authored.value >= injectedAt
    && Overlaps(changed(c.sha), item.paths)
  }

  /** Author date, then sha; unreadable dates last. */
  predicate CommitLe(a: CitedCommit, b: CitedCommit) {
    if a.authored.None? || b.authored.None? then
      b.authored.None? && (a.authored.Some? || LexLe(a.sha, b.sha))
    else
      a.authored.value < b.authored.value || (a.authored == b.authored && LexLe(a.sha, b.sha))
  }

  lemma CommitOrder()
    ensures TotalPreorder(CommitLe)
  {
    LexIsPreorder();
  }

  // ---- The plan as a function ---------------------------------------------------------

  /** A cold item without a real sha: the only kind that can be attributed. */
  predicate Candidate(store: Store, slug: string) {
    slug in store && store[slug].tier == Cold && RealSha(store[slug].actedOn).None?
  }

  predicate Attributed(store: Store, slug: string) {
    slug in store && store[slug].tier == Cold && RealSha(store[slug].actedOn).Some?
  }

  function Where<T>(s: seq<T>, keep: T -> bool): seq<T> {
    if s == [] then []
    else Where(s[..|s| - 1], keep) + if keep(s[|s| - 1]) then [s[|s| - 1]] else []
  }

  lemma WhereStep<T>(s: seq<T>, i: nat, keep: T -> bool)
    requires i < |s|
    ensures Where(s[..i + 1], keep) == Where(s[..i], keep) + if keep(s[i]) then [s[i]] else []
  {
    assert s[..i + 1][..i] == s[..i];
  }

  /** Why the citing commit `c` does not link, when it does not. */
  function CommitReason(c: CitedCommit, item: Item, injectedAt: int, changed: string -> seq<string>): Option<Reason> {
    if c.authored.None? then Some(TimestampUnparseable)
    else if c.authored.value < injectedAt then Some(CitedBeforeInjection)
    else if !Overlaps(changed(c.sha), item.paths) then Some(CitedNoPathOverlap)
    else None
  }

  /** How many leading citing commits are turned down. */
  function Refused(citing: seq<CitedCommit>, item: Item, injectedAt: int, changed: string -> seq<string>): (n: nat)
    ensures n <= |citing|
    ensures forall k | 0 <= k < n :: CommitReason(citing[k], item, injectedAt, changed).Some?
    ensures n < |citing| ==> CommitReason(citing[n], item, injectedAt, changed).None?
  {
    if citing == [] || CommitReason(citing[0], item, injectedAt, changed).None? then 0
    else 1 + Refused(citing[1..], item, injectedAt, changed)
  }

  /** The outcome for one candidate slug. */
  function PlanSlug(slug: string, item: Item, injections: map<string, int>, commits: seq<CitedCommit>,
                    changed: string -> seq<string>, resolve: string -> TestsGreen): Plan
  {
    var citing := Where(commits, (c: CitedCommit) => slug in c.slugs);
    if slug !in injections then Plan([], [Rejection(slug, None, NeverInjected)])
    else if citing == [] then Plan([], [Rejection(slug, None, NoCitingCommit)])
    else
      var at := injections[slug];
      var n := Refused(citing, item, at, changed);
      var refusals := seq(n, k requires 0 <= k < n =>
        Rejection(slug, Some(citing[k].sha), CommitReason(citing[k], item, at, changed).value));
      Plan(if n < |citing| then [Planned(slug, citing[n].sha, Literal(resolve(citing[n].sha)))] else [], refusals)
  }

  function PlanSlugs(slugs: seq<string>, store: Store, injections: map<string, int>, commits: seq<CitedCommit>,
                     changed: string -> seq<string>, resolve: string -> TestsGreen): Plan
    requires forall slug | slug in slugs :: slug in store
  {
    if slugs == [] then Plan([], [])
    else
      var init := PlanSlugs(slugs[..|slugs| - 1], store, injections, commits, changed, resolve);
      var slug := slugs[|slugs| - 1];
      var one := PlanSlug(slug, store[slug], injections, commits, changed, resolve);
      Plan(init.attributions + one.attributions, init.rejections + one.rejections)
  }

  /** The rejections for citations of slugs that are not candidates, each (slug, sha) pair once. */
  function OddCitation(store: Store, slug: string, sha: string): seq<Rejection> {
    if slug !in store then [Rejection(slug, Some(sha), UnknownSlug)]
    else if store[slug].tier != Cold then [Rejection(slug, Some(sha), NotColdTier)]
    else []
  }

  /** Every (slug, sha) citation of a non-candidate, in reading order, repetitions dropped. */
  function OddPairs(store: Store, citations: seq<(string, string)>): seq<(string, string)> {
    if citations == [] then []
    else
      var init := OddPairs(store, citations[..|citations| - 1]);
      var pair := citations[|citations| - 1];
      if Candidate(store, pair.0) || pair in init then init else init + [pair]
  }

  function OddCitations(store: Store, pairs: seq<(string, string)>): seq<Rejection> {
    if pairs == [] then []
    else
      var pair := pairs[|pairs| - 1];
      OddCitations(store, pairs[..|pairs| - 1]) + OddCitation(store, pair.0, pair.1)
  }

  function CitationsOf(c: CitedCommit): seq<(string, string)> {
    seq(|c.slugs|, j requires 0 <= j < |c.slugs| => (c.slugs[j], c.sha))
  }

  function Citations(commits: seq<CitedCommit>): seq<(string, string)> {
    if commits == [] then []
    else Citations(commits[..|commits| - 1]) + CitationsOf(commits[|commits| - 1])
  }

  function Done(slugs: seq<string>): seq<Rejection> {
    seq(|slugs|, i requires 0 <= i < |slugs| => Rejection(slugs[i], None, AlreadyAttributed))
  }

  ghost function Candidates(store: Store): seq<string> {
    Where(Listing(store.Keys), slug => Candidate(store, slug))
  }

  /** The commits the planner looks at: none when nothing could have been caused by one. */
  ghost function Evidence(store: Store, injections: map<string, int>, cited: seq<CitedCommit>): seq<CitedCommit> {
    if Candidates(store) == [] || injections == map[] then [] else cited
  }

  ghost function PlanOf(store: Store, injections: map<string, int>, cited: seq<CitedCommit>,
                        changed: string -> seq<string>, resolve: string -> TestsGreen): Plan
  {
    var commits := StableSort(Evidence(store, injections, cited), CommitLe);
    CandidatesInStore(store);
    var linked := PlanSlugs(Candidates(store), store, injections, commits, changed, resolve);
    Plan(linked.attributions,
         Done(Where(Listing(store.Keys), slug => Attributed(store, slug)))
         + OddCitations(store, OddPairs(store, Citations(commits)))
         + linked.rejections)
  }

  lemma {:induction false} WhereIn<T>(s: seq<T>, keep: T -> bool)
    ensures forall x :: x in Where(s, keep) <==> x in s && keep(x)
    ensures Distinct(s) ==> Distinct(Where(s, keep))
  {
    if s != [] {
      WhereIn(s[..|s| - 1], keep);
      assert s == s[..|s| - 1] + [s[|s| - 1]];
    }
  }

  lemma CandidatesInStore(store: Store)
    ensures forall slug :: slug in Candidates(store) <==> Candidate(store, slug)
    ensures Distinct(Candidates(store))
  {
    WhereIn(Listing(store.Keys), slug => Candidate(store, slug));
  }

  // ---- The planner ---------------------------------------------------------------------

  /** The per-slug walk over the citing commits, earliest first, up to the first that links. */
  method WalkCiting(slug: string, item: Item, injectedAt: int, citing: seq<CitedCommit>, changed: string -> seq<string>)
    returns (chosen: Option<CitedCommit>, rejections: seq<Rejection>)
    ensures var n := Refused(citing, item, injectedAt, changed);
            && chosen == (if n < |citing| then Some(citing[n]) else None)
            && |rejections| == n
            && forall k | 0 <= k < n ::
                 var why := CommitReason(citing[k], item, injectedAt, changed);
                 why.Some? && rejections[k] == Rejection(slug, Some(citing[k].sha), why.value)
  {
    chosen, rejections := None, [];
    for i := 0 to |citing|
      invariant chosen.None? && |rejections| == i
      invariant Refused(citing, item, injectedAt, changed) == i + Refused(citing[i..], item, injectedAt, changed)
      invariant forall k | 0 <= k < i ::
                  var why := CommitReason(citing[k], item, injectedAt, changed);
                  why.Some? && rejections[k] == Rejection(slug, Some(citing[k].sha), why.value)
    {
      var commit := citing[i];
      assert citing[i..][1..] == citing[i + 1..];
      if commit.authored.None? {
        rejections := rejections + [Rejection(slug, Some(commit.sha), TimestampUnparseable)];
        continue;
      }
      if commit.authored.value < injectedAt {
        rejections := rejections + [Rejection(slug, Some(commit.sha), CitedBeforeInjection)];
        continue;
      }
      var overlap := MatchesAnyGlob(changed(commit.sha), item.paths);
      if !overlap {
        rejections := rejections + [Rejection(slug, Some(commit.sha), CitedNoPathOverlap)];
        continue;
      }
      chosen := Some(commit);
      return;
    }
  }

  lemma OddPairsSnoc(store: Store, citations: seq<(string, string)>, pair: (string, string))
    ensures var init := OddPairs(store, citations);
            OddPairs(store, citations + [pair]) ==
            if Candidate(store, pair.0) || pair in init then init else init + [pair]
  {
    assert (citations + [pair])[..|citations|] == citations;
  }

  lemma OddCitationsSnoc(store: Store, pairs: seq<(string, string)>, pair: (string, string))
    ensures OddCitations(store, pairs + [pair]) == OddCitations(store, pairs) + OddCitation(store, pair.0, pair.1)
  {
    assert (pairs + [pair])[..|pairs|] == pairs;
  }

  /** The citations of slugs that are not candidates. */
  method OddRejections(store: Store, commits: seq<CitedCommit>) returns (rejections: seq<Rejection>)
    ensures rejections == OddCitations(store, OddPairs(store, Citations(commits)))
  {
    rejections := [];
    var seen: seq<(string, string)> := [];
    for i := 0 to |commits|
      invariant seen == OddPairs(store, Citations(commits[..i]))
      invariant rejections == OddCitations(store, seen)
    {
      assert commits[..i + 1][..i] == commits[..i];
      ghost var before, all := Citations(commits[..i]), CitationsOf(commits[i]);
      seen, rejections := OddOfCommit(store, commits[i], before, all, seen, rejections);
    }
    assert commits[..|commits|] == commits;
  }

  /** One commit, of which `all` are the citations. */
  method OddOfCommit(store: Store, commit: CitedCommit, ghost before: seq<(string, string)>,
                     ghost all: seq<(string, string)>, seen0: seq<(string, string)>, rejections0: seq<Rejection>)
    returns (seen: seq<(string, string)>, rejections: seq<Rejection>)
    requires |all| == |commit.slugs| && forall j | 0 <= j < |all| :: all[j] == (commit.slugs[j], commit.sha)
    requires seen0 == OddPairs(store, before) && rejections0 == OddCitations(store, seen0)
    ensures seen == OddPairs(store, before + all)
    ensures rejections == OddCitations(store, seen)
  {
    seen, rejections := seen0, rejections0;
    Seqs.PrefixEnds(before, all);
    for j := 0 to |commit.slugs|
      invariant seen == OddPairs(store, before + all[..j])
      invariant rejections == OddCitations(store, seen)
    {
      Seqs.PrefixStep(before, all, j);
      seen, rejections := OddOne(store, commit.slugs[j], commit.sha, before + all[..j], seen, rejections);
    }
  }

  method OddOne(store: Store, slug: string, sha: string, ghost before: seq<(string, string)>,
                seen0: seq<(string, string)>, rejections0: seq<Rejection>)
    returns (seen: seq<(string, string)>, rejections: seq<Rejection>)
    requires seen0 == OddPairs(store, before) && rejections0 == OddCitations(store, seen0)
    ensures seen == OddPairs(store, before + [(slug, sha)])
    ensures rejections == OddCitations(store, seen)
  {
    seen, rejections := seen0, rejections0;
    OddPairsSnoc(store, before, (slug, sha));
    if Candidate(store, slug) || (slug, sha) in seen {
      return;
    }
    OddCitationsSnoc(store, seen, (slug, sha));
    seen := seen + [(slug, sha)];
    if slug !in store {
      rejections := rejections + [Rejection(slug, Some(sha), UnknownSlug)];
    } else if store[slug].tier != Cold {
      rejections := rejections + [Rejection(slug, Some(sha), NotColdTier)];
    }
  }

  /** The outcome for one candidate. */
  method PlanOne(slug: string, item: Item, injections: map<string, int>, commits: seq<CitedCommit>,
                 changed: string -> seq<string>, resolve: string -> TestsGreen) returns (plan: Plan)
    ensures plan == PlanSlug(slug, item, injections, commits, changed, resolve)
  {
    if slug !in injections {
      return Plan([], [Rejection(slug, None, NeverInjected)]);
    }
    var citing := Where(commits, (c: CitedCommit) => slug in c.slugs);
    if citing == [] {
      return Plan([], [Rejection(slug, None, NoCitingCommit)]);
    }
    var chosen, refusals := WalkCiting(slug, item, injections[slug], citing, changed);
    if chosen.None? {
      return Plan([], refusals);
    }
    return Plan([Planned(slug, chosen.value.sha, Literal(resolve(chosen.value.sha)))], refusals);
  }

  /** Which listed items are already attributed and which are candidates. */
  method SortOut(store: Store) returns (done: seq<string>, candidates: seq<string>)
    ensures done == Where(Listing(store.Keys), slug => Attributed(store, slug))
    ensures candidates == Candidates(store)
  {
    var items := SortedNames(store.Keys);
    ghost var attributed, candidate := slug => Attributed(store, slug), slug => Candidate(store, slug);
    done, candidates := [], [];
    for i := 0 to |items|
      invariant done == Where(items[..i], attributed)
      invariant candidates == Where(items[..i], candidate)
    {
      var slug := items[i];
      assert slug in store.Keys;
      WhereStep(items, i, attributed);
      WhereStep(items, i, candidate);
      if store[slug].tier != Cold {
        continue;
      }
      if RealSha(store[slug].actedOn).Some? {
        done := done + [slug];
        continue;
      }
      candidates := candidates + [slug];
    }
    assert items[..|items|] == items;
  }

  /** The link predicate, candidate by candidate. */
  method PlanAll(candidates: seq<string>, store: Store, injections: map<string, int>, commits: seq<CitedCommit>,
                 changed: string -> seq<string>, resolve: string -> TestsGreen) returns (plan: Plan)
    requires forall slug | slug in candidates :: slug in store
    ensures plan == PlanSlugs(candidates, store, injections, commits, changed, resolve)
  {
    var attributions: seq<Planned>, rejections: seq<Rejection> := [], [];
    for i := 0 to |candidates|
      invariant Plan(attributions, rejections) ==
                PlanSlugs(candidates[..i], store, injections, commits, changed, resolve)
    {
      var slug := candidates[i];
      assert candidates[..i + 1][..i] == candidates[..i];
      var one := PlanOne(slug, store[slug], injections, commits, changed, resolve);
      attributions, rejections := attributions + one.attributions, rejections + one.rejections;
    }
    assert candidates[..|candidates|] == candidates;
    plan := Plan(attributions, rejections);
  }

  /** `plan_attribution`. */
  method PlanAttribution(store: Store, injections: map<string, int>, cited: seq<CitedCommit>,
                         changed: string -> seq<string>, resolve: string -> TestsGreen) returns (plan: Plan)
    ensures plan == PlanOf(store, injections, cited, changed, resolve)
  {
    var done, candidates := SortOut(store);
    CandidatesInStore(store);
    var commits: seq<CitedCommit> := [];
    if candidates != [] && injections != map[] {
      commits := cited;
    }
    commits := StableSort(commits, CommitLe);
    var odd := OddRejections(store, commits);
    var linked := PlanAll(candidates, store, injections, commits, changed, resolve);
    plan := Plan(linked.attributions, Done(done) + odd + linked.rejections);
  }

  // ---- What a plan means -----------------------------------------------------------------

  /** `c` is the earliest commit, by (author date, sha), that links `slug`. */
  ghost predicate FirstProof(store: Store, injections: map<string, int>, cited: seq<CitedCommit>,
                             changed: string -> seq<string>, slug: string, c: CitedCommit)
  {
    && Candidate(store, slug) && slug in injections && c in cited
    && Links(c, slug, store[slug], injections[slug], changed)
    && forall other | other in cited && Links(other, slug, store[slug], injections[slug], changed) ::
         CommitLe(c, other)
  }

  /** Every citing commit is turned down, for its own reason, or the slug as a whole is. */
  ghost predicate Explained(plan: Plan, slug: string, injections: map<string, int>, cited: seq<CitedCommit>) {
    if slug !in injections then Rejection(slug, None, NeverInjected) in plan.rejections
    else if forall c | c in cited :: slug !in c.slugs then Rejection(slug, None, NoCitingCommit) in plan.rejections
    else forall c | c in cited && slug in c.slugs ::
           exists reason ::
             (Rejection(slug, Some(c.sha), reason) in plan.rejections
              && reason in {TimestampUnparseable, CitedBeforeInjection, CitedNoPathOverlap})
  }

  /** The citing commits of a slug, earliest first. */
  function Citing(slug: string, commits: seq<CitedCommit>): seq<CitedCommit> {
    Where(commits, (c: CitedCommit) => slug in c.slugs)
  }

  lemma CitingSorted(slug: string, cited: seq<CitedCommit>)
    ensures var citing := Citing(slug, StableSort(cited, CommitLe));
            Sorted(citing, CommitLe) && forall c :: c in citing <==> c in cited && slug in c.slugs
  {
    var commits := StableSort(cited, CommitLe);
    var cites := (c: CitedCommit) => slug in c.slugs;
    SortPermutes(cited, CommitLe);
    SameElements(commits, cited);
    CommitOrder();
    SortSorts(cited, CommitLe);
    WhereIn(commits, cites);
    WhereSorted(commits, cites);
  }

  lemma {:induction false} WhereSorted(s: seq<CitedCommit>, keep: CitedCommit -> bool)
    requires Sorted(s, CommitLe)
    ensures Sorted(Where(s, keep), CommitLe)
  {
    if s != [] {
      var n := |s| - 1;
      WhereSorted(s[..n], keep);
      WhereIn(s[..n], keep);
      var w := Where(s[..n], keep);
      forall i | 0 <= i < |w|
        ensures CommitLe(w[i], s[n])
      {
        assert w[i] in s[..n];
        var k :| 0 <= k < n && s[k] == w[i];
      }
    }
  }

  lemma RefusedFirst(citing: seq<CitedCommit>, slug: string, item: Item, at: int, changed: string -> seq<string>)
    requires Sorted(citing, CommitLe) && forall c | c in citing :: slug in c.slugs
    ensures var n := Refused(citing, item, at, changed);
            && (n < |citing| ==> Links(citing[n], slug, item, at, changed))
            && forall c | c in citing && Links(c, slug, item, at, changed) ::
                 n < |citing| && CommitLe(citing[n], c)
  {
    var n := Refused(citing, item, at, changed);
    forall c | c in citing && Links(c, slug, item, at, changed)
      ensures n < |citing| && CommitLe(citing[n], c)
    {
      var k :| 0 <= k < |citing| && citing[k] == c;
      assert CommitReason(citing[k], item, at, changed).None?;
      LexTotal(c.sha, c.sha);
    }
  }

  /** The first citing commit that is not turned down is the first proof. */
  lemma ChosenIsFirst(store: Store, slug: string, injections: map<string, int>, cited: seq<CitedCommit>,
                      changed: string -> seq<string>)
    requires Candidate(store, slug) && slug in injections
    ensures var citing := Citing(slug, StableSort(cited, CommitLe));
            var n := Refused(citing, store[slug], injections[slug], changed);
            if n < |citing| then FirstProof(store, injections, cited, changed, slug, citing[n])
            else forall c | c in cited :: !Links(c, slug, store[slug], injections[slug], changed)
  {
    var citing := Citing(slug, StableSort(cited, CommitLe));
    CitingSorted(slug, cited);
    RefusedFirst(citing, slug, store[slug], injections[slug], changed);
  }

  /** With nothing planned, each citing commit is turned down for its reason. */
  lemma RefusalIn(slug: string, item: Item, injections: map<string, int>, commits: seq<CitedCommit>,
                  changed: string -> seq<string>, resolve: string -> TestsGreen, k: nat)
    requires slug in injections && k < |Citing(slug, commits)|
    requires PlanSlug(slug, item, injections, commits, changed, resolve).attributions == []
    ensures var c := Citing(slug, commits)[k];
            var why := CommitReason(c, item, injections[slug], changed);
            why.Some? && Rejection(slug, Some(c.sha), why.value)
                         in PlanSlug(slug, item, injections, commits, changed, resolve).rejections
  {
    var one := PlanSlug(slug, item, injections, commits, changed, resolve);
    var citing := Citing(slug, commits);
    assert Refused(citing, item, injections[slug], changed) == |citing| == |one.rejections|;
    assert one.rejections[k] in one.rejections;
  }

  lemma {:induction false} UnchosenIsExplained(store: Store, slug: string, injections: map<string, int>,
                                               cited: seq<CitedCommit>, changed: string -> seq<string>,
                                               resolve: string -> TestsGreen)
    requires Candidate(store, slug)
    ensures var one := PlanSlug(slug, store[slug], injections, StableSort(cited, CommitLe), changed, resolve);
            one.attributions == [] ==> Explained(one, slug, injections, cited)
  {
    var commits, item := StableSort(cited, CommitLe), store[slug];
    var one := PlanSlug(slug, item, injections, commits, changed, resolve);
    var citing := Citing(slug, commits);
    CitingSorted(slug, cited);
    assert citing != [] ==> citing[0] in citing;
    if one.attributions == [] {
      if slug in injections && citing != [] {
        forall c | c in cited && slug in c.slugs
          ensures exists reason ::
                    (Rejection(slug, Some(c.sha), reason) in one.rejections
                     && reason in {TimestampUnparseable, CitedBeforeInjection, CitedNoPathOverlap})
        {
          assert c in citing;
          var k :| 0 <= k < |citing| && citing[k] == c;
          RefusalIn(slug, item, injections, commits, changed, resolve, k);
          var reason := CommitReason(c, item, injections[slug], changed).value;
          assert Rejection(slug, Some(c.sha), reason) in one.rejections;
        }
      }
    }
  }

  /** A plan over distinct slugs is made of the outcomes of the single slugs. */
  lemma {:induction false} PlanSlugsParts(slugs: seq<string>, store: Store, injections: map<string, int>,
                                          commits: seq<CitedCommit>, changed: string -> seq<string>,
                                          resolve: string -> TestsGreen)
    requires forall slug | slug in slugs :: slug in store
    ensures var plan := PlanSlugs(slugs, store, injections, commits, changed, resolve);
            && (forall p :: p in plan.attributions <==>
                  && p.slug in slugs
                  && p in PlanSlug(p.slug, store[p.slug], injections, commits, changed, resolve).attributions)
            && (forall r :: r in plan.rejections <==>
                  && r.slug in slugs
                  && r in PlanSlug(r.slug, store[r.slug], injections, commits, changed, resolve).rejections)
            && (Distinct(slugs) ==> forall i, j | 0 <= i < j < |plan.attributions| ::
                  plan.attributions[i].slug != plan.attributions[j].slug)
  {
    if slugs != [] {
      var n := |slugs| - 1;
      PlanSlugsParts(slugs[..n], store, injections, commits, changed, resolve);
      var slug := slugs[n];
      assert slugs == slugs[..n] + [slug];
      var init := PlanSlugs(slugs[..n], store, injections, commits, changed, resolve);
      assert forall i | 0 <= i < |init.attributions| :: init.attributions[i] in init.attributions;
      PlanSlugLocal(slug, store[slug], injections, commits, changed, resolve);
    }
  }

  lemma PlanSlugLocal(slug: string, item: Item, injections: map<string, int>, commits: seq<CitedCommit>,
                      changed: string -> seq<string>, resolve: string -> TestsGreen)
    ensures var one := PlanSlug(slug, item, injections, commits, changed, resolve);
            && |one.attributions| <= 1
            && (forall p | p in one.attributions :: p.slug == slug)
            && (forall r | r in one.rejections ::
                  r.slug == slug && r.reason !in {AlreadyAttributed, UnknownSlug, NotColdTier})
  {
  }

  lemma PlannedOneIsFirst(store: Store, injections: map<string, int>, cited: seq<CitedCommit>,
                          changed: string -> seq<string>, resolve: string -> TestsGreen, p: Planned)
    requires Candidate(store, p.slug)
    requires var commits := StableSort(Evidence(store, injections, cited), CommitLe);
             p in PlanSlug(p.slug, store[p.slug], injections, commits, changed, resolve).attributions
    ensures exists c :: (FirstProof(store, injections, cited, changed, p.slug, c)
                         && p == Planned(p.slug, c.sha, Literal(resolve(c.sha))))
  {
    var seen := Evidence(store, injections, cited);
    ChosenIsFirst(store, p.slug, injections, seen, changed);
    var citing := Citing(p.slug, StableSort(seen, CommitLe));
    var n := Refused(citing, store[p.slug], injections[p.slug], changed);
    assert FirstProof(store, injections, cited, changed, p.slug, citing[n]);
  }

  /** Every planned attribution names the first proof of its slug, and no slug is planned twice. */
  lemma PlannedIsFirstProof(store: Store, injections: map<string, int>, cited: seq<CitedCommit>,
                            changed: string -> seq<string>, resolve: string -> TestsGreen)
    ensures var plan := PlanOf(store, injections, cited, changed, resolve);
            && (forall p | p in plan.attributions :: exists c ::
                  (FirstProof(store, injections, cited, changed, p.slug, c)
                   && p == Planned(p.slug, c.sha, Literal(resolve(c.sha)))))
            && (forall i, j | 0 <= i < j < |plan.attributions| ::
                  plan.attributions[i].slug != plan.attributions[j].slug)
  {
    CandidatesInStore(store);
    var plan := PlanOf(store, injections, cited, changed, resolve);
    var seen := Evidence(store, injections, cited);
    var commits := StableSort(seen, CommitLe);
    PlanSlugsParts(Candidates(store), store, injections, commits, changed, resolve);
    forall p | p in plan.attributions
      ensures exists c :: (FirstProof(store, injections, cited, changed, p.slug, c)
                           && p == Planned(p.slug, c.sha, Literal(resolve(c.sha))))
    {
      PlannedOneIsFirst(store, injections, cited, changed, resolve, p);
    }
  }

  ghost predicate PlansFor(plan: Plan, slug: string) {
    exists p :: p in plan.attributions && p.slug == slug
  }

  /** A candidate is planned exactly when some commit links it. */
  lemma PlannedIffLinked(store: Store, injections: map<string, int>, cited: seq<CitedCommit>,
                         changed: string -> seq<string>, resolve: string -> TestsGreen, slug: string)
    requires Candidate(store, slug)
    ensures PlansFor(PlanOf(store, injections, cited, changed, resolve), slug) <==>
            slug in injections && exists c :: c in cited && Links(c, slug, store[slug], injections[slug], changed)
  {
    CandidatesInStore(store);
    var plan := PlanOf(store, injections, cited, changed, resolve);
    var commits := StableSort(Evidence(store, injections, cited), CommitLe);
    PlanSlugsParts(Candidates(store), store, injections, commits, changed, resolve);
    PlannedIsFirstProof(store, injections, cited, changed, resolve);
    if slug in injections {
      assert Evidence(store, injections, cited) == cited;
      ChosenIsFirst(store, slug, injections, cited, changed);
      var citing := Citing(slug, commits);
      var n := Refused(citing, store[slug], injections[slug], changed);
      if n < |citing| {
        var p := Planned(slug, citing[n].sha, Literal(resolve(citing[n].sha)));
        assert p in PlanSlug(slug, store[slug], injections, commits, changed, resolve).attributions;
        assert p in plan.attributions;
        assert PlansFor(plan, slug);
      }
    }
  }

  /** One commit per sha. */
  ghost predicate ShasIdentify(cited: seq<CitedCommit>) {
    forall a, b | a in cited && b in cited && a.sha == b.sha :: a == b
  }

  /** A candidate stays unplanned exactly when the rejections explain it. */
  lemma UnplannedIffExplained(store: Store, injections: map<string, int>, cited: seq<CitedCommit>,
                              changed: string -> seq<string>, resolve: string -> TestsGreen, slug: string)
    requires Candidate(store, slug) && ShasIdentify(cited)
    ensures var plan := PlanOf(store, injections, cited, changed, resolve);
            !PlansFor(plan, slug) <==> Explained(plan, slug, injections, cited)
  {
    CandidatesInStore(store);
    var plan := PlanOf(store, injections, cited, changed, resolve);
    var seen := Evidence(store, injections, cited);
    var commits := StableSort(seen, CommitLe);
    var one := PlanSlug(slug, store[slug], injections, commits, changed, resolve);
    PlanSlugsParts(Candidates(store), store, injections, commits, changed, resolve);
    RejectionsOf(store, injections, cited, changed, resolve, slug);
    assert Explained(plan, slug, injections, cited) <==> Explained(one, slug, injections, cited);
    UnchosenIsExplained(store, slug, injections, seen, changed, resolve);
    assert slug in injections ==> seen == cited;
    if one.attributions == [] {
      forall p | p in plan.attributions
        ensures p.slug != slug
      {
      }
    } else {
      ChosenIsUnexplained(store, slug, injections, cited, changed, resolve);
      assert one.attributions[0] in plan.attributions && one.attributions[0].slug == slug;
    }
  }

  /** The rejections of a candidate are those of its own walk. */
  lemma RejectionsOf(store: Store, injections: map<string, int>, cited: seq<CitedCommit>,
                     changed: string -> seq<string>, resolve: string -> TestsGreen, slug: string)
    requires Candidate(store, slug)
    ensures var commits := StableSort(Evidence(store, injections, cited), CommitLe);
            var one := PlanSlug(slug, store[slug], injections, commits, changed, resolve);
            forall r: Rejection | r.slug == slug ::
              r in PlanOf(store, injections, cited, changed, resolve).rejections <==> r in one.rejections
  {
    CandidatesInStore(store);
    var commits := StableSort(Evidence(store, injections, cited), CommitLe);
    PlanSlugsParts(Candidates(store), store, injections, commits, changed, resolve);
    var attributed := slug => Attributed(store, slug);
    WhereIn(Listing(store.Keys), attributed);
    OddSlugs(store, Citations(commits));
    forall r | r in Done(Where(Listing(store.Keys), attributed))
      ensures r.slug != slug
    {
      assert r.slug in Where(Listing(store.Keys), attributed);
    }
  }

  lemma {:induction false} OddSlugs(store: Store, citations: seq<(string, string)>)
    ensures forall pair | pair in OddPairs(store, citations) :: !Candidate(store, pair.0)
    ensures forall r | r in OddCitations(store, OddPairs(store, citations)) :: !Candidate(store, r.slug)
  {
    if citations != [] {
      var init := citations[..|citations| - 1];
      OddSlugs(store, init);
      OddPairsSnoc(store, init, citations[|citations| - 1]);
      assert citations == init + [citations[|citations| - 1]];
      OddCitationsSnoc(store, OddPairs(store, init), citations[|citations| - 1]);
    }
  }

  // ---- Which rejections a plan makes ---------------------------------------------------------------

  /** `c` cites the slug and comes before every commit that links it. */
  ghost predicate TurnedDown(store: Store, injections: map<string, int>, cited: seq<CitedCommit>,
                             changed: string -> seq<string>, slug: string, c: CitedCommit)
  {
    && Candidate(store, slug) && slug in injections && c in cited && slug in c.slugs
    && forall other | other in cited && Links(other, slug, store[slug], injections[slug], changed) ::
         CommitLe(c, other) && c != other
  }

  /** The rejection names this commit, which is turned down for that reason. */
  ghost predicate TurnedDownFor(store: Store, injections: map<string, int>, cited: seq<CitedCommit>,
                                changed: string -> seq<string>, r: Rejection, c: CitedCommit)
  {
    && TurnedDown(store, injections, cited, changed, r.slug, c) && r.sha == Some(c.sha)
    && match r.reason
       case TimestampUnparseable => c.authored.None?
       case CitedBeforeInjection => c.authored.Some? && c.authored.value < injections[r.slug]
       case CitedNoPathOverlap =>
         && c.authored.Some? && c.authored.value >= injections[r.slug]
         && !Overlaps(changed(c.sha), store[r.slug].paths)
       case _ => false
  }

  /** The plan looks for commits at all: something could be attributed and something was injected. */
  ghost predicate Looks(store: Store, injections: map<string, int>) {
    (exists slug :: Candidate(store, slug)) && exists slug :: slug in injections
  }

  ghost predicate Cites(cited: seq<CitedCommit>, slug: string, sha: Option<string>) {
    exists c :: c in cited && slug in c.slugs && sha == Some(c.sha)
  }

  /** The rejection gives the reason that its slug and its commit call for. */
  ghost predicate Justified(store: Store, injections: map<string, int>, cited: seq<CitedCommit>,
                            changed: string -> seq<string>, r: Rejection)
  {
    match r.reason
    case AlreadyAttributed =>
      r.sha.None? && r.slug in store && store[r.slug].tier == Cold && RealSha(store[r.slug].actedOn).Some?
    case NeverInjected => r.sha.None? && Candidate(store, r.slug) && r.slug !in injections
    case NoCitingCommit =>
      && r.sha.None? && Candidate(store, r.slug) && r.slug in injections
      && forall c | c in cited :: r.slug !in c.slugs
    case UnknownSlug => Looks(store, injections) && r.slug !in store && Cites(cited, r.slug, r.sha)
    case NotColdTier =>
      Looks(store, injections) && r.slug in store && store[r.slug].tier != Cold && Cites(cited, r.slug, r.sha)
    case _ => WalkRejects(store, injections, cited, changed, r)
  }

  /** Some commit is turned down for that reason. */
  ghost predicate WalkRejects(store: Store, injections: map<string, int>, cited: seq<CitedCommit>,
                              changed: string -> seq<string>, r: Rejection)
  {
    exists c :: TurnedDownFor(store, injections, cited, changed, r, c)
  }

  /** The commits passed over by the walk come before every linking one. */
  lemma RefusedAreTurnedDown(store: Store, injections: map<string, int>, cited: seq<CitedCommit>,
                             changed: string -> seq<string>, slug: string, k: nat)
    requires Candidate(store, slug) && slug in injections
    requires k < Refused(Citing(slug, StableSort(cited, CommitLe)), store[slug], injections[slug], changed)
    ensures TurnedDown(store, injections, cited, changed, slug, Citing(slug, StableSort(cited, CommitLe))[k])
  {
    var item, at := store[slug], injections[slug];
    var citing := Citing(slug, StableSort(cited, CommitLe));
    CitingSorted(slug, cited);
    assert citing[k] in citing;
    forall other | other in cited && Links(other, slug, item, at, changed)
      ensures CommitLe(citing[k], other) && citing[k] != other
    {
      RefusedIsBefore(citing, slug, item, at, changed, k, other);
    }
  }

  /** And these are all that cite the slug and do so. */
  lemma TurnedDownAreRefused(store: Store, injections: map<string, int>, cited: seq<CitedCommit>,
                             changed: string -> seq<string>, slug: string, c: CitedCommit)
    returns (k: nat)
    requires ShasIdentify(cited) && TurnedDown(store, injections, cited, changed, slug, c)
    ensures var citing := Citing(slug, StableSort(cited, CommitLe));
            k < Refused(citing, store[slug], injections[slug], changed) && citing[k] == c
  {
    var item, at := store[slug], injections[slug];
    var citing := Citing(slug, StableSort(cited, CommitLe));
    var n := Refused(citing, item, at, changed);
    CitingSorted(slug, cited);
    RefusedFirst(citing, slug, item, at, changed);
    assert c in citing;
    k :| k < |citing| && citing[k] == c;
    if n < |citing| && n <= k {
      assert citing[n] in citing;
      FirstIsLeast(citing, n, k);
      CommitAntisymmetric(c, citing[n], cited);
    }
  }

  lemma FirstIsLeast(citing: seq<CitedCommit>, n: nat, k: nat)
    requires Sorted(citing, CommitLe) && n <= k < |citing|
    ensures CommitLe(citing[n], citing[k])
  {
    CommitOrder();
  }

  lemma CommitAntisymmetric(a: CitedCommit, b: CitedCommit, cited: seq<CitedCommit>)
    requires ShasIdentify(cited) && a in cited && b in cited && CommitLe(a, b) && CommitLe(b, a)
    ensures a == b
  {
    LexAntisymmetric(a.sha, b.sha);
  }

  lemma RefusedIsBefore(citing: seq<CitedCommit>, slug: string, item: Item, at: int, changed: string -> seq<string>,
                        k: nat, other: CitedCommit)
    requires Sorted(citing, CommitLe) && k < Refused(citing, item, at, changed)
    requires other in citing && Links(other, slug, item, at, changed)
    ensures CommitLe(citing[k], other) && citing[k] != other
  {
    var n := Refused(citing, item, at, changed);
    var m :| 0 <= m < |citing| && citing[m] == other;
    assert CommitReason(other, item, at, changed).None?;
    assert k < m;
  }

  lemma {:induction false} CitationsExact(commits: seq<CitedCommit>, pair: (string, string))
    ensures pair in Citations(commits) <==> exists c :: c in commits && pair.0 in c.slugs && c.sha == pair.1
  {
    if commits != [] {
      var init, last := commits[..|commits| - 1], commits[|commits| - 1];
      assert commits == init + [last];
      CitationsExact(init, pair);
      if pair.0 in last.slugs && last.sha == pair.1 {
        var j :| 0 <= j < |last.slugs| && last.slugs[j] == pair.0;
        assert CitationsOf(last)[j] == pair;
        assert pair in CitationsOf(last);
      }
      if pair in CitationsOf(last) {
        assert pair.0 in last.slugs && last.sha == pair.1 && last in commits;
      }
    }
  }

  lemma {:induction false} OddPairsExact(store: Store, citations: seq<(string, string)>, pair: (string, string))
    ensures pair in OddPairs(store, citations) <==> pair in citations && !Candidate(store, pair.0)
  {
    if citations != [] {
      var init, last := citations[..|citations| - 1], citations[|citations| - 1];
      assert citations == init + [last];
      OddPairsExact(store, init, pair);
      OddPairsSnoc(store, init, last);
    }
  }

  /** Its slug is no item, or an item above the cold tier, and the rejection says which. */
  predicate IsOdd(store: Store, r: Rejection) {
    && r.sha.Some?
    && if r.slug !in store then r.reason == UnknownSlug else store[r.slug].tier != Cold && r.reason == NotColdTier
  }

  lemma {:induction false} OddCitationsExact(store: Store, pairs: seq<(string, string)>, r: Rejection)
    ensures r in OddCitations(store, pairs) <==> IsOdd(store, r) && (r.slug, r.sha.value) in pairs
  {
    if pairs != [] {
      var init, last := pairs[..|pairs| - 1], pairs[|pairs| - 1];
      assert pairs == init + [last];
      OddCitationsExact(store, init, r);
      OddCitationsSnoc(store, init, last);
    }
  }

  lemma OddExact(store: Store, commits: seq<CitedCommit>, r: Rejection)
    ensures r in OddCitations(store, OddPairs(store, Citations(commits))) <==>
            IsOdd(store, r) && Cites(commits, r.slug, r.sha)
  {
    OddCitationsExact(store, OddPairs(store, Citations(commits)), r);
    if IsOdd(store, r) {
      OddPairsExact(store, Citations(commits), (r.slug, r.sha.value));
      CitationsExact(commits, (r.slug, r.sha.value));
    }
  }

  lemma ReasonFits(store: Store, injections: map<string, int>, cited: seq<CitedCommit>,
                   changed: string -> seq<string>, r: Rejection, c: CitedCommit)
    requires TurnedDown(store, injections, cited, changed, r.slug, c)
    ensures TurnedDownFor(store, injections, cited, changed, r, c) <==>
            r.sha == Some(c.sha) && CommitReason(c, store[r.slug], injections[r.slug], changed) == Some(r.reason)
  {
  }

  lemma RefusalRejects(store: Store, injections: map<string, int>, cited: seq<CitedCommit>,
                       changed: string -> seq<string>, r: Rejection, k: nat)
    requires Candidate(store, r.slug) && r.slug in injections
    requires var citing := Citing(r.slug, StableSort(cited, CommitLe));
             && k < Refused(citing, store[r.slug], injections[r.slug], changed) && r.sha == Some(citing[k].sha)
             && CommitReason(citing[k], store[r.slug], injections[r.slug], changed) == Some(r.reason)
    ensures WalkRejects(store, injections, cited, changed, r)
  {
    var c := Citing(r.slug, StableSort(cited, CommitLe))[k];
    RefusedAreTurnedDown(store, injections, cited, changed, r.slug, k);
    ReasonFits(store, injections, cited, changed, r, c);
  }

  /** The rejections of the walk over the citing commits of one candidate. */
  lemma {:induction false} WalkExact(store: Store, injections: map<string, int>, cited: seq<CitedCommit>,
                                     changed: string -> seq<string>, resolve: string -> TestsGreen, r: Rejection)
    requires Candidate(store, r.slug) && ShasIdentify(cited) && r.slug in injections
    requires Citing(r.slug, StableSort(cited, CommitLe)) != []
    ensures var one := PlanSlug(r.slug, store[r.slug], injections, StableSort(cited, CommitLe), changed, resolve);
            r in one.rejections <==> WalkRejects(store, injections, cited, changed, r)
  {
    var item, at, commits := store[r.slug], injections[r.slug], StableSort(cited, CommitLe);
    var citing := Citing(r.slug, commits);
    WalkLists(r.slug, item, injections, commits, changed, resolve, r);
    if k: nat :| k < Refused(citing, item, at, changed) && r.sha == Some(citing[k].sha)
                 && CommitReason(citing[k], item, at, changed) == Some(r.reason) {
      RefusalRejects(store, injections, cited, changed, r, k);
    }
    if c :| TurnedDownFor(store, injections, cited, changed, r, c) {
      ReasonFits(store, injections, cited, changed, r, c);
      var k := TurnedDownAreRefused(store, injections, cited, changed, r.slug, c);
    }
  }

  lemma WalkLists(slug: string, item: Item, injections: map<string, int>, commits: seq<CitedCommit>,
                  changed: string -> seq<string>, resolve: string -> TestsGreen, r: Rejection)
    requires slug in injections && Citing(slug, commits) != [] && r.slug == slug
    ensures var citing := Citing(slug, commits);
            var n := Refused(citing, item, injections[slug], changed);
            r in PlanSlug(slug, item, injections, commits, changed, resolve).rejections <==>
            exists k: nat | k < n ::
              r.sha == Some(citing[k].sha) && CommitReason(citing[k], item, injections[slug], changed) == Some(r.reason)
  {
    var citing := Citing(slug, commits);
    var n := Refused(citing, item, injections[slug], changed);
    var refusals := PlanSlug(slug, item, injections, commits, changed, resolve).rejections;
    assert |refusals| == n;
    if k: nat :| k < n && r.sha == Some(citing[k].sha)
                 && CommitReason(citing[k], item, injections[slug], changed) == Some(r.reason) {
      assert refusals[k] == r;
    }
    if r in refusals {
      var k: nat :| k < n && refusals[k] == r;
      assert CommitReason(citing[k], item, injections[slug], changed) == Some(r.reason);
    }
  }

  lemma NoneCites(slug: string, cited: seq<CitedCommit>)
    ensures Citing(slug, StableSort(cited, CommitLe)) == [] <==> forall c | c in cited :: slug !in c.slugs
  {
    var citing := Citing(slug, StableSort(cited, CommitLe));
    CitingSorted(slug, cited);
    assert citing != [] ==> citing[0] in citing;
  }

  /** The rejections of one candidate. */
  lemma {:induction false} OneExact(store: Store, injections: map<string, int>, cited: seq<CitedCommit>,
                                    changed: string -> seq<string>, resolve: string -> TestsGreen, r: Rejection)
    requires Candidate(store, r.slug) && ShasIdentify(cited) && r.slug in injections
    ensures var one := PlanSlug(r.slug, store[r.slug], injections, StableSort(cited, CommitLe), changed, resolve);
            r in one.rejections <==> Justified(store, injections, cited, changed, r)
  {
    NoneCites(r.slug, cited);
    PlanSlugLocal(r.slug, store[r.slug], injections, StableSort(cited, CommitLe), changed, resolve);
    if Citing(r.slug, StableSort(cited, CommitLe)) != [] {
      WalkExact(store, injections, cited, changed, resolve, r);
      WalkLists(r.slug, store[r.slug], injections, StableSort(cited, CommitLe), changed, resolve, r);
    }
  }

  lemma NeverExact(store: Store, injections: map<string, int>, cited: seq<CitedCommit>, commits: seq<CitedCommit>,
                   changed: string -> seq<string>, resolve: string -> TestsGreen, r: Rejection)
    requires Candidate(store, r.slug) && r.slug !in injections
    ensures r in PlanSlug(r.slug, store[r.slug], injections, commits, changed, resolve).rejections <==>
            Justified(store, injections, cited, changed, r)
  {
    assert !WalkRejects(store, injections, cited, changed, r);
  }

  lemma CandidateExact(store: Store, injections: map<string, int>, cited: seq<CitedCommit>,
                       changed: string -> seq<string>, resolve: string -> TestsGreen, r: Rejection)
    requires Candidate(store, r.slug) && ShasIdentify(cited)
    ensures var commits := StableSort(Evidence(store, injections, cited), CommitLe);
            r in PlanSlug(r.slug, store[r.slug], injections, commits, changed, resolve).rejections <==>
            Justified(store, injections, cited, changed, r)
  {
    if r.slug in injections {
      LooksExact(store, injections, cited);
      assert Evidence(store, injections, cited) == cited;
      OneExact(store, injections, cited, changed, resolve, r);
    } else {
      var commits := StableSort(Evidence(store, injections, cited), CommitLe);
      NeverExact(store, injections, cited, commits, changed, resolve, r);
    }
  }

  lemma OtherParts(store: Store, injections: map<string, int>, cited: seq<CitedCommit>,
                   changed: string -> seq<string>, resolve: string -> TestsGreen, r: Rejection)
    requires !Candidate(store, r.slug)
    ensures r in PlanOf(store, injections, cited, changed, resolve).rejections <==>
            || (r.reason == AlreadyAttributed && r.sha.None? && Attributed(store, r.slug))
            || (IsOdd(store, r) && Cites(StableSort(Evidence(store, injections, cited), CommitLe), r.slug, r.sha))
  {
    CandidatesInStore(store);
    var commits := StableSort(Evidence(store, injections, cited), CommitLe);
    var linked := PlanSlugs(Candidates(store), store, injections, commits, changed, resolve).rejections;
    OddExact(store, commits, r);
    DoneExact(store, r);
    PlanSlugsParts(Candidates(store), store, injections, commits, changed, resolve);
    assert r !in linked;
  }

  lemma CitesSorted(cited: seq<CitedCommit>, slug: string, sha: Option<string>)
    ensures Cites(StableSort(cited, CommitLe), slug, sha) == Cites(cited, slug, sha)
  {
    SortPermutes(cited, CommitLe);
    SameElements(StableSort(cited, CommitLe), cited);
  }

  /** The rejections of a slug that is no candidate. */
  lemma OtherExact(store: Store, injections: map<string, int>, cited: seq<CitedCommit>,
                   changed: string -> seq<string>, resolve: string -> TestsGreen, r: Rejection)
    requires !Candidate(store, r.slug)
    ensures r in PlanOf(store, injections, cited, changed, resolve).rejections <==>
            Justified(store, injections, cited, changed, r)
  {
    OtherParts(store, injections, cited, changed, resolve, r);
    LooksExact(store, injections, cited);
    CitesSorted(Evidence(store, injections, cited), r.slug, r.sha);
    assert !WalkRejects(store, injections, cited, changed, r);
  }

  /** A plan makes exactly the rejections that are justified, each for its own reason. */
  lemma RejectionsExact(store: Store, injections: map<string, int>, cited: seq<CitedCommit>,
                        changed: string -> seq<string>, resolve: string -> TestsGreen, r: Rejection)
    requires ShasIdentify(cited)
    ensures r in PlanOf(store, injections, cited, changed, resolve).rejections <==>
            Justified(store, injections, cited, changed, r)
  {
    if Candidate(store, r.slug) {
      RejectionsOf(store, injections, cited, changed, resolve, r.slug);
      CandidateExact(store, injections, cited, changed, resolve, r);
    } else {
      OtherExact(store, injections, cited, changed, resolve, r);
    }
  }

  lemma LooksExact(store: Store, injections: map<string, int>, cited: seq<CitedCommit>)
    ensures Evidence(store, injections, cited) == if Looks(store, injections) then cited else []
  {
    CandidatesInStore(store);
    if Candidates(store) != [] {
      assert Candidates(store)[0] in Candidates(store);
    }
    if injections != map[] {
      var slug := Seqs.AnElement(injections.Keys);
    }
  }

  lemma DoneExact(store: Store, r: Rejection)
    ensures r in Done(Where(Listing(store.Keys), slug => Attributed(store, slug))) <==>
            r.reason == AlreadyAttributed && r.sha.None? && Attributed(store, r.slug)
  {
    var slugs := Where(Listing(store.Keys), slug => Attributed(store, slug));
    WhereIn(Listing(store.Keys), slug => Attributed(store, slug));
    if r.reason == AlreadyAttributed && r.sha.None? && Attributed(store, r.slug) {
      assert r.slug in slugs;
      var i :| 0 <= i < |slugs| && slugs[i] == r.slug;
      assert Done(slugs)[i] == r;
    }
  }

  /** The chosen commit carries no rejection. */
  lemma {:induction false} ChosenIsUnexplained(store: Store, slug: string, injections: map<string, int>,
                                               cited: seq<CitedCommit>, changed: string -> seq<string>,
                                               resolve: string -> TestsGreen)
    requires Candidate(store, slug) && ShasIdentify(cited)
    ensures var one := PlanSlug(slug, store[slug], injections, StableSort(cited, CommitLe), changed, resolve);
            one.attributions != [] ==> !Explained(one, slug, injections, cited)
  {
    var commits := StableSort(cited, CommitLe);
    var one := PlanSlug(slug, store[slug], injections, commits, changed, resolve);
    if one.attributions != [] {
      CitingSorted(slug, cited);
      var citing := Citing(slug, commits);
      var n := Refused(citing, store[slug], injections[slug], changed);
      var c := citing[n];
      assert c in citing && c in cited;
      forall k | 0 <= k < n
        ensures one.rejections[k].sha != Some(c.sha)
      {
        assert citing[k] in citing;
      }
    }
  }

  /** With one commit per sha, the order in which the commits are listed does not matter. */
  lemma PlanOrderFree(store: Store, injections: map<string, int>, a: seq<CitedCommit>, b: seq<CitedCommit>,
                      changed: string -> seq<string>, resolve: string -> TestsGreen)
    requires multiset(a) == multiset(b) && ShasIdentify(a)
    ensures PlanOf(store, injections, a, changed, resolve) == PlanOf(store, injections, b, changed, resolve)
  {
    CommitOrder();
    SortPermutes(a, CommitLe);
    SortPermutes(b, CommitLe);
    SortSorts(a, CommitLe);
    SortSorts(b, CommitLe);
    var s, t := StableSort(a, CommitLe), StableSort(b, CommitLe);
    SameElements(s, a);
    forall x, y | x in s && y in s && CommitLe(x, y) && CommitLe(y, x)
      ensures x == y
    {
      LexAntisymmetric(x.sha, y.sha);
    }
    SortedUnique(s, t, CommitLe);
  }
}
