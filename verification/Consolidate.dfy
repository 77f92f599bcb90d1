/** The campaign-close pass (consolidate.py): promotion gate, usage decay, and applying both. */
module Consolidate {
  import opened Attribution
  import opened AttributionApply
  import opened CiStatus
  import opened DaySets
  import opened Knowledge
  import opened Listings
  import opened Ordering
  import opened Promotion
  import opened Wrappers
  import Text

  // ---- The promotion gate ------------------------------------------------------------

  datatype GateReason = NoCommit | NotASha | NotGreen(green: TestsGreen)

  /** Why the gate holds a cold item back. */
  predicate HeldBack(item: Item, why: GateReason) {
    match why
    case NoCommit => item.actedOn.None? || Text.Strip(item.actedOn.value) == ""
    case NotASha => item.actedOn.Some? && Text.Strip(item.actedOn.value) != "" && RealSha(item.actedOn).None?
    case NotGreen(green) => RealSha(item.actedOn).Some? && item.testsGreen != True && green == item.testsGreen
  }

  predicate Eligible(item: Item) {
    item.tier == Cold && RealSha(item.actedOn).Some? && item.testsGreen == True
  }

  /** `gate_promotions` over the listed slugs. */
  method GatePromotions(store: Store, slugs: seq<string>)
    returns (eligible: seq<string>, rejections: seq<(string, GateReason)>)
    requires forall slug | slug in slugs :: slug in store
    ensures eligible == Where(slugs, slug => slug in store && Eligible(store[slug]))
    ensures forall slug, why :: (slug, why) in rejections <==>
              slug in slugs && store[slug].tier == Cold && HeldBack(store[slug], why)
  {
    eligible, rejections := [], [];
    for i := 0 to |slugs|
      invariant eligible == Where(slugs[..i], slug => slug in store && Eligible(store[slug]))
      invariant forall slug, why :: (slug, why) in rejections <==>
                  slug in slugs[..i] && store[slug].tier == Cold && HeldBack(store[slug], why)
    {
      var slug := slugs[i];
      assert slugs[..i + 1][..i] == slugs[..i] && slugs[..i + 1] == slugs[..i] + [slug];
      var item := store[slug];
      if item.tier != Cold {
        continue;
      }
      if RealSha(item.actedOn).None? {
        var why := if item.actedOn.None? || Text.Strip(item.actedOn.value) == "" then NoCommit else NotASha;
        rejections := rejections + [(slug, why)];
        continue;
      }
      if item.testsGreen != True {
        rejections := rejections + [(slug, NotGreen(item.testsGreen))];
        continue;
      }
      eligible := eligible + [slug];
    }
    assert slugs[..|slugs|] == slugs;
  }

  // ---- Usage decay ---------------------------------------------------------------------

  function Days(fields: seq<DateField>): seq<int> {
    if fields == [] then []
    else Days(fields[..|fields| - 1]) + if fields[|fields| - 1].Day? then [fields[|fields| - 1].day] else []
  }

  /** The first day of the window, from the campaign history or else the current campaign. */
  function Boundary(current: DateField, threshold: int, starts: seq<DateField>): Option<int> {
    var parsed := SortDays(Days(starts));
    if parsed != [] then
      SortPermutes(Days(starts), (a: int, b: int) => a <= b);
      Some(parsed[Max(0, |parsed| - Max(1, threshold))])
    else if current.Day? then Some(current.day)
    else None
  }

  /** `_is_stale`. */
  predicate IsStale(last: DateField, current: DateField, threshold: int, starts: seq<DateField>) {
    if last.Blank? then true
    else
      var boundary := Boundary(current, threshold, starts);
      last.Day? && boundary.Some? && last.day < boundary.value
  }

  /** The index into the sorted history is a count of missed campaigns. */
  lemma StaleIsCounting(last: int, current: DateField, threshold: int, starts: seq<DateField>)
    requires Days(starts) != []
    ensures IsStale(Day(last), current, threshold, starts) <==>
            CountLater(Days(starts), last) >= Min(Max(1, threshold), |Days(starts)|)
  {
    SortedDaysCount(Days(starts), last, Min(Max(1, threshold), |Days(starts)|));
  }

  /** When an item counts as stale: never injected; or injected before enough campaign starts, or before the current
      campaign when there is no readable start at all; never if the date of its injection cannot be read. */
  lemma StaleExact(last: DateField, current: DateField, threshold: int, starts: seq<DateField>)
    ensures IsStale(last, current, threshold, starts) <==>
              match last
              case Blank => true
              case Unparseable => false
              case Day(day) =>
                if Days(starts) == [] then current.Day? && day < current.day
                else CountLater(Days(starts), day) >= Min(Max(1, threshold), |Days(starts)|)
  {
    if last.Day? && Days(starts) != [] {
      StaleIsCounting(last.day, current, threshold, starts);
    } else {
      assert SortDays([]) == [];
    }
  }

  /** Raising the threshold never makes a fresh item stale. */
  lemma StaleIsMonotone(last: DateField, current: DateField, low: int, high: int, starts: seq<DateField>)
    requires low <= high && IsStale(last, current, high, starts)
    ensures IsStale(last, current, low, starts)
  {
    if last.Day? && Days(starts) != [] {
      StaleIsCounting(last.day, current, low, starts);
      StaleIsCounting(last.day, current, high, starts);
    } else if last.Day? {
      assert SortDays(Days(starts)) == [];
    }
  }

  datatype Decay = WarmToCold | HotToWarm

  /** What usage decay does to an item, when it acts on it. */
  function DecayFor(item: Item, current: DateField, threshold: int, starts: seq<DateField>): Option<Decay> {
    if item.tier == Cold || item.pinned || !IsStale(item.lastInjected, current, threshold, starts) then None
    else Some(if item.tier == Warm then WarmToCold else HotToWarm)
  }

  /** `decay_warm` over the listed slugs. */
  method DecayWarm(store: Store, slugs: seq<string>, current: DateField, threshold: int, starts: seq<DateField>)
    returns (decays: seq<string>, keeps: seq<string>)
    requires forall slug | slug in slugs :: slug in store
    ensures decays == Where(slugs, slug => slug in store && DecayFor(store[slug], current, threshold, starts).Some?)
    ensures forall slug :: slug in keeps <==>
              slug in slugs && store[slug].tier != Cold &&
              (store[slug].pinned || !IsStale(store[slug].lastInjected, current, threshold, starts))
  {
    decays, keeps := [], [];
    for i := 0 to |slugs|
      invariant decays == Where(slugs[..i],
                                slug => slug in store && DecayFor(store[slug], current, threshold, starts).Some?)
      invariant forall slug :: slug in keeps <==>
                  slug in slugs[..i] && store[slug].tier != Cold &&
                  (store[slug].pinned || !IsStale(store[slug].lastInjected, current, threshold, starts))
    {
      var slug := slugs[i];
      assert slugs[..i + 1][..i] == slugs[..i] && slugs[..i + 1] == slugs[..i] + [slug];
      var item := store[slug];
      if item.tier == Cold {
        continue;
      }
      if item.pinned || !IsStale(item.lastInjected, current, threshold, starts) {
        keeps := keeps + [slug];
        continue;
      }
      decays := decays + [slug];
    }
    assert slugs[..|slugs|] == slugs;
  }

  // ---- Campaign starts -------------------------------------------------------------------

  /** `slug` carries the earliest readable creation day of its campaign. */
  predicate Opens(store: Store, slug: string) {
    && slug in store && store[slug].campaign != "" && store[slug].created.Day?
    && forall other | other in store && store[other].campaign == store[slug].campaign && store[other].created.Day? ::
         store[slug].created.day <= store[other].created.day
  }

  /** One start per campaign, and the current one. */
  function StartDays(store: Store, current: DateField): set<int> {
    (set slug | slug in store && Opens(store, slug) :: store[slug].created.day)
    + if current.Day? then {current.day} else {}
  }

  ghost function Starts(store: Store, current: DateField): seq<DateField> {
    var days := SortedDays(StartDays(store, current));
    seq(|days|, i requires 0 <= i < |days| => Day(days[i]))
  }

  /** The smallest creation day of each campaign among `slugs`. */
  ghost predicate Earliest(store: Store, slugs: seq<string>, earliest: map<string, int>) {
    && (forall slug | slug in slugs && slug in store && store[slug].campaign != "" && store[slug].created.Day? ::
          store[slug].campaign in earliest && earliest[store[slug].campaign] <= store[slug].created.day)
    && (forall cid | cid in earliest :: cid != "" &&
          exists slug :: slug in slugs && slug in store
            && store[slug].campaign == cid && store[slug].created == Day(earliest[cid]))
  }

  /** The dict of `_derive_campaign_starts`. */
  method EarliestByCampaign(store: Store, slugs: seq<string>) returns (earliest: map<string, int>)
    requires forall slug | slug in slugs :: slug in store
    ensures Earliest(store, slugs, earliest)
  {
    earliest := map[];
    for i := 0 to |slugs|
      invariant Earliest(store, slugs[..i], earliest)
    {
      var item := store[slugs[i]];
      if item.campaign == "" || !item.created.Day? {
        continue;
      }
      if item.campaign !in earliest || item.created.day < earliest[item.campaign] {
        earliest := earliest[item.campaign := item.created.day];
      }
    }
    assert slugs[..|slugs|] == slugs;
  }

  /** Some campaign has an item created that day and none created before. */
  predicate EarliestOfSome(store: Store, d: int) {
    exists slug | slug in store :: store[slug].campaign != "" && store[slug].created == Day(d) &&
      forall other | other in store && store[other].campaign == store[slug].campaign ::
        store[other].created.Day? ==> d <= store[other].created.day
  }

  lemma StartsExact(store: Store, current: DateField, d: int)
    ensures d in StartDays(store, current) <==> current == Day(d) || EarliestOfSome(store, d)
    ensures Day(d) in Starts(store, current) <==> d in StartDays(store, current)
  {
    var days := SortedDays(StartDays(store, current));
    if d in days {
      var i :| 0 <= i < |days| && days[i] == d;
      assert Starts(store, current)[i] == Day(d);
    }
    if slug :| slug in store && Opens(store, slug) && store[slug].created.day == d {
      assert EarliestOfSome(store, d);
    }
  }

  /** The days on which a campaign starts, and no others, each once and in order. */
  ghost predicate StartsInOrder(store: Store, current: DateField, starts: seq<DateField>) {
    && (forall d :: Day(d) in starts <==> current == Day(d) || EarliestOfSome(store, d))
    && forall i, j | 0 <= i < j < |starts| :: starts[i].Day? && starts[j].Day? && starts[i].day < starts[j].day
  }

  lemma StartsOrdered(store: Store, current: DateField)
    ensures StartsInOrder(store, current, Starts(store, current))
  {
    forall d {
      StartsExact(store, current, d);
    }
  }

  /** `_derive_campaign_starts`. */
  method DeriveCampaignStarts(store: Store, slugs: seq<string>, current: DateField) returns (starts: seq<DateField>)
    requires forall slug :: slug in slugs <==> slug in store
    ensures starts == Starts(store, current) && StartsInOrder(store, current, starts)
  {
    var earliest := EarliestByCampaign(store, slugs);
    var dates := earliest.Values;
    if current.Day? {
      dates := dates + {current.day};
    }
    assert dates == StartDays(store, current);
    var days := SortedSet(dates);
    starts := seq(|days|, i requires 0 <= i < |days| => Day(days[i]));
    StartsOrdered(store, current);
  }

  // ---- The whole pass ----------------------------------------------------------------------

  /** What the CI query for one sha brings back. */
  datatype Fetched = FetchFailed | Fetched(runs: seq<CheckRun>)

  /** `resolve_ci_status(...).tests_green`: fail-closed. */
  function Resolve(fetched: Fetched): TestsGreen {
    if fetched.FetchFailed? then Unknown else Verdict(fetched.runs)
  }

  /** Everything one `--apply` pass reads from outside the store. */
  datatype PassInput = PassInput(
    attribute: bool,                        // the attribution runner loads
    ledger: seq<InjectionRecord>,
    cited: seq<CitedCommit>,
    changed: string -> seq<string>,
    planFetch: string -> Fetched,           // CI as the planner sees it
    flipFetch: string -> Fetched,           // CI as Phase B sees it
    campaign: string,                       // "" considers every campaign
    current: DateField, threshold: int, today: int)

  ghost function AfterAttribution(store: Store, input: PassInput): Store {
    if !input.attribute then store
    else Applied(store, PlanOf(store, EarliestOf(input.ledger), input.cited, input.changed,
                               sha => Resolve(input.planFetch(sha))).attributions,
                 sha => Resolve(input.flipFetch(sha)))
  }

  predicate InScope(item: Item, campaign: string) {
    campaign == "" || item.campaign == campaign
  }

  /** Promotion, else decay, of one item. */
  function Settle(item: Item, input: PassInput, starts: seq<DateField>): Item {
    if Eligible(item) && InScope(item, input.campaign) then item.(tier := Warm, lastInjected := Day(input.today))
    else
      var decay := DecayFor(item, input.current, input.threshold, starts);
      if decay.None? then item else item.(tier := if decay.value == WarmToCold then Cold else Warm)
  }

  /** Since that day at least `threshold` campaigns have started, or all there are. */
  predicate MissedWindow(store: Store, current: DateField, threshold: int, last: int) {
    var starts := StartDays(store, current);
    starts != {} && |Later(starts, last)| >= Min(Max(1, threshold), |starts|)
  }

  lemma DaysBack(days: seq<int>)
    ensures Days(seq(|days|, i requires 0 <= i < |days| => Day(days[i]))) == days
  {
    var fields := seq(|days|, i requires 0 <= i < |days| => Day(days[i]));
    if days != [] {
      var n := |days| - 1;
      DaysBack(days[..n]);
      assert fields[..n] == seq(|days[..n]|, i requires 0 <= i < |days[..n]| => Day(days[..n][i]));
      assert days == days[..n] + [days[n]];
    }
  }

  lemma {:induction false} StaleIsMissed(store: Store, current: DateField, threshold: int, last: int)
    ensures IsStale(Day(last), current, threshold, Starts(store, current)) <==>
            MissedWindow(store, current, threshold, last)
  {
    var days := SortedDays(StartDays(store, current));
    DaysBack(days);
    CountLaterListed(days, StartDays(store, current), last);
    StaleExact(Day(last), current, threshold, Starts(store, current));
  }

  /** Unpinned and used, but never injected or not since the window began. */
  predicate OutOfUse(store: Store, item: Item, input: PassInput) {
    && !item.pinned && item.tier != Cold
    && match item.lastInjected
       case Blank => true
       case Unparseable => false
       case Day(last) => MissedWindow(store, input.current, input.threshold, last)
  }

  /** What becomes of `item` in a pass that finds it in `store`: a proved cold item in scope turns warm, a warm or hot
      one out of use goes down one tier, and every other one stays as it is. */
  predicate SettledTo(store: Store, item: Item, end: Item, input: PassInput) {
    if item.tier == Cold && RealSha(item.actedOn).Some? && item.testsGreen == True
       && (input.campaign == "" || item.campaign == input.campaign)
    then end == item.(tier := Warm, lastInjected := Day(input.today))
    else if OutOfUse(store, item, input) then
      match item.tier
      case Warm => end == item.(tier := Cold)
      case Hot => end == item.(tier := Warm)
      case Cold => false
    else end == item
  }

  /** The tier half of a pass, item by item. */
  lemma SettleExact(store: Store, input: PassInput, slug: string)
    requires slug in store
    ensures SettledTo(store, store[slug], Settle(store[slug], input, Starts(store, input.current)), input)
  {
    var item, starts := store[slug], Starts(store, input.current);
    StaleExact(item.lastInjected, input.current, input.threshold, starts);
    if item.lastInjected.Day? {
      StaleIsMissed(store, input.current, input.threshold, item.lastInjected.day);
    }
  }

  ghost function SettleAll(store: Store, input: PassInput): Store {
    map slug | slug in store :: Settle(store[slug], input, Starts(store, input.current))
  }

  /** The store after one applied pass. */
  ghost function AfterPass(store: Store, input: PassInput): Store {
    SettleAll(AfterAttribution(store, input), input)
  }

  /** The items of the promoted slugs. */
  function Batch(store: Store, slugs: seq<string>): seq<Promoted>
    requires forall slug | slug in slugs :: slug in store
  {
    if slugs == [] then []
    else
      var slug := slugs[|slugs| - 1];
      Batch(store, slugs[..|slugs| - 1]) + [Promoted(slug, store[slug])]
  }

  lemma MaterializedNext(site: Site, store: Store, slugs: seq<string>, i: nat)
    requires i < |slugs| && forall slug | slug in slugs :: slug in store
    ensures MaterializedAll(site, Batch(store, slugs[..i + 1])) ==
            Materialized(MaterializedAll(site, Batch(store, slugs[..i])), slugs[i], store[slugs[i]])
  {
    var init, one := Batch(store, slugs[..i]), Promoted(slugs[i], store[slugs[i]]);
    assert slugs[..i + 1][..i] == slugs[..i];
    assert (init + [one])[..|init|] == init;
  }

  /** `materialize`: the leaf document, the routes, and the item itself. */
  method Materialize(kb: KnowledgeBase, ws: Workspace, slug: string, item: Item, today: int)
    modifies kb, ws
    ensures ws.Contents() == Materialized(old(ws.Contents()), slug, item)
    ensures kb.items == old(kb.items)[slug := item.(tier := Warm, lastInjected := Day(today))]
  {
    ws.Materialize(slug, item);
    kb.items := kb.items[slug := item.(tier := Warm, lastInjected := Day(today))];
  }

  /** The store with the items of `slugs` promoted. */
  function PromotedStore(items: Store, slugs: seq<string>, today: int): Store {
    map slug | slug in items ::
      if slug in slugs then items[slug].(tier := Warm, lastInjected := Day(today)) else items[slug]
  }

  lemma PromotedNext(items: Store, slugs: seq<string>, i: nat, today: int)
    requires i < |slugs| && slugs[i] in items
    ensures PromotedStore(items, slugs[..i + 1], today) ==
            PromotedStore(items, slugs[..i], today)[slugs[i] :=
              items[slugs[i]].(tier := Warm, lastInjected := Day(today))]
  {
    assert slugs[..i + 1] == slugs[..i] + [slugs[i]];
  }

  /** The promotion half of apply, from the items as they were listed. */
  method ApplyPromotions(kb: KnowledgeBase, ws: Workspace, promotions: seq<string>, today: int)
    requires forall slug | slug in promotions :: slug in kb.items
    modifies kb, ws
    ensures ws.Contents() == MaterializedAll(old(ws.Contents()), Batch(old(kb.items), promotions))
    ensures kb.items == PromotedStore(old(kb.items), promotions, today)
  {
    var items := kb.items;
    ghost var site := ws.Contents();
    for i := 0 to |promotions|
      invariant ws.Contents() == MaterializedAll(site, Batch(items, promotions[..i]))
      invariant kb.items == PromotedStore(items, promotions[..i], today)
    {
      assert promotions[i] in promotions;
      PromotedNext(items, promotions, i, today);
      MaterializedNext(site, items, promotions, i);
      Materialize(kb, ws, promotions[i], items[promotions[i]], today);
    }
    assert promotions[..|promotions|] == promotions;
  }

  /** The decay half of apply, from the items as they were listed. */
  method ApplyDecays(kb: KnowledgeBase, items: Store, decays: seq<string>)
    requires forall slug | slug in decays :: slug in items && slug in kb.items && items[slug].tier != Cold
    modifies kb
    ensures kb.items == map slug | slug in old(kb.items) ::
              if slug !in decays then old(kb.items)[slug]
              else if items[slug].tier == Warm then items[slug].(tier := Cold)
              else items[slug].(tier := Warm)
  {
    ghost var before := kb.items;
    for i := 0 to |decays|
      invariant kb.items == map slug | slug in before ::
                  if slug !in decays[..i] then before[slug]
                  else if items[slug].tier == Warm then items[slug].(tier := Cold)
                  else items[slug].(tier := Warm)
    {
      var slug := decays[i];
      assert slug in decays && decays[..i + 1] == decays[..i] + [slug];
      var item := items[slug];
      if item.tier == Warm {
        kb.items := kb.items[slug := item.(tier := Cold)];
      } else {
        kb.items := kb.items[slug := item.(tier := Warm)];
      }
    }
    assert decays[..|decays|] == decays;
  }

  /** The items the gate lets through and those usage decay acts on. */
  method PlanTiers(items: Store, input: PassInput) returns (promotions: seq<string>, decays: seq<string>)
    ensures forall slug :: slug in promotions <==>
              slug in items && Eligible(items[slug]) && InScope(items[slug], input.campaign)
    ensures forall slug :: slug in decays <==>
              slug in items && DecayFor(items[slug], input.current, input.threshold, Starts(items, input.current)).Some?
  {
    var slugs := SortedNames(items.Keys);
    promotions := PlanPromotions(items, slugs, input.campaign);
    var starts := DeriveCampaignStarts(items, slugs, input.current);
    var keeps;
    decays, keeps := DecayWarm(items, slugs, input.current, input.threshold, starts);
    WhereIn(slugs, slug => slug in items && DecayFor(items[slug], input.current, input.threshold, starts).Some?);
  }

  method PlanPromotions(items: Store, slugs: seq<string>, campaign: string) returns (promotions: seq<string>)
    requires forall slug :: slug in slugs <==> slug in items
    ensures forall slug :: slug in promotions <==>
              slug in items && Eligible(items[slug]) && InScope(items[slug], campaign)
  {
    var inScope := slug => slug in items && InScope(items[slug], campaign);
    var scoped := Where(slugs, inScope);
    WhereIn(slugs, inScope);
    var rejections;
    promotions, rejections := GatePromotions(items, scoped);
    WhereIn(scoped, slug => slug in items && Eligible(items[slug]));
  }

  /** The attribution half of the pass, run first so the gate sees what it wrote. */
  method RunAttribution(kb: KnowledgeBase, input: PassInput)
    modifies kb
    ensures kb.items == AfterAttribution(old(kb.items), input)
  {
    if input.attribute {
      var injections := EarliestInjections(input.ledger);
      var plan := PlanAttribution(kb.items, injections, input.cited, input.changed,
                                  sha => Resolve(input.planFetch(sha)));
      var applied, flipped, skipped := kb.ApplyAttribution(plan.attributions, sha => Resolve(input.flipFetch(sha)));
    }
  }

  /** The tier half of the pass. */
  method SettleTiers(kb: KnowledgeBase, ws: Workspace, input: PassInput)
    returns (promotions: seq<string>, decays: seq<string>)
    modifies kb, ws
    ensures kb.items == SettleAll(old(kb.items), input)
    ensures forall slug :: slug in promotions <==>
              slug in old(kb.items) && Eligible(old(kb.items)[slug]) && InScope(old(kb.items)[slug], input.campaign)
    ensures ws.Contents() == MaterializedAll(old(ws.Contents()), Batch(old(kb.items), promotions))
  {
    var items := kb.items;
    promotions, decays := PlanTiers(items, input);
    ApplyPromotions(kb, ws, promotions, input.today);
    ghost var promoted := kb.items;
    ApplyDecays(kb, items, decays);
    assert kb.items.Keys == items.Keys;
    forall slug | slug in items
      ensures kb.items[slug] == Settle(items[slug], input, Starts(items, input.current))
    {
      assert slug in promotions ==> slug !in decays;
    }
  }

  /** `plan_consolidation(apply=True)` on the store, the leaf documents and the routes. */
  method ConsolidationPass(kb: KnowledgeBase, ws: Workspace, input: PassInput)
    returns (promotions: seq<string>, decays: seq<string>)
    modifies kb, ws
    ensures kb.items == AfterPass(old(kb.items), input)
    ensures var mid := AfterAttribution(old(kb.items), input);
            kb.items.Keys == mid.Keys && forall slug | slug in mid :: SettledTo(mid, mid[slug], kb.items[slug], input)
    ensures var mid := AfterAttribution(old(kb.items), input);
            forall slug :: slug in promotions <==>
              slug in mid && Eligible(mid[slug]) && InScope(mid[slug], input.campaign)
    ensures var batch := Batch(AfterAttribution(old(kb.items), input), promotions);
            && ws.Contents() == MaterializedAll(old(ws.Contents()), batch)
            && (AllOneLine(batch) ==>
                  AllDelivered(ws.Contents(), batch) && KeepsSite(old(ws.Contents()), ws.Contents(), batch))
  {
    RunAttribution(kb, input);
    ghost var items, site := kb.items, ws.Contents();
    promotions, decays := SettleTiers(kb, ws, input);
    forall slug | slug in items {
      SettleExact(items, input, slug);
    }
    if AllOneLine(Batch(items, promotions)) {
      BatchIsDelivered(site, Batch(items, promotions));
      BatchKeepsRest(site, Batch(items, promotions));
    }
  }
}
