/** Move-and-trim of completed history (prune.py). */
module Prune {
  import opened MdSections
  import opened Positions
  import opened Text
  import opened Wrappers
  import Seqs

  const LINE_PREFIX := "_Archived completed history \U{2192}"
  const ARCHIVED_MARKER := "_Completed items archived._"
  const STOP_WORDS := {"the", "and", "for", "with"}

  datatype ReconcileItem = ReconcileItem(id: string, title: string, status: string, owner: string)

  // ---- Which sections an item claims ------------------------------------------------------

  predicate OwnedDone(item: ReconcileItem, repo: string) {
    item.status == "done" && item.owner == repo
  }

  function Keywords(item: ReconcileItem): set<string> {
    set k | k in Tokens(item.id) + Tokens(item.title) && |k| > 2 && k !in STOP_WORDS
  }

  /** The section has a title and shares a significant token with the item. */
  predicate Claims(item: ReconcileItem, heading: string) {
    heading != "" && exists k | k in Keywords(item) :: k in Tokens(heading)
  }

  datatype Source = Log | Backlog

  datatype Move = Move(source: Source, heading: string, item: string)

  /** A section claimed: its position and the planned move. */
  datatype Claim = Claim(at: nat, move: Move)

  function Taken(claims: seq<Claim>): set<nat> {
    set c | c in claims :: c.at
  }

  function Moves(claims: seq<Claim>): seq<Move> {
    seq(|claims|, i requires 0 <= i < |claims| => claims[i].move)
  }

  /** The claim on section `n`, unless it is taken. */
  function ClaimAt(item: ReconcileItem, headings: seq<string>, n: nat, taken: set<nat>): seq<Claim>
    requires n < |headings|
  {
    if n !in taken && Claims(item, headings[n]) then [Claim(n, Move(Log, headings[n], item.id))] else []
  }

  /** The sections below `n` that `item` claims and nobody before it did. */
  function ClaimedBy(item: ReconcileItem, headings: seq<string>, n: nat, taken: set<nat>): seq<Claim>
    requires n <= |headings|
  {
    if n == 0 then []
    else
      ClaimedBy(item, headings, n - 1, taken) + ClaimAt(item, headings, n - 1, taken)
  }

  datatype Claiming = Claiming(claims: seq<Claim>, changelog: seq<string>)

  /** Every item in turn; one changelog line for each item that claims anything. */
  function ClaimAll(items: seq<ReconcileItem>, headings: seq<string>, entry: ReconcileItem -> string): Claiming {
    if items == [] then Claiming([], [])
    else
      var c := ClaimAll(items[..|items| - 1], headings, entry);
      var item := items[|items| - 1];
      var mine := ClaimedBy(item, headings, |headings|, Taken(c.claims));
      Claiming(c.claims + mine, c.changelog + if mine == [] then [] else [entry(item)])
  }

  function Headings(sections: seq<Section>): seq<string> {
    seq(|sections|, i requires 0 <= i < |sections| => sections[i].heading)
  }

  // ---- Age ----------------------------------------------------------------------------------

  datatype Retained = Retained(kept: seq<Section>, archived: seq<Section>, unclaimed: nat)

  /** `_retain_recent_log`: claimed sections go, and unclaimed ones past the most recent `recentN`. */
  function Retain(sections: seq<Section>, claimed: set<string>, recentN: int): Retained {
    if sections == [] then Retained([], [], 0)
    else
      var r := Retain(sections[..|sections| - 1], claimed, recentN);
      var sec := sections[|sections| - 1];
      if sec.heading in claimed then r.(archived := r.archived + [sec])
      else if r.unclaimed + 1 <= recentN then Retained(r.kept + [sec], r.archived, r.unclaimed + 1)
      else Retained(r.kept, r.archived + [sec], r.unclaimed + 1)
  }

  // ---- Which sections stay, by position ---------------------------------------------------------

  /** The positions before `i` of sections that no item claims. */
  function UnclaimedBefore(sections: seq<Section>, claimed: set<string>, i: nat): set<nat>
    requires i <= |sections|
  {
    set k: nat | k < i && sections[k].heading !in claimed
  }

  /** The section at `i` is not claimed, and fewer than `recentN` unclaimed ones stand before it. */
  predicate Stays(sections: seq<Section>, claimed: set<string>, recentN: int, i: nat) {
    && i < |sections| && sections[i].heading !in claimed
    && |UnclaimedBefore(sections, claimed, i)| < recentN
  }

  /** Kept are the newest unclaimed sections, which come first in a log, and archived all others. */
  ghost predicate KeepsNewest(sections: seq<Section>, claimed: set<string>, recentN: int, kept: seq<Section>,
                              archived: seq<Section>)
  {
    && Picks(sections, kept, (i: nat) => Stays(sections, claimed, recentN, i))
    && Picks(sections, archived, (i: nat) => !Stays(sections, claimed, recentN, i))
  }

  lemma StaysInPrefix(sections: seq<Section>, claimed: set<string>, recentN: int, n: nat, i: nat)
    requires i < n <= |sections|
    ensures Stays(sections[..n], claimed, recentN, i) == Stays(sections, claimed, recentN, i)
    ensures UnclaimedBefore(sections[..n], claimed, i) == UnclaimedBefore(sections, claimed, i)
  {
    assert forall k: nat | k < i :: sections[..n][k] == sections[k];
    assert UnclaimedBefore(sections[..n], claimed, i) == UnclaimedBefore(sections, claimed, i);
  }

  lemma UnclaimedNext(sections: seq<Section>, claimed: set<string>, i: nat)
    requires i < |sections|
    ensures |UnclaimedBefore(sections, claimed, i + 1)| ==
            |UnclaimedBefore(sections, claimed, i)| + if sections[i].heading in claimed then 0 else 1
  {
    var before, next := UnclaimedBefore(sections, claimed, i), UnclaimedBefore(sections, claimed, i + 1);
    if sections[i].heading in claimed {
      assert next == before;
    } else {
      assert next == before + {i} && i !in before;
    }
  }

  /** The sections that stay and those that go, by position. */
  lemma {:induction false} RetainExact(sections: seq<Section>, claimed: set<string>, recentN: int)
    ensures var r := Retain(sections, claimed, recentN);
            && KeepsNewest(sections, claimed, recentN, r.kept, r.archived)
            && r.unclaimed == |UnclaimedBefore(sections, claimed, |sections|)|
  {
    var r := Retain(sections, claimed, recentN);
    if sections == [] {
      assert PicksAt(sections, [], []);
    } else {
      var n := |sections| - 1;
      var init, sec := sections[..n], sections[n];
      var before := Retain(init, claimed, recentN);
      RetainExact(init, claimed, recentN);
      assert sections == init + [sec];
      forall i: nat | i < n {
        StaysInPrefix(sections, claimed, recentN, n, i);
      }
      PrefixCount(sections, claimed, n);
      UnclaimedNext(sections, claimed, n);
      var stays := (i: nat) => Stays(sections, claimed, recentN, i);
      var goes := (i: nat) => !Stays(sections, claimed, recentN, i);
      PicksSame(init, before.kept, (i: nat) => Stays(init, claimed, recentN, i), stays);
      PicksSame(init, before.archived, (i: nat) => !Stays(init, claimed, recentN, i), goes);
      PickOne(init, sec, before.kept, stays);
      PickOne(init, sec, before.archived, goes);
      assert before.kept + [] == before.kept && before.archived + [] == before.archived;
    }
  }

  lemma PrefixCount(sections: seq<Section>, claimed: set<string>, n: nat)
    requires n <= |sections|
    ensures UnclaimedBefore(sections[..n], claimed, n) == UnclaimedBefore(sections, claimed, n)
  {
    assert forall k: nat | k < n :: sections[..n][k] == sections[k];
  }

  method RetainRecentLog(sections: seq<Section>, claimed: set<string>, recentN: int)
    returns (kept: seq<Section>, archived: seq<Section>)
    ensures var r := Retain(sections, claimed, recentN); kept == r.kept && archived == r.archived
    ensures KeepsNewest(sections, claimed, recentN, kept, archived)
  {
    kept, archived := [], [];
    var seen := 0;
    for i := 0 to |sections|
      invariant Retained(kept, archived, seen) == Retain(sections[..i], claimed, recentN)
    {
      var sec := sections[i];
      assert sections[..i + 1][..i] == sections[..i];
      if sec.heading in claimed {
        archived := archived + [sec];
        continue;
      }
      seen := seen + 1;
      if seen <= recentN {
        kept := kept + [sec];
      } else {
        archived := archived + [sec];
      }
    }
    assert sections[..|sections|] == sections;
    RetainExact(sections, claimed, recentN);
  }

  // ---- Backlog --------------------------------------------------------------------------------

  /** `_is_completed_backlog_section`. */
  predicate Completed(sec: Section) {
    && sec.heading != "" && !Contains(sec.body, ARCHIVED_MARKER)
    && var title := Lower(Strip(sec.heading));
       if title in {"in progress", "up next", "recent"} then false
       else title == "done" || "done " <= title || Contains(Lower(sec.body), "[x]")
  }

  function CompletedMoves(sections: seq<Section>): seq<Move> {
    if sections == [] then []
    else
      var sec := sections[|sections| - 1];
      CompletedMoves(sections[..|sections| - 1])
      + if Completed(sec) then [Move(Backlog, sec.heading, "(backlog-done)")] else []
  }

  // ---- The plan -----------------------------------------------------------------------------

  datatype Plan = Plan(moves: seq<Move>, trims: seq<string>, changelog: seq<string>, recentN: int)
  {
    /** Trims alone never make a plan worth applying. */
    predicate IsNoop() {
      moves == []
    }
  }

  datatype PlanResult = Refused | Planned(plan: Plan)

  function Owned(items: seq<ReconcileItem>, repo: string): seq<ReconcileItem> {
    if items == [] then []
    else Owned(items[..|items| - 1], repo) + if OwnedDone(items[|items| - 1], repo) then [items[|items| - 1]] else []
  }

  /** The headings of the claimed sections. */
  function HeadingsOf(claims: seq<Claim>): set<string> {
    set c | c in claims :: c.move.heading
  }

  /** The headings of the sections an age trim takes on top of the claimed ones. */
  function TrimsOf(archived: seq<Section>, claimed: set<string>): seq<string> {
    if archived == [] then []
    else
      var h := archived[|archived| - 1].heading;
      TrimsOf(archived[..|archived| - 1], claimed) + if h in claimed then [] else [h]
  }

  function PlanOf(log: Option<string>, backlog: Option<string>, owned: seq<ReconcileItem>, recentN: int,
                  entry: ReconcileItem -> string): Plan
  {
    var sections := if log.Some? then Split(log.value).sections else [];
    var c := ClaimAll(owned, Headings(sections), entry);
    var claimed := HeadingsOf(c.claims);
    Plan(Moves(c.claims) + (if backlog.Some? && owned != [] then CompletedMoves(Split(backlog.value).sections) else []),
         TrimsOf(Retain(sections, claimed, recentN).archived, claimed), c.changelog, recentN)
  }

  lemma MoreClaims(claims: seq<Claim>, more: seq<Claim>)
    ensures Taken(claims + more) == Taken(claims) + Taken(more) && Moves(claims + more) == Moves(claims) + Moves(more)
  {
  }

  lemma ClaimAllStep(items: seq<ReconcileItem>, i: nat, headings: seq<string>, entry: ReconcileItem -> string)
    requires i < |items|
    ensures var c := ClaimAll(items[..i], headings, entry);
            var mine := ClaimedBy(items[i], headings, |headings|, Taken(c.claims));
            ClaimAll(items[..i + 1], headings, entry) ==
            Claiming(c.claims + mine, c.changelog + if mine == [] then [] else [entry(items[i])])
  {
    assert items[..i + 1][..i] == items[..i];
  }

  predicate Below(claims: seq<Claim>, n: nat) {
    forall c | c in claims :: c.at < n
  }

  /** The claiming loop has read `n` sections and made the claims `mine`. */
  ghost predicate Reading(item: ReconcileItem, headings: seq<string>, n: nat, claimed0: set<nat>, moves0: seq<Move>,
                          claimed: set<nat>, moves: seq<Move>, mine: seq<Claim>)
  {
    && n <= |headings| && mine == ClaimedBy(item, headings, n, claimed0) && Below(mine, n)
    && claimed == claimed0 + Taken(mine) && moves == moves0 + Moves(mine)
  }

  lemma ReadOne(item: ReconcileItem, headings: seq<string>, n: nat, claimed0: set<nat>, moves0: seq<Move>,
                claimed: set<nat>, moves: seq<Move>, mine: seq<Claim>)
    requires n < |headings| && Reading(item, headings, n, claimed0, moves0, claimed, moves, mine)
    ensures var c := Claim(n, Move(Log, headings[n], item.id));
            if n !in claimed && Claims(item, headings[n])
            then Reading(item, headings, n + 1, claimed0, moves0, claimed + {n}, moves + [c.move], mine + [c])
            else Reading(item, headings, n + 1, claimed0, moves0, claimed, moves, mine)
  {
    var c := Claim(n, Move(Log, headings[n], item.id));
    assert n !in Taken(mine);
    if n !in claimed && Claims(item, headings[n]) {
      Seqs.Assoc(moves0, Moves(mine), [c.move]);
    } else {
      assert mine + [] == mine;
    }
  }

  /** One item over all sections. */
  method ClaimFor(item: ReconcileItem, headings: seq<string>, claimed0: set<nat>, moves0: seq<Move>)
    returns (claimed: set<nat>, moves: seq<Move>, itemClaimed: bool, ghost mine: seq<Claim>)
    ensures mine == ClaimedBy(item, headings, |headings|, claimed0)
    ensures claimed == claimed0 + Taken(mine) && moves == moves0 + Moves(mine)
    ensures itemClaimed <==> mine != []
  {
    claimed, moves, itemClaimed, mine := claimed0, moves0, false, [];
    var n: nat := 0;
    while n < |headings|
      invariant Reading(item, headings, n, claimed0, moves0, claimed, moves, mine)
      invariant itemClaimed <==> mine != []
    {
      ReadOne(item, headings, n, claimed0, moves0, claimed, moves, mine);
      if n !in claimed && Claims(item, headings[n]) {
        ghost var c := Claim(n, Move(Log, headings[n], item.id));
        claimed := claimed + {n};
        moves := moves + [Move(Log, headings[n], item.id)];
        itemClaimed := true;
        mine := mine + [c];
      }
      n := n + 1;
    }
  }

  /** The claiming loops over items and sections. */
  method ClaimSections(owned: seq<ReconcileItem>, headings: seq<string>, entry: ReconcileItem -> string)
    returns (claimed: set<nat>, moves: seq<Move>, changelog: seq<string>)
    ensures var c := ClaimAll(owned, headings, entry);
            claimed == Taken(c.claims) && moves == Moves(c.claims) && changelog == c.changelog
  {
    claimed, moves, changelog := {}, [], [];
    for i := 0 to |owned|
      invariant var c := ClaimAll(owned[..i], headings, entry);
                claimed == Taken(c.claims) && moves == Moves(c.claims) && changelog == c.changelog
    {
      var item := owned[i];
      ClaimAllStep(owned, i, headings, entry);
      ghost var before := ClaimAll(owned[..i], headings, entry).claims;
      var itemClaimed;
      ghost var mine;
      claimed, moves, itemClaimed, mine := ClaimFor(item, headings, claimed, moves);
      MoreClaims(before, mine);
      if itemClaimed {
        changelog := changelog + [entry(item)];
      }
    }
    assert owned[..|owned|] == owned;
  }

  /** `build_plan`, given whether the doc-gap and scrub gates are green. */
  method BuildPlan(green: bool, log: Option<string>, backlog: Option<string>, items: seq<ReconcileItem>, repo: string,
                   recentN: int, entry: ReconcileItem -> string)
    returns (result: PlanResult)
    ensures result == if green then Planned(PlanOf(log, backlog, Owned(items, repo), recentN, entry)) else Refused
  {
    if !green {
      return Refused;
    }
    var owned := OwnedItems(items, repo);
    var sections: seq<Section> := [];
    if log.Some? {
      var parts := SplitSections(log.value);
      sections := parts.sections;
    }
    var headings := Headings(sections);
    var claimed, moves, changelog := ClaimSections(owned, headings, entry);
    var claimedHeadings := set p | p in claimed && p < |headings| :: headings[p];
    ClaimedHeadings(owned, headings, entry);
    var kept, archived := RetainRecentLog(sections, claimedHeadings, recentN);
    var trims := TrimsOf(archived, claimedHeadings);
    if backlog.Some? && owned != [] {
      var parts := SplitSections(backlog.value);
      moves := PlanCompleted(parts.sections, moves);
    }
    result := Planned(Plan(moves, trims, changelog, recentN));
  }

  /** The backlog loop of the plan. */
  method PlanCompleted(sections: seq<Section>, moves0: seq<Move>) returns (moves: seq<Move>)
    ensures moves == moves0 + CompletedMoves(sections)
  {
    moves := moves0;
    for i := 0 to |sections|
      invariant moves == moves0 + CompletedMoves(sections[..i])
    {
      assert sections[..i + 1][..i] == sections[..i];
      if Completed(sections[i]) {
        moves := moves + [Move(Backlog, sections[i].heading, "(backlog-done)")];
      }
    }
    assert sections[..|sections|] == sections;
  }

  method OwnedItems(items: seq<ReconcileItem>, repo: string) returns (owned: seq<ReconcileItem>)
    ensures owned == Owned(items, repo)
  {
    owned := [];
    for i := 0 to |items|
      invariant owned == Owned(items[..i], repo)
    {
      assert items[..i + 1][..i] == items[..i];
      if OwnedDone(items[i], repo) {
        owned := owned + [items[i]];
      }
    }
    assert items[..|items|] == items;
  }

  // ---- Claiming by position and claiming by heading agree -----------------------------------

  predicate Claimed(items: seq<ReconcileItem>, heading: string) {
    exists i | 0 <= i < |items| :: Claims(items[i], heading)
  }

  predicate ClaimOf(headings: seq<string>, c: Claim) {
    c.at < |headings| && c.move.heading == headings[c.at] && c.move.source == Log
  }

  predicate DistinctPositions(claims: seq<Claim>) {
    forall i, j | 0 <= i < j < |claims| :: claims[i].at != claims[j].at
  }

  /** Every claim is of a section below `n` that was free and that the item claims. */
  predicate SoundClaims(item: ReconcileItem, headings: seq<string>, n: nat, taken: set<nat>, mine: seq<Claim>) {
    forall c | c in mine :: ClaimOf(headings, c) && c.at < n && c.at !in taken && Claims(item, headings[c.at])
  }

  predicate CompleteClaims(item: ReconcileItem, headings: seq<string>, n: nat, taken: set<nat>, mine: seq<Claim>)
    requires n <= |headings|
  {
    forall p: nat | p < n && p !in taken && Claims(item, headings[p]) :: p in Taken(mine)
  }

  predicate ExactClaims(item: ReconcileItem, headings: seq<string>, n: nat, taken: set<nat>, mine: seq<Claim>)
    requires n <= |headings|
  {
    && SoundClaims(item, headings, n, taken, mine) && CompleteClaims(item, headings, n, taken, mine)
    && DistinctPositions(mine)
  }

  lemma {:induction false} ClaimedBySound(item: ReconcileItem, headings: seq<string>, n: nat, taken: set<nat>)
    requires n <= |headings|
    ensures SoundClaims(item, headings, n, taken, ClaimedBy(item, headings, n, taken))
  {
    if n > 0 {
      ClaimedBySound(item, headings, n - 1, taken);
    }
  }

  lemma MoreTaken(claims: seq<Claim>, more: seq<Claim>)
    ensures Taken(claims + more) == Taken(claims) + Taken(more)
    ensures forall c | c in more :: c.at in Taken(claims + more)
  {
  }

  lemma {:induction false} ClaimedByComplete(item: ReconcileItem, headings: seq<string>, n: nat, taken: set<nat>)
    requires n <= |headings|
    ensures CompleteClaims(item, headings, n, taken, ClaimedBy(item, headings, n, taken))
  {
    if n > 0 {
      ClaimedByComplete(item, headings, n - 1, taken);
      MoreTaken(ClaimedBy(item, headings, n - 1, taken), ClaimAt(item, headings, n - 1, taken));
    }
  }

  lemma {:induction false} ClaimedByDistinct(item: ReconcileItem, headings: seq<string>, n: nat, taken: set<nat>)
    requires n <= |headings|
    ensures DistinctPositions(ClaimedBy(item, headings, n, taken))
  {
    if n > 0 {
      var mine := ClaimedBy(item, headings, n - 1, taken);
      ClaimedByDistinct(item, headings, n - 1, taken);
      ClaimedBySound(item, headings, n - 1, taken);
      assert forall i | 0 <= i < |mine| :: mine[i] in mine;
    }
  }

  lemma ClaimedByExact(item: ReconcileItem, headings: seq<string>, n: nat, taken: set<nat>)
    requires n <= |headings|
    ensures ExactClaims(item, headings, n, taken, ClaimedBy(item, headings, n, taken))
  {
    ClaimedBySound(item, headings, n, taken);
    ClaimedByComplete(item, headings, n, taken);
    ClaimedByDistinct(item, headings, n, taken);
  }

  lemma ClaimedSnoc(init: seq<ReconcileItem>, item: ReconcileItem, h: string)
    ensures Claimed(init + [item], h) <==> Claimed(init, h) || Claims(item, h)
  {
    var items := init + [item];
    if i :| 0 <= i < |init| && Claims(init[i], h) {
      assert Claims(items[i], h);
    }
    if Claims(item, h) {
      assert Claims(items[|init|], h);
    }
  }

  /** A section is claimed, once, exactly when some item claims its heading. */
  lemma {:induction false} ClaimsExact(items: seq<ReconcileItem>, headings: seq<string>, entry: ReconcileItem -> string)
    ensures var claims := ClaimAll(items, headings, entry).claims;
            && (forall c | c in claims :: ClaimOf(headings, c) && Claimed(items, headings[c.at]))
            && (forall p: nat | p < |headings| && Claimed(items, headings[p]) :: p in Taken(claims))
            && DistinctPositions(claims)
  {
    if items != [] {
      var init, item := items[..|items| - 1], items[|items| - 1];
      assert items == init + [item];
      ClaimsExact(init, headings, entry);
      var before := ClaimAll(init, headings, entry).claims;
      var mine := ClaimedBy(item, headings, |headings|, Taken(before));
      ClaimedByExact(item, headings, |headings|, Taken(before));
      forall h {
        ClaimedSnoc(init, item, h);
      }
    }
  }

  /** `items[i]` is the first item that claims the heading. */
  predicate ClaimsFirst(items: seq<ReconcileItem>, heading: string, i: nat) {
    && i < |items| && Claims(items[i], heading)
    && forall j: nat | j < i :: !Claims(items[j], heading)
  }

  lemma ClaimsFirstSnoc(init: seq<ReconcileItem>, item: ReconcileItem, h: string, i: nat)
    ensures ClaimsFirst(init + [item], h, i) <==>
            ClaimsFirst(init, h, i) || (i == |init| && Claims(item, h) && !Claimed(init, h))
  {
    var items := init + [item];
    assert forall j: nat | j < |init| :: items[j] == init[j];
  }

  predicate NamesFirst(items: seq<ReconcileItem>, headings: seq<string>, c: Claim) {
    c.at < |headings| && exists i: nat | i < |items| ::
      c.move == Move(Log, headings[c.at], items[i].id) && ClaimsFirst(items, headings[c.at], i)
  }

  lemma NamesFirstSnoc(init: seq<ReconcileItem>, item: ReconcileItem, headings: seq<string>, c: Claim)
    requires NamesFirst(init, headings, c)
    ensures NamesFirst(init + [item], headings, c)
  {
    var items := init + [item];
    var i: nat :| i < |init| && c.move == Move(Log, headings[c.at], init[i].id) && ClaimsFirst(init, headings[c.at], i);
    ClaimsFirstSnoc(init, item, headings[c.at], i);
    assert items[i] == init[i];
  }

  lemma {:induction false} ClaimedByNames(item: ReconcileItem, headings: seq<string>, n: nat, taken: set<nat>)
    requires n <= |headings|
    ensures forall c | c in ClaimedBy(item, headings, n, taken) ::
              c.at < |headings| && c.move == Move(Log, headings[c.at], item.id)
  {
    if n > 0 {
      ClaimedByNames(item, headings, n - 1, taken);
    }
  }

  /** Every planned move of a log section names the first item that claims its heading. */
  lemma {:induction false} ClaimsNameFirst(items: seq<ReconcileItem>, headings: seq<string>,
                                           entry: ReconcileItem -> string)
    ensures forall c | c in ClaimAll(items, headings, entry).claims :: NamesFirst(items, headings, c)
  {
    if items != [] {
      var init, item := items[..|items| - 1], items[|items| - 1];
      assert items == init + [item];
      ClaimsNameFirst(init, headings, entry);
      ClaimsExact(init, headings, entry);
      var before := ClaimAll(init, headings, entry).claims;
      var mine := ClaimedBy(item, headings, |headings|, Taken(before));
      ClaimedByExact(item, headings, |headings|, Taken(before));
      ClaimedByNames(item, headings, |headings|, Taken(before));
      forall c | c in before + mine
        ensures NamesFirst(items, headings, c)
      {
        if c in before {
          NamesFirstSnoc(init, item, headings, c);
        } else {
          ClaimsFirstSnoc(init, item, headings[c.at], |init|);
          assert items[|init|] == item;
        }
      }
    }
  }

  function Entries(items: seq<ReconcileItem>, entry: ReconcileItem -> string): seq<string> {
    seq(|items|, i requires 0 <= i < |items| => entry(items[i]))
  }

  /** The item at `i` is the first to claim some section. */
  predicate ClaimsSome(items: seq<ReconcileItem>, headings: seq<string>, i: nat) {
    exists p | 0 <= p < |headings| :: ClaimsFirst(items, headings[p], i)
  }

  lemma ClaimsSomeSnoc(init: seq<ReconcileItem>, item: ReconcileItem, headings: seq<string>, i: nat)
    requires i < |init|
    ensures ClaimsSome(init + [item], headings, i) == ClaimsSome(init, headings, i)
  {
    forall p | 0 <= p < |headings|
      ensures ClaimsFirst(init + [item], headings[p], i) == ClaimsFirst(init, headings[p], i)
    {
      ClaimsFirstSnoc(init, item, headings[p], i);
    }
  }

  lemma TakenExact(items: seq<ReconcileItem>, headings: seq<string>, entry: ReconcileItem -> string, p: nat)
    requires p < |headings|
    ensures p in Taken(ClaimAll(items, headings, entry).claims) <==> Claimed(items, headings[p])
  {
    ClaimsExact(items, headings, entry);
    var claims := ClaimAll(items, headings, entry).claims;
    if p in Taken(claims) {
      var c :| c in claims && c.at == p;
      assert ClaimOf(headings, c) && Claimed(items, headings[c.at]);
    }
  }

  lemma {:induction false} LastClaimsSome(init: seq<ReconcileItem>, item: ReconcileItem, headings: seq<string>,
                                          taken: set<nat>)
    requires forall p: nat | p < |headings| :: p in taken <==> Claimed(init, headings[p])
    ensures ClaimedBy(item, headings, |headings|, taken) != [] <==> ClaimsSome(init + [item], headings, |init|)
  {
    var mine := ClaimedBy(item, headings, |headings|, taken);
    ClaimedByExact(item, headings, |headings|, taken);
    if mine != [] {
      var c := mine[0];
      assert c in mine && Claims(item, headings[c.at]) && c.at !in taken;
      ClaimsFirstSnoc(init, item, headings[c.at], |init|);
    }
    if p: nat :| p < |headings| && ClaimsFirst(init + [item], headings[p], |init|) {
      ClaimsFirstSnoc(init, item, headings[p], |init|);
      assert |Taken(mine)| != 0;
    }
  }

  /** The changelog has one entry, in order, for exactly the items that are the first to claim some section. */
  lemma {:induction false} EntriesExact(items: seq<ReconcileItem>, headings: seq<string>,
                                        entry: ReconcileItem -> string)
    ensures Picks(Entries(items, entry), ClaimAll(items, headings, entry).changelog,
                  (i: nat) => ClaimsSome(items, headings, i))
  {
    if items == [] {
      assert PicksAt(Entries(items, entry), [], []);
    } else {
      var init, item := items[..|items| - 1], items[|items| - 1];
      assert items == init + [item];
      EntriesExact(init, headings, entry);
      var before := ClaimAll(init, headings, entry).changelog;
      var first := (i: nat) => ClaimsSome(items, headings, i);
      forall i: nat | i < |init| {
        ClaimsSomeSnoc(init, item, headings, i);
      }
      forall p: nat | p < |headings| {
        TakenExact(init, headings, entry, p);
      }
      LastClaimsSome(init, item, headings, Taken(ClaimAll(init, headings, entry).claims));
      PicksSame(Entries(init, entry), before, (i: nat) => ClaimsSome(init, headings, i), first);
      PickOne(Entries(init, entry), entry(item), before, first);
      assert Entries(items, entry) == Entries(init, entry) + [entry(item)];
    }
  }

  /** The headings at the claimed positions are the headings of the claims. */
  lemma ClaimedHeadings(owned: seq<ReconcileItem>, headings: seq<string>, entry: ReconcileItem -> string)
    ensures var claims := ClaimAll(owned, headings, entry).claims;
            (set p | p in Taken(claims) && p < |headings| :: headings[p]) == HeadingsOf(claims)
  {
    ClaimsExact(owned, headings, entry);
    var claims := ClaimAll(owned, headings, entry).claims;
    forall h
      ensures h in (set p | p in Taken(claims) && p < |headings| :: headings[p]) <==> h in HeadingsOf(claims)
    {
      if h in HeadingsOf(claims) {
        var c :| c in claims && c.move.heading == h;
        assert ClaimOf(headings, c) && c.at in Taken(claims);
      }
      if p :| p in Taken(claims) && p < |headings| && headings[p] == h {
        var c :| c in claims && c.at == p;
        assert ClaimOf(headings, c);
      }
    }
  }

  /** The items planned for are exactly the finished ones of this repository, in order. */
  lemma {:induction false} OwnedExact(items: seq<ReconcileItem>, repo: string)
    ensures Picks(items, Owned(items, repo),
                  (i: nat) => i < |items| && items[i].status == "done" && items[i].owner == repo)
  {
    if items == [] {
      assert PicksAt(items, [], []);
    } else {
      var init, item := items[..|items| - 1], items[|items| - 1];
      assert items == init + [item];
      OwnedExact(init, repo);
      var owned := (i: nat) => i < |items| && OwnedDone(items[i], repo);
      PicksSame(init, Owned(init, repo), (i: nat) => i < |init| && init[i].status == "done" && init[i].owner == repo,
                owned);
      PickOne(init, item, Owned(init, repo), owned);
      PicksSame(items, Owned(items, repo), owned,
                (i: nat) => i < |items| && items[i].status == "done" && items[i].owner == repo);
    }
  }

  function BacklogMoves(sections: seq<Section>): seq<Move> {
    seq(|sections|, i requires 0 <= i < |sections| => Move(Backlog, sections[i].heading, "(backlog-done)"))
  }

  /** One move, in order, for exactly the completed backlog sections. */
  lemma {:induction false} CompletedMovesExact(sections: seq<Section>)
    ensures Picks(BacklogMoves(sections), CompletedMoves(sections),
                  (i: nat) => i < |sections| && Completed(sections[i]))
  {
    if sections == [] {
      assert PicksAt(BacklogMoves(sections), [], []);
    } else {
      var init, sec := sections[..|sections| - 1], sections[|sections| - 1];
      assert sections == init + [sec];
      CompletedMovesExact(init);
      var completed := (i: nat) => i < |sections| && Completed(sections[i]);
      PicksSame(BacklogMoves(init), CompletedMoves(init), (i: nat) => i < |init| && Completed(init[i]), completed);
      PickOne(BacklogMoves(init), Move(Backlog, sec.heading, "(backlog-done)"), CompletedMoves(init), completed);
      assert BacklogMoves(sections) == BacklogMoves(init) + [Move(Backlog, sec.heading, "(backlog-done)")];
    }
  }
}
