/** The session loop itself (engine.py, and the cooldown merges of sessions.py). */
module Engine {
  import opened EngineTrace
  import opened Wrappers

  /** Why the loop ended. */
  datatype Reason = LockHeld | StopSeen | IterationCap | FailureCap | NothingRunnable | NoCli

  function Names(cfg: Config): set<string> {
    set b | b in cfg.backends :: b.name
  }

  // ---- Merging what a hook prints -------------------------------------------------------------

  /** One entry: only a known backend and a future time count; with `extend` only a later one. */
  function Merge(cooldowns: map<string, Option<int>>, entry: (string, Option<int>), now: int, extend: bool)
    : map<string, Option<int>>
  {
    var (name, until) := entry;
    if name !in cooldowns || until.None? || until.value <= now then cooldowns
    else if extend && cooldowns[name].Some? && until.value <= cooldowns[name].value then cooldowns
    else cooldowns[name := until]
  }

  function MergeAll(cooldowns: map<string, Option<int>>, entries: Horizons, now: int, extend: bool)
    : map<string, Option<int>>
  {
    if entries == [] then cooldowns
    else Merge(MergeAll(cooldowns, entries[..|entries| - 1], now, extend), entries[|entries| - 1], now, extend)
  }

  predicate NotShortened(before: Option<int>, after: Option<int>) {
    before.Some? ==> after.Some? && before.value <= after.value
  }

  /** The budget guard leaves each backend with the latest of its cooldown and its future horizons. */
  lemma {:induction false} GuardNeverShortens(cooldowns: map<string, Option<int>>, horizons: Horizons, now: int,
                                              name: string)
    requires name in cooldowns
    ensures var after := MergeAll(cooldowns, horizons, now, true);
            && after.Keys == cooldowns.Keys && NotShortened(cooldowns[name], after[name])
            && (forall h | h in horizons && h.0 == name && Cooling(h.1, now) :: NotShortened(h.1, after[name]))
            && (after[name] == cooldowns[name] || ((name, after[name]) in horizons && Cooling(after[name], now)))
  {
    if horizons != [] {
      var n := |horizons| - 1;
      assert horizons == horizons[..n] + [horizons[n]];
      GuardNeverShortens(cooldowns, horizons[..n], now, name);
    }
  }

  // ---- The cooldown table against the trace ----------------------------------------------------

  /** The table may have forgotten a cooldown only once it is over. */
  predicate Agrees(entry: Option<int>, cooled: Option<int>, now: int) {
    entry == cooled || (entry.None? && !Cooling(cooled, now))
  }

  predicate AgreesAt(cfg: Config, cooldowns: map<string, Option<int>>, trace: seq<Event>, now: int, b: nat) {
    && b < |cfg.backends| && cfg.backends[b].name in cooldowns
    && Agrees(cooldowns[cfg.backends[b].name], Cooled(cfg, trace, b), now)
  }

  predicate Agree(cfg: Config, cooldowns: map<string, Option<int>>, trace: seq<Event>, now: int) {
    && cooldowns.Keys == Names(cfg)
    && forall b: nat | b < |cfg.backends| :: AgreesAt(cfg, cooldowns, trace, now, b)
  }

  lemma CooledSnoc(cfg: Config, trace: seq<Event>, e: Event, b: nat)
    requires b < |cfg.backends|
    ensures var until := Sets(cfg, e.what, b);
            Cooled(cfg, trace + [e], b) == if until.Some? then until else Cooled(cfg, trace, b)
  {
    assert (trace + [e])[..|trace|] == trace;
  }

  lemma AgreeLater(cfg: Config, cooldowns: map<string, Option<int>>, trace: seq<Event>, now: int, later: int)
    requires Agree(cfg, cooldowns, trace, now) && now <= later
    ensures Agree(cfg, cooldowns, trace, later)
  {
    forall b: nat | b < |cfg.backends|
      ensures AgreesAt(cfg, cooldowns, trace, later, b)
    {
      assert AgreesAt(cfg, cooldowns, trace, now, b);
    }
  }

  predicate SetsNothing(what: What) {
    what.Refused? || what.Started? || (what.Ended? && !what.outcome.Limited?)
  }

  lemma AgreePlain(cfg: Config, cooldowns: map<string, Option<int>>, trace: seq<Event>, now: int, e: Event)
    requires Agree(cfg, cooldowns, trace, now) && SetsNothing(e.what)
    ensures Agree(cfg, cooldowns, trace + [e], now)
  {
    forall b: nat | b < |cfg.backends|
      ensures AgreesAt(cfg, cooldowns, trace + [e], now, b)
    {
      assert AgreesAt(cfg, cooldowns, trace, now, b);
      CooledSnoc(cfg, trace, e, b);
    }
  }

  /** The table after the event is the old one with the reset times the event sets. */
  lemma AgreeSet(cfg: Config, cooldowns: map<string, Option<int>>, after: map<string, Option<int>>,
                 trace: seq<Event>, now: int, e: Event)
    requires Agree(cfg, cooldowns, trace, now) && after.Keys == cooldowns.Keys
    requires forall b: nat | b < |cfg.backends| ::
               var name, until := cfg.backends[b].name, Sets(cfg, e.what, b);
               name in after && name in cooldowns && after[name] == if until.Some? then until else cooldowns[name]
    ensures Agree(cfg, after, trace + [e], now)
  {
    forall b: nat | b < |cfg.backends|
      ensures AgreesAt(cfg, after, trace + [e], now, b)
    {
      assert AgreesAt(cfg, cooldowns, trace, now, b);
      CooledSnoc(cfg, trace, e, b);
    }
  }

  // ---- Seeded cooldowns -------------------------------------------------------------------------------

  /** The time that the seeding hook told last for `b` is over, or still in force if nothing else was set. */
  predicate SeedKeptAt(cfg: Config, env: Environment, trace: seq<Event>, now: int, b: nat) {
    b < |cfg.backends| && (Untouched(cfg, trace, b) ==>
      forall i | 0 <= i < |env.seeded| && IsLastFor(env.seeded, cfg.backends[b].name, i) ::
        env.seeded[i].1.value <= now || Cooled(cfg, trace, b) == env.seeded[i].1)
  }

  predicate SeedKept(cfg: Config, env: Environment, trace: seq<Event>, now: int) {
    forall b: nat | b < |cfg.backends| :: SeedKeptAt(cfg, env, trace, now, b)
  }

  lemma SeedLater(cfg: Config, env: Environment, trace: seq<Event>, now: int, later: int)
    requires SeedKept(cfg, env, trace, now) && now <= later
    ensures SeedKept(cfg, env, trace, later)
  {
    forall b: nat | b < |cfg.backends|
      ensures SeedKeptAt(cfg, env, trace, later, b)
    {
      assert SeedKeptAt(cfg, env, trace, now, b);
    }
  }

  lemma UntouchedSnoc(cfg: Config, trace: seq<Event>, e: Event, b: nat)
    requires b < |cfg.backends|
    ensures Untouched(cfg, trace + [e], b) <==>
            Untouched(cfg, trace, b) && (e.iteration >= 1 ==> Sets(cfg, e.what, b).None?)
  {
    var more := trace + [e];
    assert more[|trace|] == e;
    if Untouched(cfg, more, b) {
      forall j | 0 <= j < |trace| && trace[j].iteration >= 1
        ensures Sets(cfg, trace[j].what, b).None?
      {
        assert more[j] == trace[j];
      }
    }
  }

  lemma SeedSnoc(cfg: Config, env: Environment, trace: seq<Event>, now: int, e: Event)
    requires SeedKept(cfg, env, trace, now) && e.iteration >= 1
    ensures SeedKept(cfg, env, trace + [e], now)
  {
    forall b: nat | b < |cfg.backends|
      ensures SeedKeptAt(cfg, env, trace + [e], now, b)
    {
      assert SeedKeptAt(cfg, env, trace, now, b);
      UntouchedSnoc(cfg, trace, e, b);
      CooledSnoc(cfg, trace, e, b);
    }
  }

  lemma SeedIsObeyed(cfg: Config, env: Environment, trace: seq<Event>, now: int, b: nat)
    requires SeedKept(cfg, env, trace, now) && b < |cfg.backends| && !Cooling(Cooled(cfg, trace, b), now)
    ensures SeedObeyed(cfg, env, trace, b, now)
  {
    assert SeedKeptAt(cfg, env, trace, now, b);
  }

  /** Merged without extending, an unset cooldown ends up as the last readable time, if that is ahead. */
  lemma {:induction false} SeedMerge(cooldowns: map<string, Option<int>>, entries: Horizons, now: int, name: string,
                                     i: nat)
    requires name in cooldowns && IsLastFor(entries, name, i)
    ensures var after := MergeAll(cooldowns, entries, now, false);
            name in after && (entries[i].1.value > now ==> after[name] == entries[i].1)
  {
    var n := |entries| - 1;
    MergeKeys(cooldowns, entries[..n], now, false);
    if i < n {
      assert IsLastFor(entries[..n], name, i) by {
        assert forall j | i < j < n :: entries[..n][j] == entries[j];
      }
      SeedMerge(cooldowns, entries[..n], now, name, i);
    }
  }

  lemma {:induction false} MergeKeys(cooldowns: map<string, Option<int>>, entries: Horizons, now: int, extend: bool)
    ensures MergeAll(cooldowns, entries, now, extend).Keys == cooldowns.Keys
  {
    if entries != [] {
      MergeKeys(cooldowns, entries[..|entries| - 1], now, extend);
    }
  }

  // ---- What an iteration has done so far ----------------------------------------------------------

  lemma PassedOverSnoc(trace: seq<Event>, iteration: nat, e: Event, q: nat)
    requires PassedOver(trace, iteration, q) || (e.iteration == iteration && PassesOver(e.what, q))
    ensures PassedOver(trace + [e], iteration, q)
  {
    var more := trace + [e];
    if PassedOver(trace, iteration, q) {
      var j :| 0 <= j < |trace| && trace[j].iteration == iteration && PassesOver(trace[j].what, q);
      assert more[j] == trace[j];
    } else {
      assert more[|trace|] == e;
    }
  }

  lemma WasLimitedSnoc(trace: seq<Event>, iteration: nat, e: Event, q: nat)
    requires WasLimited(trace, iteration, q) || (e.iteration == iteration && LimitEnds(e.what, q))
    ensures WasLimited(trace + [e], iteration, q)
  {
    var more := trace + [e];
    if WasLimited(trace, iteration, q) {
      var j :| 0 <= j < |trace| && trace[j].iteration == iteration && LimitEnds(trace[j].what, q);
      assert more[j] == trace[j];
    } else {
      assert more[|trace|] == e;
    }
  }

  lemma SessionsBeforeSnoc(trace: seq<Event>, iteration: nat, e: Event, b: nat, c: nat)
    requires SessionsBefore(trace, iteration, b) && !e.what.Started? && b <= c
    ensures SessionsBefore(trace + [e], iteration, c)
  {
    forall j | 0 <= j < |trace + [e]| && (trace + [e])[j].iteration == iteration && (trace + [e])[j].what.Started?
      ensures (trace + [e])[j].what.backend < c && WasLimited(trace + [e], iteration, (trace + [e])[j].what.backend)
    {
      assert trace[j] == (trace + [e])[j];
      WasLimitedSnoc(trace, iteration, e, trace[j].what.backend);
    }
  }

  /** A session of an iteration does not go away. */
  lemma SessionsStay(before: seq<Event>, trace: seq<Event>, iteration: nat)
    requires before <= trace && !SessionsBefore(before, iteration, 0)
    ensures !SessionsBefore(trace, iteration, 0)
  {
    var j :| 0 <= j < |before| && before[j].iteration == iteration && before[j].what.Started?;
    assert trace[j] == before[j];
  }

  /** A new iteration has no sessions yet. */
  lemma FreshIteration(cfg: Config, trace: seq<Event>, iteration: nat)
    requires Legal(cfg, trace) && (trace != [] ==> trace[|trace| - 1].iteration < iteration)
    ensures SessionsBefore(trace, iteration, 0)
  {
    forall j | 0 <= j < |trace|
      ensures trace[j].iteration < iteration
    {
      TimesGrow(cfg, trace, j, |trace| - 1);
    }
  }

  // ---- Every iteration looks ------------------------------------------------------------------------

  /** The iteration looked at the first position: it was refused, or a session started on it. */
  predicate LookedIn(cfg: Config, trace: seq<Event>, iteration: nat) {
    |cfg.backends| > 0 ==> exists k | 0 <= k < |trace| ::
      && trace[k].iteration == iteration && (trace[k].what.Refused? || trace[k].what.Started?)
      && trace[k].what.backend == 0
  }

  lemma LooksStay(cfg: Config, before: seq<Event>, trace: seq<Event>)
    requires before <= trace
    ensures forall it: nat | LookedIn(cfg, before, it) :: LookedIn(cfg, trace, it)
  {
    forall it: nat | LookedIn(cfg, before, it)
      ensures LookedIn(cfg, trace, it)
    {
      if |cfg.backends| > 0 {
        var k :| 0 <= k < |before| && before[k].iteration == it
                 && (before[k].what.Refused? || before[k].what.Started?) && before[k].what.backend == 0;
        assert trace[k] == before[k];
      }
    }
  }

  /** How many of the first `turn` turns were not paused. */
  function Iterations(env: Environment, turn: nat): nat {
    if turn == 0 then 0 else Iterations(env, turn - 1) + if env.pausedAt(turn - 1) then 0 else 1
  }

  lemma OutcomesTold(cfg: Config, env: Environment, trace: seq<Event>)
    requires Told(cfg, env, trace)
    ensures forall k | 0 <= k < |trace| && trace[k].what.Ended? ::
              var end := env.session(k);
              && !env.stopAfter(k)
              && (trace[k].what.outcome.Succeeded? <==> end.rc == 0)
              && (end.rc != 0 && end.reset.Some? ==> trace[k].what.outcome == Limited(end.reset.value, end.global))
              && (end.rc != 0 && end.reset.None? ==> trace[k].what.outcome.Failed?)
  {
    forall k | 0 <= k < |trace| && trace[k].what.Ended?
      ensures var end := env.session(k);
              && !env.stopAfter(k)
              && (trace[k].what.outcome.Succeeded? <==> end.rc == 0)
              && (end.rc != 0 && end.reset.Some? ==> trace[k].what.outcome == Limited(end.reset.value, end.global))
              && (end.rc != 0 && end.reset.None? ==> trace[k].what.outcome.Failed?)
    {
      assert TruthfulAt(cfg, env, trace, k) && |trace[..k]| == k;
    }
  }

  // ---- How long to sleep ----------------------------------------------------------------------------------

  /** `int(seconds)` of a time span: whole seconds, truncated towards zero. */
  function WholeSeconds(span: int): int {
    if span >= 0 then span / SECOND else -(-span / SECOND)
  }

  /** The seconds to sleep until `reset`. */
  function Delay(reset: int, now: int): int {
    Max(60, WholeSeconds(reset - now) + RATE_LIMIT_BUFFER)
  }

  lemma DelayPassesReset(reset: int, now: int)
    ensures Delay(reset, now) >= 60
    ensures reset + (RATE_LIMIT_BUFFER - 1) * SECOND < now + Delay(reset, now) * SECOND
  {
  }

  /** The reset of `name` is ahead at the time `now`, and no other one comes before it. */
  predicate IsNextReset(cooldowns: map<string, Option<int>>, name: string, now: int) {
    && name in cooldowns && Cooling(cooldowns[name], now)
    && forall other | other in cooldowns && Cooling(cooldowns[other], now) ::
         cooldowns[name].value <= cooldowns[other].value
  }

  // ---- The engine --------------------------------------------------------------------------------------

  class PseudoOperatorEngine {
    const cfg: Config
    const env: Environment
    var cooldowns: map<string, Option<int>>
    /** The last time read from the clock; it never runs backwards. */
    var clock: int
    /** What the loop has logged. */
    var trace: seq<Event>

    constructor (cfg: Config, env: Environment, now: int)
      requires ValidConfig(cfg)
      ensures this.cfg == cfg && this.env == env && clock == now && trace == [] && Ready(0)
    {
      this.cfg := cfg;
      this.env := env;
      cooldowns := map name | name in Names(cfg) :: None;
      clock := now;
      trace := [];
      new;
      forall b: nat | b < |cfg.backends|
        ensures AgreesAt(cfg, cooldowns, trace, clock, b)
      {
        assert cfg.backends[b] in cfg.backends;
      }
    }

    ghost predicate Ready(iteration: nat)
      reads this
    {
      && ValidConfig(cfg) && iteration <= cfg.maxIterations
      && Legal(cfg, trace) && Told(cfg, env, trace) && Agree(cfg, cooldowns, trace, clock)
      && (iteration >= 1 ==> SeedKept(cfg, env, trace, clock)) && Waited(cfg, env, trace, iteration, clock)
      && (trace != [] ==> trace[|trace| - 1].at <= clock && trace[|trace| - 1].iteration <= iteration)
    }

    /** Time passes. */
    method Tick(iteration: nat)
      requires Ready(iteration)
      modifies this`clock
      ensures Ready(iteration) && old(clock) <= clock
    {
      var reading: int := *;
      AdvanceTo(iteration, reading);
    }

    method AdvanceTo(iteration: nat, reading: int)
      requires Ready(iteration)
      modifies this`clock
      ensures Ready(iteration) && clock == Max(old(clock), reading)
    {
      if reading > clock {
        AgreeLater(cfg, cooldowns, trace, clock, reading);
        WaitedLater(cfg, env, trace, iteration, clock, reading);
        if iteration >= 1 {
          SeedLater(cfg, env, trace, clock, reading);
        }
        clock := reading;
      }
    }

    /** The event that would be logged now. */
    function Now(iteration: nat, what: What): Event
      reads this
    {
      Event(clock, iteration, what)
    }

    /** An event that leaves the cooldowns alone. */
    method Log(iteration: nat, what: What)
      requires Ready(iteration) && iteration >= 1 && SetsNothing(what)
      requires Allowed(cfg, trace, Now(iteration, what)) && Truthful(cfg, env, trace, Now(iteration, what))
      modifies this`trace
      ensures Ready(iteration) && trace == old(trace) + [Now(iteration, what)]
    {
      LegalSnoc(cfg, trace, Now(iteration, what));
      ToldSnoc(cfg, env, trace, Now(iteration, what));
      SeedSnoc(cfg, env, trace, clock, Now(iteration, what));
      AgreePlain(cfg, cooldowns, trace, clock, Now(iteration, what));
      trace := trace + [Now(iteration, what)];
    }

    /** An event that sets cooldowns, to `after`. */
    method LogCooldown(iteration: nat, what: What, after: map<string, Option<int>>)
      requires Ready(iteration) && after.Keys == cooldowns.Keys
      requires Allowed(cfg, trace, Now(iteration, what)) && Truthful(cfg, env, trace, Now(iteration, what))
      requires forall b: nat | b < |cfg.backends| ::
                 var name, until := cfg.backends[b].name, Sets(cfg, what, b);
                 name in after && name in cooldowns && after[name] == if until.Some? then until else cooldowns[name]
      modifies this`trace, this`cooldowns
      ensures Ready(iteration) && trace == old(trace) + [Now(iteration, what)] && cooldowns == after
    {
      LegalSnoc(cfg, trace, Now(iteration, what));
      ToldSnoc(cfg, env, trace, Now(iteration, what));
      if iteration >= 1 {
        SeedSnoc(cfg, env, trace, clock, Now(iteration, what));
      }
      AgreeSet(cfg, cooldowns, after, trace, clock, Now(iteration, what));
      trace := trace + [Now(iteration, what)];
      cooldowns := after;
    }

    /** `_clear_expired_cooldowns`: a change the trace does not see. */
    method ClearExpiredCooldowns(iteration: nat)
      requires Ready(iteration)
      modifies this`clock, this`cooldowns
      ensures Ready(iteration) && old(clock) <= clock
      ensures cooldowns == map name | name in old(cooldowns) ::
                             if Cooling(old(cooldowns)[name], clock) then old(cooldowns)[name] else None
    {
      Tick(iteration);
      ghost var before, now := cooldowns, clock;
      for i := 0 to |cfg.backends|
        invariant Ready(iteration) && cooldowns.Keys == before.Keys && clock == now
        invariant forall b: nat | b < |cfg.backends| ::
                    var name := cfg.backends[b].name;
                    name in before && name in cooldowns
                    && cooldowns[name] == if b < i && !Cooling(before[name], clock) then None else before[name]
      {
        var name := cfg.backends[i].name;
        var until := cooldowns[name];
        if until.Some? && clock >= until.value {
          ClearOne(iteration, i);
        }
      }
      forall name | name in before
        ensures cooldowns[name] == if Cooling(before[name], clock) then before[name] else None
      {
        var b: nat :| b < |cfg.backends| && cfg.backends[b].name == name;
      }
    }

    method ClearOne(iteration: nat, i: nat)
      requires Ready(iteration) && i < |cfg.backends|
      requires AgreesAt(cfg, cooldowns, trace, clock, i) && !Cooling(cooldowns[cfg.backends[i].name], clock)
      modifies this`cooldowns
      ensures Ready(iteration) && cooldowns == old(cooldowns)[cfg.backends[i].name := None]
    {
      ghost var before := cooldowns;
      cooldowns := cooldowns[cfg.backends[i].name := None];
      forall b: nat | b < |cfg.backends|
        ensures AgreesAt(cfg, cooldowns, trace, clock, b)
      {
        assert AgreesAt(cfg, before, trace, clock, b);
      }
    }

    /** The position of a configured name. */
    method IndexOf(name: string) returns (b: nat)
      requires name in Names(cfg)
      ensures b < |cfg.backends| && cfg.backends[b].name == name
    {
      b := 0;
      while cfg.backends[b].name != name
        invariant b < |cfg.backends|
        invariant exists c: nat | b <= c < |cfg.backends| :: cfg.backends[c].name == name
        decreases |cfg.backends| - b
      {
        b := b + 1;
      }
    }

    /** One backend's cooldown set to `until`, logged as `what`. */
    method SetCooldown(iteration: nat, b: nat, until: int, what: What)
      requires Ready(iteration) && b < |cfg.backends|
      requires what == Seeded(b, until) || what == Held(b, until)
      requires Allowed(cfg, trace, Now(iteration, what))
      modifies this`trace, this`cooldowns
      ensures Ready(iteration) && trace == old(trace) + [Now(iteration, what)]
      ensures cooldowns == old(cooldowns)[cfg.backends[b].name := Some(until)]
    {
      assert forall c: nat | c < |cfg.backends| :: AgreesAt(cfg, cooldowns, trace, clock, c);
      LogCooldown(iteration, what, cooldowns[cfg.backends[b].name := Some(until)]);
    }

    /** `_seed_cooldowns`: overwrites with what the hook printed, but only with future times. */
    method SeedCooldowns()
      requires Ready(0) && trace == [] && forall name | name in cooldowns :: cooldowns[name].None?
      modifies this`clock, this`cooldowns, this`trace
      ensures Ready(0) && Failures(trace) == 0 && Quiet(1) && SeedKept(cfg, env, trace, clock)
      ensures cooldowns == MergeAll(old(cooldowns), env.seeded, clock, false)
    {
      Tick(0);
      ghost var now := clock;
      for i := 0 to |env.seeded|
        invariant Ready(0) && Failures(trace) == 0 && clock == now
        invariant trace == [] || (trace[|trace| - 1].what.Seeded? && trace[|trace| - 1].iteration == 0)
        invariant cooldowns == MergeAll(old(cooldowns), env.seeded[..i], now, false)
      {
        assert env.seeded[..i + 1][..i] == env.seeded[..i];
        var (name, until) := env.seeded[i];
        if name !in cooldowns || until.None? {
          continue;
        }
        if until.value > clock {
          var b := IndexOf(name);
          SetCooldown(0, b, until.value, Seeded(b, until.value));
        }
      }
      assert env.seeded[..|env.seeded|] == env.seeded;
      SeedsTaken(old(cooldowns));
    }

    lemma SeedsTaken(before: map<string, Option<int>>)
      requires Ready(0) && before.Keys == cooldowns.Keys && cooldowns == MergeAll(before, env.seeded, clock, false)
      ensures SeedKept(cfg, env, trace, clock)
    {
      forall b: nat | b < |cfg.backends|
        ensures SeedKeptAt(cfg, env, trace, clock, b)
      {
        assert AgreesAt(cfg, cooldowns, trace, clock, b);
        forall i: nat | i < |env.seeded| && IsLastFor(env.seeded, cfg.backends[b].name, i)
          ensures env.seeded[i].1.value <= clock || Cooled(cfg, trace, b) == env.seeded[i].1
        {
          SeedMerge(before, env.seeded, clock, cfg.backends[b].name, i);
        }
      }
    }

    /** Nothing is pending before this iteration. */
    ghost predicate Quiet(iteration: nat)
      reads this
    {
      && (trace != [] ==> Rests(cfg, trace[|trace| - 1].what) && trace[|trace| - 1].iteration < iteration)
      && Waited(cfg, env, trace, iteration, clock)
    }

    /** The iteration has begun, and no position has been looked at. */
    ghost predicate Begun(iteration: nat)
      reads this
    {
      && SessionsBefore(trace, iteration, 0)
      && (Quiet(iteration)
          || (trace != [] && trace[|trace| - 1].what.Held? && trace[|trace| - 1].iteration == iteration))
    }

    /** The next look is at position `b`. */
    ghost predicate LooksAt(iteration: nat, b: nat)
      reads this
    {
      trace != [] ==> LooksNext(cfg, trace[|trace| - 1], iteration, b)
    }

    /** `_budget_guard`: extends the cooldowns to what the hook printed. */
    method BudgetGuard(iteration: nat)
      requires Ready(iteration) && iteration >= 1 && Begun(iteration)
      modifies this`clock, this`cooldowns, this`trace
      ensures Ready(iteration) && Failures(trace) == Failures(old(trace)) && Begun(iteration) && old(trace) <= trace
      ensures cooldowns == MergeAll(old(cooldowns), env.guard(iteration), clock, true)
    {
      Tick(iteration);
      ghost var now := clock;
      var horizons := env.guard(iteration);
      for i := 0 to |horizons|
        invariant Ready(iteration) && Failures(trace) == Failures(old(trace)) && Begun(iteration)
        invariant old(trace) <= trace
        invariant clock == now && cooldowns == MergeAll(old(cooldowns), horizons[..i], now, true)
      {
        assert horizons[..i + 1][..i] == horizons[..i];
        GuardOne(iteration, horizons[i].0, horizons[i].1);
      }
      assert horizons[..|horizons|] == horizons;
    }

    method GuardOne(iteration: nat, name: string, until: Option<int>)
      requires Ready(iteration) && iteration >= 1 && Begun(iteration)
      modifies this`cooldowns, this`trace
      ensures Ready(iteration) && Failures(trace) == Failures(old(trace)) && Begun(iteration) && old(trace) <= trace
      ensures cooldowns == Merge(old(cooldowns), (name, until), clock, true)
    {
      if name !in cooldowns || until.None? {
        return;
      }
      var current := cooldowns[name];
      if until.value > clock && (current.None? || until.value > current.value) {
        var b := IndexOf(name);
        ghost var e := Now(iteration, Held(b, until.value));
        assert AgreesAt(cfg, cooldowns, trace, clock, b);
        SessionsBeforeSnoc(trace, iteration, e, 0, 0);
        SetCooldown(iteration, b, until.value, Held(b, until.value));
      }
    }

    /** `_backend_available`: the CLI is there and no cooldown is in force. A refusal is logged. */
    method BackendAvailable(iteration: nat, b: nat) returns (ok: bool)
      requires Ready(iteration) && iteration >= 1 && b < |cfg.backends| && LooksAt(iteration, b)
      modifies this`clock, this`trace
      ensures Ready(iteration) && old(trace) <= trace && old(clock) <= clock
      ensures ok ==> trace == old(trace) && env.installed(|trace|) && !Cooling(Cooled(cfg, trace, b), clock)
      ensures !ok ==> exists at, missing :: trace == old(trace) + [Event(at, iteration, Refused(b, missing))]
    {
      assert AgreesAt(cfg, cooldowns, trace, clock, b);
      var until := cooldowns[cfg.backends[b].name];
      if !env.installed(|trace|) {
        Log(iteration, Refused(b, true));
        assert trace == old(trace) + [Event(clock, iteration, Refused(b, true))];
        return false;
      }
      Tick(iteration);
      assert AgreesAt(cfg, cooldowns, trace, clock, b);
      ok := until.None? || clock >= until.value;
      if !ok {
        Log(iteration, Refused(b, false));
        assert trace == old(trace) + [Event(clock, iteration, Refused(b, false))];
      }
    }

    /** Where the ladder stands: the sessions so far ran before position `done` and were limited, and every
        backend before position `b` has been passed over. */
    ghost predicate OnLadder(iteration: nat, done: nat, b: nat)
      reads this
    {
      SessionsBefore(trace, iteration, done) && AllPassedOver(trace, iteration, b)
    }

    lemma OneMorePassed(before: seq<Event>, iteration: nat, done: nat, b: nat, e: Event)
      requires SessionsBefore(before, iteration, done) && AllPassedOver(before, iteration, b)
      requires trace == before + [e] && e.iteration == iteration && PassesOver(e.what, b)
      ensures !e.what.Started? ==> OnLadder(iteration, done, b + 1)
    {
      SessionsBeforeSnoc(before, iteration, e, done, done);
      forall q: nat | q < b + 1
        ensures PassedOver(trace, iteration, q)
      {
        PassedOverSnoc(before, iteration, e, q);
      }
    }

    /** Position `b` is the next one to look at, or the ladder ends there. */
    ghost predicate Next(iteration: nat, b: nat)
      reads this
    {
      if b < |cfg.backends| then LooksAt(iteration, b)
      else trace != [] ==> Rests(cfg, trace[|trace| - 1].what)
    }

    /** Backend `b` is the one to use: everything above it is passed over, and it can run. */
    ghost predicate Chosen(iteration: nat, done: nat, b: nat)
      reads this
    {
      && b < |cfg.backends| && OnLadder(iteration, done, b) && LooksAt(iteration, b)
      && env.installed(|trace|) && !Cooling(Cooled(cfg, trace, b), clock)
    }

    /** The first runnable backend from position `from` on. */
    method FirstRunnable(iteration: nat, from: nat) returns (backend: Option<nat>)
      requires Ready(iteration) && iteration >= 1 && from <= |cfg.backends| && OnLadder(iteration, from, from)
      requires Next(iteration, from)
      modifies this`clock, this`trace
      ensures old(clock) <= clock
      ensures Ready(iteration) && old(trace) <= trace && Failures(trace) == Failures(old(trace))
      ensures backend.Some? ==> from <= backend.value && Chosen(iteration, from, backend.value)
      ensures backend.None? ==> OnLadder(iteration, from, |cfg.backends|) && Next(iteration, |cfg.backends|)
      ensures |trace| > |old(trace)| ==>
                trace[|old(trace)|].iteration == iteration && trace[|old(trace)|].what.Refused?
                && trace[|old(trace)|].what.backend == from
      ensures backend != Some(from) && from < |cfg.backends| ==> |trace| > |old(trace)|
    {
      for b := from to |cfg.backends|
        invariant Ready(iteration) && Failures(trace) == Failures(old(trace)) && OnLadder(iteration, from, b)
        invariant old(trace) <= trace && Next(iteration, b) && old(clock) <= clock
        invariant |trace| > |old(trace)| ==>
                    trace[|old(trace)|].iteration == iteration && trace[|old(trace)|].what.Refused?
                    && trace[|old(trace)|].what.backend == from
        invariant b > from ==> |trace| > |old(trace)|
      {
        ghost var before := trace;
        var ok := BackendAvailable(iteration, b);
        if ok {
          return Some(b);
        }
        ghost var e := trace[|trace| - 1];
        OneMorePassed(before, iteration, from, b, e);
      }
      backend := None;
    }

    /** No configured CLI is on the path. */
    method NoCliInstalled(iteration: nat) returns (none: bool)
      ensures none == forall b: nat | b < |cfg.backends| :: !env.onPath(iteration, b)
    {
      for b := 0 to |cfg.backends|
        invariant forall c: nat | c < b :: !env.onPath(iteration, c)
      {
        if env.onPath(iteration, b) {
          return false;
        }
      }
      none := true;
    }

    /** The iteration has looked at the first position. */
    ghost predicate Looked(iteration: nat)
      reads this
    {
      LookedIn(cfg, trace, iteration)
    }

    /** `_select_backend`; `noCli` is its exit when no configured CLI is installed. */
    method SelectBackend(iteration: nat) returns (backend: Option<nat>, noCli: bool)
      requires Ready(iteration) && iteration >= 1 && Begun(iteration)
      modifies this`clock, this`trace
      ensures Ready(iteration) && Failures(trace) == Failures(old(trace)) && SessionsBefore(trace, iteration, 0)
      ensures old(trace) <= trace && old(clock) <= clock
      ensures backend.Some? ==> Chosen(iteration, 0, backend.value) && (backend.value > 0 ==> Looked(iteration))
      ensures backend.None? ==>
                AllPassedOver(trace, iteration, |cfg.backends|) && Next(iteration, |cfg.backends|) && Looked(iteration)
      ensures noCli <==> backend.None? && forall b: nat | b < |cfg.backends| :: !env.onPath(iteration, b)
    {
      if trace != [] {
        assert AllowedAt(cfg, trace, |trace| - 1);
      }
      backend := FirstRunnable(iteration, 0);
      noCli := false;
      if backend.None? {
        noCli := NoCliInstalled(iteration);
      }
    }

    /** `_next_runnable_fallback`: the names are distinct, so the position of the limited backend is known. */
    method NextRunnableFallback(iteration: nat, limited: nat) returns (backend: Option<nat>)
      requires Ready(iteration) && iteration >= 1 && limited < |cfg.backends|
      requires OnLadder(iteration, limited + 1, limited + 1) && Next(iteration, limited + 1)
      modifies this`clock, this`trace
      ensures Ready(iteration) && old(trace) <= trace && Failures(trace) == Failures(old(trace))
      ensures backend.Some? ==> limited < backend.value && Chosen(iteration, limited + 1, backend.value)
      ensures backend.None? ==>
                OnLadder(iteration, limited + 1, |cfg.backends|) && Next(iteration, |cfg.backends|)
    {
      backend := FirstRunnable(iteration, limited + 1);
    }

    /** A session on `b` has started and nothing has been logged since. */
    ghost predicate InSession(iteration: nat, b: nat, primary: bool)
      reads this
    {
      && trace != [] && b < |cfg.backends|
      && var past, e := trace[..|trace| - 1], trace[|trace| - 1];
         && e.iteration == iteration && e.what == Started(b, primary)
         && SessionsBefore(past, iteration, b) && AllPassedOver(past, iteration, b)
    }

    /** `run_session`: the exit code, and what the session's log tells of a limit. */
    method RunSession(iteration: nat, b: nat, primary: bool) returns (end: SessionEnd)
      requires Ready(iteration) && iteration >= 1 && Chosen(iteration, b, b) && Failures(trace) < cfg.maxFailures
      requires primary <==> SessionsBefore(trace, iteration, 0)
      requires primary ==> GuardObeyed(cfg, env, iteration, b, clock)
      modifies this`clock, this`trace
      ensures Ready(iteration) && InSession(iteration, b, primary) && Failures(trace) == Failures(old(trace))
      ensures exists at :: trace == old(trace) + [Event(at, iteration, Started(b, primary))]
      ensures end == env.session(|trace|)
    {
      Tick(iteration);
      ghost var e := Now(iteration, Started(b, primary));
      ghost var before := trace;
      SeedIsObeyed(cfg, env, trace, clock, b);
      Log(iteration, Started(b, primary));
      assert trace[..|trace| - 1] == before && trace == before + [e];
      Tick(iteration);
      end := env.session(|trace|);
    }

    /** A session ended without a limit. */
    method EndSession(iteration: nat, b: nat, primary: bool, outcome: Outcome)
      requires Ready(iteration) && iteration >= 1 && InSession(iteration, b, primary) && !outcome.Limited?
      requires Truthful(cfg, env, trace, Now(iteration, Ended(b, primary, outcome)))
      modifies this`trace
      ensures Ready(iteration) && trace == old(trace) + [Now(iteration, Ended(b, primary, outcome))]
      ensures Failures(trace) == if !primary then Failures(old(trace))
                                 else if outcome.Succeeded? then 0 else Failures(old(trace)) + 1
    {
      Log(iteration, Ended(b, primary, outcome));
    }

    lemma AfterLimit(before: seq<Event>, iteration: nat, b: nat, primary: bool, e: Event)
      requires before != [] && before[|before| - 1].iteration == iteration
      requires before[|before| - 1].what == Started(b, primary)
      requires SessionsBefore(before[..|before| - 1], iteration, b)
      requires AllPassedOver(before[..|before| - 1], iteration, b)
      requires trace == before + [e] && e.iteration == iteration && LimitEnds(e.what, b)
      ensures OnLadder(iteration, b + 1, b + 1)
    {
      var n := |before| - 1;
      var past, s := before[..n], before[n];
      assert before == past + [s];
      forall j | 0 <= j < |trace| && trace[j].iteration == iteration && trace[j].what.Started?
        ensures trace[j].what.backend < b + 1 && WasLimited(trace, iteration, trace[j].what.backend)
      {
        if j < n {
          assert trace[j] == past[j];
          WasLimitedSnoc(past, iteration, s, trace[j].what.backend);
          WasLimitedSnoc(before, iteration, e, trace[j].what.backend);
        } else {
          assert j == n;
          WasLimitedSnoc(before, iteration, e, b);
        }
      }
      forall q: nat | q < b + 1
        ensures PassedOver(trace, iteration, q)
      {
        if q < b {
          PassedOverSnoc(past, iteration, s, q);
        }
        PassedOverSnoc(before, iteration, e, q);
      }
    }

    /** The limited backend, and for a global claude limit every claude backend, cools down until `reset`. */
    predicate LimitCooled(before: map<string, Option<int>>, after: map<string, Option<int>>, b: nat, reset: int,
                          global: bool)
      requires b < |cfg.backends|
    {
      && before.Keys == after.Keys
      && forall c: nat | c < |cfg.backends| ::
           var name := cfg.backends[c].name;
           name in before && name in after
           && after[name] == if LimitReaches(cfg, b, global, c) then Some(reset) else before[name]
    }

    /** `_handle_backend_limit`, given the reset time and the scope that the session's log tells. */
    method HandleBackendLimit(iteration: nat, b: nat, primary: bool, found: Option<int>, global: bool)
      returns (limited: bool)
      requires Ready(iteration) && iteration >= 1 && InSession(iteration, b, primary)
      requires found.Some? ==>
                 Truthful(cfg, env, trace, Now(iteration, Ended(b, primary, Limited(found.value, global))))
      modifies this`cooldowns, this`trace
      ensures Ready(iteration) && Failures(trace) == Failures(old(trace)) && old(trace) <= trace
      ensures limited <==> found.Some?
      ensures limited ==> OnLadder(iteration, b + 1, b + 1) && !SessionsBefore(trace, iteration, 0)
      ensures limited ==> Next(iteration, b + 1)
      ensures limited ==> LimitCooled(old(cooldowns), cooldowns, b, found.value, global)
      ensures limited ==> trace == old(trace) + [Now(iteration, Ended(b, primary, Limited(found.value, global)))]
      ensures !limited ==> trace == old(trace) && cooldowns == old(cooldowns)
    {
      if found.None? {
        return false;
      }
      var table := CoolDown(iteration, b, found.value, global);
      ghost var what := Ended(b, primary, Limited(found.value, global));
      ghost var was := trace;
      LogCooldown(iteration, Ended(b, primary, Limited(found.value, global)), table);
      assert trace[|was| - 1] == was[|was| - 1];
      AfterLimit(was, iteration, b, primary, Now(iteration, what));
      limited := true;
    }

    /** The table with the limited backends cooling down. */
    method CoolDown(iteration: nat, b: nat, reset: int, global: bool) returns (table: map<string, Option<int>>)
      requires Ready(iteration) && b < |cfg.backends|
      ensures LimitCooled(cooldowns, table, b, reset, global)
    {
      var name := cfg.backends[b].name;
      assert forall c: nat | c < |cfg.backends| :: AgreesAt(cfg, cooldowns, trace, clock, c);
      table := cooldowns[name := Some(reset)];
      if cfg.backends[b].claude && global {
        for i := 0 to |cfg.backends|
          invariant table.Keys == cooldowns.Keys
          invariant forall c: nat | c < |cfg.backends| ::
                      var other := cfg.backends[c].name;
                      other in table && other in cooldowns
                      && table[other] == if c == b || (c < i && cfg.backends[c].claude) then Some(reset)
                                         else cooldowns[other]
        {
          var other := cfg.backends[i];
          if other.name != name && other.claude {
            table := table[other.name := Some(reset)];
          }
        }
      }
    }

    /** `_next_backend_reset`: the earliest reset time still ahead. */
    method NextBackendReset(iteration: nat) returns (reset: Option<int>)
      requires Ready(iteration)
      modifies this`clock
      ensures Ready(iteration) && old(clock) <= clock
      ensures reset.Some? ==> (exists name | name in cooldowns :: cooldowns[name] == reset) && clock < reset.value
      ensures forall name | name in cooldowns && Cooling(cooldowns[name], clock) ::
                reset.Some? && reset.value <= cooldowns[name].value
    {
      Tick(iteration);
      reset := None;
      for i := 0 to |cfg.backends|
        invariant Ready(iteration)
        invariant reset.Some? ==> (exists name | name in cooldowns :: cooldowns[name] == reset) && clock < reset.value
        invariant forall b: nat | b < i && Cooling(cooldowns[cfg.backends[b].name], clock) ::
                    reset.Some? && reset.value <= cooldowns[cfg.backends[b].name].value
      {
        assert AgreesAt(cfg, cooldowns, trace, clock, i);
        var until := cooldowns[cfg.backends[i].name];
        if until.Some? && until.value > clock && (reset.None? || until.value < reset.value) {
          reset := until;
        }
      }
      forall name | name in cooldowns && Cooling(cooldowns[name], clock)
        ensures reset.Some? && reset.value <= cooldowns[name].value
      {
        var b: nat :| b < |cfg.backends| && cfg.backends[b].name == name;
      }
    }

    /** `interruptible_sleep`: `cut` when a stop ended it early. */
    method Sleep(iteration: nat, seconds: int) returns (cut: bool)
      requires Ready(iteration)
      modifies this`clock
      ensures Ready(iteration) && old(clock) <= clock
      ensures cut == env.wokenIn(iteration)
      ensures !cut ==> old(clock) + seconds * SECOND <= clock
    {
      var wake := clock + seconds * SECOND;
      Tick(iteration);
      cut := env.wokenIn(iteration);
      if !cut {
        AdvanceTo(iteration, wake);
      }
    }

    lemma NextInTrace(name: string, since: int)
      requires Agree(cfg, cooldowns, trace, since) && IsNextReset(cooldowns, name, since)
      ensures exists b: nat | b < |cfg.backends| ::
                NextReset(cfg, trace, b, since) && Cooled(cfg, trace, b) == cooldowns[name]
    {
      var b: nat :| b < |cfg.backends| && cfg.backends[b].name == name;
      assert AgreesAt(cfg, cooldowns, trace, since, b);
      forall c: nat | c < |cfg.backends| && Cooling(Cooled(cfg, trace, c), since)
        ensures Cooled(cfg, trace, b).value <= Cooled(cfg, trace, c).value
      {
        assert AgreesAt(cfg, cooldowns, trace, since, c);
      }
      assert NextReset(cfg, trace, b, since);
    }

    lemma NoneInTrace(since: int)
      requires Agree(cfg, cooldowns, trace, since)
      requires forall name | name in cooldowns :: !Cooling(cooldowns[name], since)
      ensures forall b: nat | b < |cfg.backends| :: !Cooling(Cooled(cfg, trace, b), since)
    {
      forall b: nat | b < |cfg.backends|
        ensures !Cooling(Cooled(cfg, trace, b), since)
      {
        assert AgreesAt(cfg, cooldowns, trace, since, b);
      }
    }

    /** `_sleep_until_backend_reset`: a sleep that is not cut short ends a buffer after the earliest reset,
        give or take the second that the delay is truncated by. The earliest one is taken at the time `since`. */
    method SleepUntilBackendReset(iteration: nat) returns (slept: bool, cut: bool, ghost since: int)
      requires Ready(iteration)
      modifies this`clock
      ensures Ready(iteration)
      ensures !slept ==> forall name | name in cooldowns :: !Cooling(cooldowns[name], clock)
      ensures old(clock) <= since <= clock && (slept ==> cut == env.wokenIn(iteration))
      ensures slept && !cut ==> exists name | name in cooldowns ::
                && IsNextReset(cooldowns, name, since)
                && cooldowns[name].value + (RATE_LIMIT_BUFFER - 1) * SECOND < clock
      ensures !slept || !cut ==> SleptFrom(cfg, trace, since, clock)
    {
      var reset := NextBackendReset(iteration);
      since := clock;
      if reset.None? {
        NoneInTrace(since);
        return false, false, clock;
      }
      ghost var name :| name in cooldowns && cooldowns[name] == reset;
      NextInTrace(name, since);
      Tick(iteration);
      DelayPassesReset(reset.value, clock);
      cut := Sleep(iteration, Delay(reset.value, clock));
      slept := true;
    }

    /** With every position passed over, the last event belongs to this iteration. */
    lemma LastIsNow(iteration: nat)
      requires Ready(iteration) && iteration >= 1 && AllPassedOver(trace, iteration, |cfg.backends|)
      ensures trace != [] && Blocks(cfg, trace[|trace| - 1].what) ==> trace[|trace| - 1].iteration == iteration
    {
      if trace != [] {
        HasBackends(cfg, trace);
        assert PassedOver(trace, iteration, 0);
        var j :| 0 <= j < |trace| && trace[j].iteration == iteration;
        TimesGrow(cfg, trace, j, |trace| - 1);
      }
    }

    /** No reset is ahead. */
    predicate NoneAhead()
      reads this
    {
      forall b: nat | b < |cfg.backends| :: !Cooling(Cooled(cfg, trace, b), clock)
    }

    /** The sleep of an iteration in which nothing is left to run. */
    method SleepBlocked(iteration: nat) returns (slept: bool)
      requires Ready(iteration) && iteration >= 1
      requires AllPassedOver(trace, iteration, |cfg.backends|) && Next(iteration, |cfg.backends|)
      modifies this`clock
      ensures Ready(iteration) && Quiet(iteration + 1) && (!slept ==> NoneAhead())
    {
      var cut;
      ghost var since;
      LastIsNow(iteration);
      slept, cut, since := SleepUntilBackendReset(iteration);
      if !slept {
        NoneInTrace(clock);
      }
    }

    /** Time passes before the next iteration. */
    method Rest(iteration: nat)
      requires Ready(iteration) && Quiet(iteration + 1)
      modifies this`clock
      ensures Ready(iteration) && Quiet(iteration + 1) && old(clock) <= clock
    {
      ghost var before := clock;
      Tick(iteration);
      WaitedLater(cfg, env, trace, iteration + 1, before, clock);
    }

    /** A session is over: unless a stop came, its outcome is logged as its exit code and its log tell it. */
    method FinishSession(iteration: nat, b: nat, primary: bool, end: SessionEnd) returns (stop: bool, limited: bool)
      requires Ready(iteration) && iteration >= 1 && InSession(iteration, b, primary) && end == env.session(|trace|)
      modifies this`cooldowns, this`trace
      ensures Ready(iteration) && old(trace) <= trace
      ensures stop <==> env.stopAfter(|old(trace)|)
      ensures stop ==> trace == old(trace) && cooldowns == old(cooldowns)
      ensures limited <==> !stop && end.rc != 0 && end.reset.Some?
      ensures limited ==>
                trace == old(trace) + [Now(iteration, Ended(b, primary, Limited(end.reset.value, end.global)))]
      ensures limited ==> LimitCooled(old(cooldowns), cooldowns, b, end.reset.value, end.global)
      ensures !stop && !limited ==>
                trace == old(trace) + [Now(iteration, Ended(b, primary, if end.rc == 0 then Succeeded else Failed))]
      ensures limited ==> OnLadder(iteration, b + 1, b + 1) && Next(iteration, b + 1)
      ensures limited ==> !SessionsBefore(trace, iteration, 0)
      ensures Failures(trace) == if stop || limited || !primary then Failures(old(trace))
                                 else if end.rc == 0 then 0 else Failures(old(trace)) + 1
    {
      limited := false;
      stop := env.stopAfter(|trace|);
      if stop {
        return;
      }
      if end.rc != 0 {
        limited := HandleBackendLimit(iteration, b, primary, end.reset, end.global);
      }
      if !limited {
        EndSession(iteration, b, primary, if end.rc == 0 then Succeeded else Failed);
      }
    }

    /** Nothing is left to look at, or a stop came during the last session. */
    ghost predicate Done()
      reads this
    {
      Settled(cfg, trace)
    }

    /** The last session was over when a stop came. */
    ghost predicate StoppedAfter()
      reads this
    {
      trace != [] && trace[|trace| - 1].what.Started? && env.stopAfter(|trace|)
    }

    /** After a limit on position `name` the ladder goes on with `alternate`, or has come to its end. */
    ghost predicate GoesOn(iteration: nat, name: nat, alternate: Option<nat>)
      reads this
    {
      && name < |cfg.backends| && !SessionsBefore(trace, iteration, 0)
      && if alternate.Some? then name < alternate.value && Chosen(iteration, name + 1, alternate.value)
         else AllPassedOver(trace, iteration, |cfg.backends|) && Next(iteration, |cfg.backends|)
    }

    /** One fallback session, and the next fallback if it ran into a limit. */
    method RunFallback(iteration: nat, above: nat, name: nat)
      returns (stop: bool, limited: bool, alternate: Option<nat>)
      requires Ready(iteration) && iteration >= 1 && GoesOn(iteration, above, Some(name))
      requires Failures(trace) < cfg.maxFailures
      modifies this`clock, this`cooldowns, this`trace
      ensures Ready(iteration) && Failures(trace) == Failures(old(trace)) && old(trace) <= trace
      ensures limited ==> !stop && GoesOn(iteration, name, alternate)
      ensures stop ==> StoppedAfter()
      ensures !stop && !limited ==> Quiet(iteration + 1)
    {
      alternate := None;
      var end := RunSession(iteration, name, false);
      stop, limited := FinishSession(iteration, name, false, end);
      if limited {
        alternate := FallbackBelow(iteration, name);
      }
    }

    method FallbackBelow(iteration: nat, name: nat) returns (alternate: Option<nat>)
      requires Ready(iteration) && iteration >= 1 && name < |cfg.backends|
      requires OnLadder(iteration, name + 1, name + 1) && Next(iteration, name + 1)
      requires !SessionsBefore(trace, iteration, 0)
      modifies this`clock, this`trace
      ensures Ready(iteration) && Failures(trace) == Failures(old(trace)) && old(trace) <= trace
      ensures GoesOn(iteration, name, alternate)
    {
      ghost var before := trace;
      alternate := NextRunnableFallback(iteration, name);
      SessionsStay(before, trace, iteration);
    }

    /** The rest of an iteration whose primary session ran into a limit: fallbacks until one is not limited.
        `asleep` means that all were and the loop slept until a reset. */
    method RunFallbacks(iteration: nat, primary: nat) returns (stop: bool, asleep: bool)
      requires Ready(iteration) && iteration >= 1 && primary < |cfg.backends|
      requires OnLadder(iteration, primary + 1, primary + 1) && Failures(trace) < cfg.maxFailures
      requires !SessionsBefore(trace, iteration, 0) && Next(iteration, primary + 1)
      modifies this`clock, this`cooldowns, this`trace
      ensures Ready(iteration) && Failures(trace) == Failures(old(trace)) && old(trace) <= trace
      ensures if stop then StoppedAfter() else Quiet(iteration + 1)
      ensures asleep ==> !stop && AllPassedOver(trace, iteration, |cfg.backends|)
    {
      var name := primary;
      var alternate := FallbackBelow(iteration, name);
      while alternate.Some?
        invariant Ready(iteration) && Failures(trace) == Failures(old(trace)) && old(trace) <= trace
        invariant GoesOn(iteration, name, alternate)
        decreases |cfg.backends| - name
      {
        var limited;
        var above := name;
        name := alternate.value;
        stop, limited, alternate := RunFallback(iteration, above, name);
        if !limited {
          return stop, false;
        }
      }
      stop := false;
      asleep := SleepBlocked(iteration);
    }

    /** The primary session of an iteration and what it does to the failure count. */
    method RunPrimary(iteration: nat, name: nat, failures0: nat)
      returns (end: SessionEnd, stop: bool, limited: bool, failures: nat)
      requires Ready(iteration) && iteration >= 1 && Chosen(iteration, 0, name) && SessionsBefore(trace, iteration, 0)
      requires Failures(trace) == failures0 < cfg.maxFailures && GuardObeyed(cfg, env, iteration, name, clock)
      modifies this`clock, this`cooldowns, this`trace
      ensures Ready(iteration) && Failures(trace) == failures && old(trace) <= trace
      ensures |trace| > |old(trace)| && trace[|old(trace)|].iteration == iteration
              && trace[|old(trace)|].what == Started(name, true)
      ensures end == env.session(|old(trace)| + 1) && (stop <==> env.stopAfter(|old(trace)| + 1))
      ensures stop ==> |trace| == |old(trace)| + 1
      ensures !stop ==> |trace| == |old(trace)| + 2 && trace[|old(trace)| + 1].iteration == iteration
                        && trace[|old(trace)| + 1].what ==
                           Ended(name, true, if end.rc == 0 then Succeeded
                                             else if end.reset.Some? then Limited(end.reset.value, end.global)
                                             else Failed)
      ensures failures == if stop || (end.rc != 0 && end.reset.Some?) then failures0
                          else if end.rc == 0 then 0 else failures0 + 1
      ensures limited <==> !stop && end.rc != 0 && end.reset.Some?
      ensures limited ==> !SessionsBefore(trace, iteration, 0)
      ensures limited ==> OnLadder(iteration, name + 1, name + 1) && Next(iteration, name + 1)
    {
      end := RunSession(iteration, name, true);
      ghost var started := trace;
      stop, limited := FinishSession(iteration, name, true, end);
      failures := if stop || limited then failures0 else if end.rc == 0 then 0 else failures0 + 1;
    }

    /** The top of an iteration, up to the choice of a backend. */
    method ChooseBackend(iteration: nat) returns (backend: Option<nat>, noCli: bool)
      requires Ready(iteration) && iteration >= 1 && Begun(iteration)
      modifies this`clock, this`cooldowns, this`trace
      ensures Ready(iteration) && Failures(trace) == Failures(old(trace)) && SessionsBefore(trace, iteration, 0)
      ensures old(trace) <= trace
      ensures backend.Some? ==> Chosen(iteration, 0, backend.value) && (backend.value > 0 ==> Looked(iteration))
      ensures backend.Some? ==> GuardObeyed(cfg, env, iteration, backend.value, clock)
      ensures backend.None? ==>
                AllPassedOver(trace, iteration, |cfg.backends|) && Next(iteration, |cfg.backends|) && Looked(iteration)
      ensures noCli <==> backend.None? && forall b: nat | b < |cfg.backends| :: !env.onPath(iteration, b)
    {
      ClearExpiredCooldowns(iteration);
      ghost var before := cooldowns;
      if cfg.hasBudgetGuard {
        BudgetGuard(iteration);
      }
      ghost var now := clock;
      backend, noCli := SelectBackend(iteration);
      if backend.Some? {
        GuardTaken(iteration, before, now, backend.value);
      }
    }

    lemma GuardTaken(iteration: nat, before: map<string, Option<int>>, now: int, b: nat)
      requires Ready(iteration) && b < |cfg.backends| && now <= clock && !Cooling(Cooled(cfg, trace, b), clock)
      requires before.Keys == cooldowns.Keys
      requires cfg.hasBudgetGuard ==> cooldowns == MergeAll(before, env.guard(iteration), now, true)
      ensures GuardObeyed(cfg, env, iteration, b, clock)
    {
      assert AgreesAt(cfg, cooldowns, trace, clock, b);
      GuardNeverShortens(before, env.guard(iteration), now, cfg.backends[b].name);
    }

    /** The sessions of an iteration whose primary backend is chosen. */
    method RunChosen(iteration: nat, name: nat, failures0: nat) returns (ended: Option<Reason>, failures: nat)
      requires Ready(iteration) && iteration >= 1 && Chosen(iteration, 0, name) && SessionsBefore(trace, iteration, 0)
      requires Failures(trace) == failures0 < cfg.maxFailures && GuardObeyed(cfg, env, iteration, name, clock)
      requires name > 0 ==> Looked(iteration)
      modifies this`clock, this`cooldowns, this`trace
      ensures Ready(iteration) && Failures(trace) == failures && old(trace) <= trace && LookedIn(cfg, trace, iteration)
      ensures ended.None? ==> Quiet(iteration + 1) && failures < cfg.maxFailures
      ensures ended.Some? ==> Settled(cfg, trace) && ended.value in {StopSeen, FailureCap}
      ensures ended == Some(StopSeen) <==> StoppedAfter()
      ensures ended == Some(FailureCap) <==> failures >= cfg.maxFailures
    {
      ghost var chosen := trace;
      var end, stop, limited;
      end, stop, limited, failures := RunPrimary(iteration, name, failures0);
      PrimaryLooks(chosen, iteration, name);
      if stop {
        return Some(StopSeen), failures;
      }
      if failures >= cfg.maxFailures {
        return Some(FailureCap), failures;
      }
      if limited {
        ghost var ran := trace;
        var asleep;
        stop, asleep := RunFallbacks(iteration, name);
        LooksStay(cfg, ran, trace);
        if stop {
          return Some(StopSeen), failures;
        }
        if asleep {
          return None, failures;
        }
      }
      Rest(iteration);
      ended := None;
    }

    lemma PrimaryLooks(before: seq<Event>, iteration: nat, name: nat)
      requires before < trace && (name > 0 ==> LookedIn(cfg, before, iteration))
      requires trace[|before|].iteration == iteration && trace[|before|].what == Started(name, true)
      ensures LookedIn(cfg, trace, iteration)
    {
      LooksStay(cfg, before, trace);
    }

    predicate NoneOnPath(iteration: nat) {
      forall b: nat | b < |cfg.backends| :: !env.onPath(iteration, b)
    }

    /** One iteration. `ended` is why the loop ends in it, if it does. */
    method RunIteration(iteration: nat, failures0: nat) returns (ended: Option<Reason>, failures: nat)
      requires Ready(iteration) && iteration >= 1 && Begun(iteration) && Quiet(iteration)
      requires Failures(trace) == failures0 < cfg.maxFailures
      modifies this`clock, this`cooldowns, this`trace
      ensures Ready(iteration) && Failures(trace) == failures && old(trace) <= trace && LookedIn(cfg, trace, iteration)
      ensures ended.None? ==> Quiet(iteration + 1) && failures < cfg.maxFailures
      ensures ended.Some? ==> Settled(cfg, trace) && ended.value in {NoCli, NothingRunnable, StopSeen, FailureCap}
      ensures ended == Some(StopSeen) <==> StoppedAfter()
      ensures ended == Some(FailureCap) <==> failures >= cfg.maxFailures
      ensures ended == Some(NoCli) || ended == Some(NothingRunnable) ==> AllPassedOver(trace, iteration, |cfg.backends|)
      ensures ended == Some(NoCli) || ended == Some(NothingRunnable) ==>
                (ended == Some(NoCli) <==> NoneOnPath(iteration))
      ensures ended == Some(NothingRunnable) ==> NoneAhead()
    {
      failures := failures0;
      var backend, noCli := ChooseBackend(iteration);
      if noCli {
        return Some(NoCli), failures;
      }
      if backend.None? {
        var slept := SleepBlocked(iteration);
        return if slept then None else Some(NothingRunnable), failures;
      }
      ended, failures := RunChosen(iteration, backend.value, failures0);
    }

    /** The loop is at its top: `turn` turns are behind it, none of them stopped. */
    ghost predicate Turning(iteration: nat, turn: nat, failures: nat)
      reads this
    {
      && Ready(iteration) && Failures(trace) == failures < cfg.maxFailures
      && SeedKept(cfg, env, trace, clock) && Quiet(iteration + 1)
      && Behind(iteration, turn)
    }

    ghost predicate Behind(iteration: nat, turn: nat)
      reads this
    {
      && (forall it: nat | 1 <= it <= iteration :: LookedIn(cfg, trace, it))
      && (forall t: nat | t < turn :: !env.stopAt(t)) && iteration == Iterations(env, turn)
    }

    /** A paused turn. */
    method Pause(iteration: nat, turn: nat, failures: nat)
      requires Turning(iteration, turn, failures) && !env.stopAt(turn) && env.pausedAt(turn)
      modifies this`clock
      ensures Turning(iteration, turn + 1, failures)
    {
      ghost var before := clock;
      Rest(iteration);
      SeedLater(cfg, env, trace, before, clock);
    }

    /** A turn that runs the next iteration. */
    method TakeTurn(iteration: nat, turn: nat, failures0: nat) returns (ended: Option<Reason>, failures: nat)
      requires Turning(iteration, turn, failures0) && iteration < cfg.maxIterations
      requires !env.stopAt(turn) && !env.pausedAt(turn)
      modifies this`clock, this`cooldowns, this`trace
      ensures Ready(iteration + 1) && Failures(trace) == failures && Behind(iteration + 1, turn + 1)
      ensures ended.None? ==> Turning(iteration + 1, turn + 1, failures)
      ensures ended.Some? ==> Settled(cfg, trace) && ended.value in {NoCli, NothingRunnable, StopSeen, FailureCap}
      ensures ended == Some(StopSeen) <==> StoppedAfter()
      ensures ended == Some(FailureCap) <==> failures >= cfg.maxFailures
      ensures ended == Some(NoCli) || ended == Some(NothingRunnable) ==>
                AllPassedOver(trace, iteration + 1, |cfg.backends|)
      ensures ended == Some(NoCli) || ended == Some(NothingRunnable) ==>
                (ended == Some(NoCli) <==> NoneOnPath(iteration + 1))
      ensures ended == Some(NothingRunnable) ==> NoneAhead()
    {
      FreshIteration(cfg, trace, iteration + 1);
      ghost var before := trace;
      ended, failures := RunIteration(iteration + 1, failures0);
      LooksStay(cfg, before, trace);
    }

    /** The loop of `run`. */
    method RunLoop(patience: nat) returns (why: Reason, iteration: nat, turn: nat)
      requires Turning(0, 0, 0) && forall t: nat | t >= patience :: !env.pausedAt(t)
      modifies this`clock, this`cooldowns, this`trace
      ensures Ready(iteration) && Behind(iteration, turn) && Settled(cfg, trace) && why != LockHeld
      ensures why == StopSeen ==> env.stopAt(turn) || StoppedAfter()
      ensures StoppedAfter() ==> why == StopSeen
      ensures why == FailureCap <==> Failures(trace) >= cfg.maxFailures
      ensures why == IterationCap ==> iteration == cfg.maxIterations
      ensures why == NothingRunnable || why == NoCli ==>
                AllPassedOver(trace, iteration, |cfg.backends|) && (why == NoCli <==> NoneOnPath(iteration))
      ensures why == NothingRunnable ==> NoneAhead()
    {
      iteration, turn := 0, 0;
      var consecutiveFailures := 0;
      while true
        invariant Turning(iteration, turn, consecutiveFailures)
        decreases (if turn < patience then patience - turn else 0) + (cfg.maxIterations - iteration)
      {
        if env.stopAt(turn) {
          return StopSeen, iteration, turn;
        }
        if env.pausedAt(turn) {
          Pause(iteration, turn, consecutiveFailures);
          turn := turn + 1;
          continue;
        }
        if iteration >= cfg.maxIterations {
          return IterationCap, iteration, turn;
        }
        var ended;
        ended, consecutiveFailures := TakeTurn(iteration, turn, consecutiveFailures);
        iteration, turn := iteration + 1, turn + 1;
        if ended.Some? {
          return ended.value, iteration, turn;
        }
      }
    }

    /** `run`. The pause flag is found set only in the first `patience` turns of the loop; everything else that the
        loop reads is arbitrary. `turn` is how many turns got past the stop flag, and past the cap unless paused. */
    method Run(patience: nat) returns (code: int, why: Reason, iteration: nat, turn: nat)
      requires Ready(0) && trace == [] && forall name | name in cooldowns :: cooldowns[name].None?
      requires forall t: nat | t >= patience :: !env.pausedAt(t)
      modifies this
      ensures Legal(cfg, trace) && Told(cfg, env, trace) && Settled(cfg, trace)
      ensures Starts(trace) <= cfg.maxIterations * |cfg.backends|
      ensures forall k | 0 <= k < |trace| && trace[k].what.Ended? ::
                var end := env.session(k);
                && !env.stopAfter(k)
                && (trace[k].what.outcome.Succeeded? <==> end.rc == 0)
                && (end.rc != 0 && end.reset.Some? ==> trace[k].what.outcome == Limited(end.reset.value, end.global))
                && (end.rc != 0 && end.reset.None? ==> trace[k].what.outcome.Failed?)
      ensures forall it: nat | 1 <= it <= iteration && |cfg.backends| > 0 :: LookedIn(cfg, trace, it)
      ensures forall t: nat | t < turn :: !env.stopAt(t)
      ensures why == LockHeld <==> !env.lockFree
      ensures why == StopSeen ==> env.stopAt(turn) || StoppedAfter()
      ensures StoppedAfter() ==> why == StopSeen
      ensures iteration == Iterations(env, turn)
      ensures why == FailureCap <==> Failures(trace) >= cfg.maxFailures
      ensures why == IterationCap ==> iteration == cfg.maxIterations
      ensures why == NothingRunnable || why == NoCli ==> AllPassedOver(trace, iteration, |cfg.backends|)
      ensures why == NoCli ==> forall b: nat | b < |cfg.backends| :: !env.onPath(iteration, b)
      ensures why == NothingRunnable ==> exists b: nat | b < |cfg.backends| :: env.onPath(iteration, b)
      ensures why == NothingRunnable ==> forall b: nat | b < |cfg.backends| :: !Cooling(Cooled(cfg, trace, b), clock)
      ensures code == if why == LockHeld || why == NoCli then 1 else 0
    {
      SessionsBounded(cfg, trace);
      if !env.lockFree {
        return 1, LockHeld, 0, 0;
      }
      SeedCooldowns();
      why, iteration, turn := RunLoop(patience);
      code := if why == NoCli then 1 else 0;
      SessionsBounded(cfg, trace);
      OutcomesTold(cfg, env, trace);
    }
  }
}
