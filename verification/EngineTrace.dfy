/** What a run of the session loop may do, told as its trace, and what follows for every such trace. */
module EngineTrace {
  import opened Wrappers

  /** A backend, and whether it is invoked through the claude CLI (the other kind is codex). */
  datatype Backend = Backend(name: string, claude: bool)

  datatype Config = Config(backends: seq<Backend>, maxIterations: nat, maxFailures: nat, hasBudgetGuard: bool)

  predicate ValidConfig(cfg: Config) {
    && cfg.maxIterations > 0 && cfg.maxFailures > 0
    && forall i, j | 0 <= i < j < |cfg.backends| :: cfg.backends[i].name != cfg.backends[j].name
  }

  /** How a session came out: it succeeded, it ran into a rate limit with a known reset, or it failed otherwise. */
  datatype Outcome = Succeeded | Limited(reset: int, global: bool) | Failed

  /** What a cooldown hook prints: backend names and parsed reset times. */
  type Horizons = seq<(string, Option<int>)>

  /** What is known of a session when it is over: its exit code, and the reset and scope of a limit its log tells. */
  datatype SessionEnd = SessionEnd(rc: int, reset: Option<int>, global: bool)

  /** Everything a run reads from outside, but for the clock. */
  datatype Environment = Environment(
    lockFree: bool,
    seeded: Horizons,                 // the seeding hook
    guard: nat -> Horizons,           // the budget guard, by iteration
    installed: nat -> bool,           // the CLI of the backend looked at, by the number of events logged before
    onPath: (nat, nat) -> bool,       // a look at all CLIs, by iteration and position
    session: nat -> SessionEnd,       // by the number of events logged when the session is over
    stopAfter: nat -> bool,           // the stop flag right after that session
    stopAt: nat -> bool,              // the stop flag at the top of each turn of the loop
    pausedAt: nat -> bool,            // the pause flag there
    wokenIn: nat -> bool)             // a stop cut short the sleep of that iteration

  /** A position in the priority list stands for the backend there. */
  datatype What =
    | Seeded(backend: nat, until: int)
    | Held(backend: nat, until: int)
    | Refused(backend: nat, missing: bool)
    | Started(backend: nat, primary: bool)
    | Ended(backend: nat, primary: bool, outcome: Outcome)

  datatype Event = Event(at: int, iteration: nat, what: What)

  // ---- Cooldowns and failures as the trace tells them --------------------------------------------

  /** A limit on `x` also holds for `b`. */
  predicate LimitReaches(cfg: Config, x: nat, global: bool, b: nat)
    requires x < |cfg.backends| && b < |cfg.backends|
  {
    x == b || (global && cfg.backends[x].claude && cfg.backends[b].claude)
  }

  /** The reset time this event gives `b`. */
  function Sets(cfg: Config, what: What, b: nat): Option<int>
    requires b < |cfg.backends|
  {
    match what
    case Seeded(x, until) => if x == b then Some(until) else None
    case Held(x, until) => if x == b then Some(until) else None
    case Ended(x, _, Limited(reset, global)) =>
      if x < |cfg.backends| && LimitReaches(cfg, x, global, b) then Some(reset) else None
    case _ => None
  }

  /** The reset time of `b` that is in force after the trace. */
  function Cooled(cfg: Config, trace: seq<Event>, b: nat): Option<int>
    requires b < |cfg.backends|
  {
    if trace == [] then None
    else
      var until := Sets(cfg, trace[|trace| - 1].what, b);
      if until.Some? then until else Cooled(cfg, trace[..|trace| - 1], b)
  }

  predicate Cooling(until: Option<int>, now: int) {
    until.Some? && now < until.value
  }

  /** Unlimited primary failures since the last primary success. */
  function Failures(trace: seq<Event>): nat {
    if trace == [] then 0
    else
      var n := Failures(trace[..|trace| - 1]);
      match trace[|trace| - 1].what
      case Ended(_, true, Succeeded) => 0
      case Ended(_, true, Failed) => n + 1
      case _ => n
  }

  // ---- What may come next ---------------------------------------------------------------------------

  /** In this iteration backend `b` was found not runnable, or a session on it was limited. */
  predicate PassedOver(trace: seq<Event>, iteration: nat, b: nat) {
    exists j | 0 <= j < |trace| :: trace[j].iteration == iteration && PassesOver(trace[j].what, b)
  }

  predicate PassesOver(what: What, b: nat) {
    match what
    case Refused(x, _) => x == b
    case Ended(x, _, Limited(_, _)) => x == b
    case _ => false
  }

  predicate LimitEnds(what: What, b: nat) {
    what.Ended? && what.backend == b && what.outcome.Limited?
  }

  predicate WasLimited(trace: seq<Event>, iteration: nat, b: nat) {
    exists j | 0 <= j < |trace| :: trace[j].iteration == iteration && LimitEnds(trace[j].what, b)
  }

  /** Every session of this iteration so far ran on a backend before position `b` and was limited. */
  predicate SessionsBefore(trace: seq<Event>, iteration: nat, b: nat) {
    forall j | 0 <= j < |trace| && trace[j].iteration == iteration && trace[j].what.Started? ::
      trace[j].what.backend < b && WasLimited(trace, iteration, trace[j].what.backend)
  }

  predicate AllPassedOver(trace: seq<Event>, iteration: nat, b: nat) {
    forall q: nat | q < b :: PassedOver(trace, iteration, q)
  }

  predicate MayStart(cfg: Config, past: seq<Event>, e: Event, b: nat, primary: bool) {
    && b < |cfg.backends| && e.iteration >= 1
    && !Cooling(Cooled(cfg, past, b), e.at)
    && Failures(past) < cfg.maxFailures
    && SessionsBefore(past, e.iteration, b)
    && (primary <==> SessionsBefore(past, e.iteration, 0))
    && AllPassedOver(past, e.iteration, b)
  }

  /** After this event the ladder goes no further down in its iteration. */
  predicate Rests(cfg: Config, what: What) {
    match what
    case Seeded(_, _) => true
    case Held(_, _) => false
    case Refused(b, _) => b + 1 >= |cfg.backends|
    case Started(_, _) => false
    case Ended(b, _, Limited(_, _)) => b + 1 >= |cfg.backends|
    case Ended(_, _, _) => true
  }

  /** Right after the event `last` the loop may look at position `b`, in this iteration. */
  predicate LooksNext(cfg: Config, last: Event, iteration: nat, b: nat) {
    match last.what
    case Held(_, _) => iteration == last.iteration && b == 0
    case Started(_, _) => false
    case Refused(x, _) => LooksBelow(cfg, last, x, iteration, b)
    case Ended(x, _, Limited(_, _)) => LooksBelow(cfg, last, x, iteration, b)
    case _ => iteration > last.iteration && b == 0
  }

  /** Position `x` was passed over by the event `last`: the next look is at the one below, if there is one. */
  predicate LooksBelow(cfg: Config, last: Event, x: nat, iteration: nat, b: nat) {
    if x + 1 < |cfg.backends| then iteration == last.iteration && b == x + 1 else iteration > last.iteration && b == 0
  }

  /** Right after the event `last` an iteration may begin, or its budget guard may go on. */
  predicate AtTop(cfg: Config, last: Event, iteration: nat) {
    if last.what.Held? then iteration == last.iteration
    else Rests(cfg, last.what) && (iteration > last.iteration || (last.what.Seeded? && iteration == 0))
  }

  predicate MayFollow(cfg: Config, last: Event, e: Event) {
    match e.what
    case Seeded(_, _) => AtTop(cfg, last, e.iteration)
    case Held(_, _) => AtTop(cfg, last, e.iteration)
    case Refused(b, _) => LooksNext(cfg, last, e.iteration, b)
    case Started(b, _) => LooksNext(cfg, last, e.iteration, b)
    case Ended(_, _, _) => last.what.Started?
  }

  predicate Allowed(cfg: Config, past: seq<Event>, e: Event) {
    && (past != [] ==> past[|past| - 1].at <= e.at && past[|past| - 1].iteration <= e.iteration)
    && (past != [] ==> MayFollow(cfg, past[|past| - 1], e))
    && e.iteration <= cfg.maxIterations
    && match e.what
       case Seeded(b, until) => b < |cfg.backends| && e.iteration == 0 && e.at < until
       case Held(b, until) =>
         && b < |cfg.backends| && e.iteration >= 1 && e.at < until
         && var c := Cooled(cfg, past, b); c.Some? ==> c.value < until
       case Refused(b, missing) =>
         b < |cfg.backends| && e.iteration >= 1 && (missing || Cooling(Cooled(cfg, past, b), e.at))
       case Started(b, primary) => MayStart(cfg, past, e, b, primary)
       case Ended(b, primary, _) =>
         past != [] && past[|past| - 1].what == Started(b, primary) && past[|past| - 1].iteration == e.iteration
  }

  predicate AllowedAt(cfg: Config, trace: seq<Event>, k: nat) {
    k < |trace| && Allowed(cfg, trace[..k], trace[k])
  }

  /** Every event was allowed when it happened. */
  predicate Legal(cfg: Config, trace: seq<Event>) {
    forall k: nat | k < |trace| :: AllowedAt(cfg, trace, k)
  }

  lemma LegalSnoc(cfg: Config, trace: seq<Event>, e: Event)
    requires Legal(cfg, trace) && Allowed(cfg, trace, e)
    ensures Legal(cfg, trace + [e])
  {
    var more := trace + [e];
    forall k: nat | k < |more|
      ensures AllowedAt(cfg, more, k)
    {
      if k < |trace| {
        assert AllowedAt(cfg, trace, k) && more[..k] == trace[..k];
      } else {
        assert more[..k] == trace;
      }
    }
  }

  lemma LegalPrefix(cfg: Config, trace: seq<Event>, n: nat)
    requires Legal(cfg, trace) && n <= |trace|
    ensures Legal(cfg, trace[..n])
  {
    forall k: nat | k < n
      ensures AllowedAt(cfg, trace[..n], k)
    {
      assert AllowedAt(cfg, trace, k) && trace[..n][..k] == trace[..k];
    }
  }

  lemma HasBackends(cfg: Config, trace: seq<Event>)
    requires Legal(cfg, trace) && trace != []
    ensures |cfg.backends| > 0
  {
    assert AllowedAt(cfg, trace, 0);
  }

  lemma {:induction false} TimesGrow(cfg: Config, trace: seq<Event>, i: nat, k: nat)
    requires Legal(cfg, trace) && i <= k < |trace|
    ensures trace[i].at <= trace[k].at && trace[i].iteration <= trace[k].iteration
    decreases k
  {
    if i < k {
      TimesGrow(cfg, trace, i, k - 1);
      assert AllowedAt(cfg, trace, k);
      assert trace[..k][k - 1] == trace[k - 1];
    }
  }

  // ---- What the trace says is what was read ----------------------------------------------------------

  /** The last entry of a hook for this backend that can be read. */
  predicate IsLastFor(entries: Horizons, name: string, i: nat) {
    && i < |entries| && entries[i].0 == name && entries[i].1.Some?
    && forall j | i < j < |entries| && entries[j].0 == name :: entries[j].1.None?
  }

  /** No limit and no budget hold has set the cooldown of `b` so far. */
  predicate Untouched(cfg: Config, past: seq<Event>, b: nat)
    requires b < |cfg.backends|
  {
    forall j | 0 <= j < |past| && past[j].iteration >= 1 :: Sets(cfg, past[j].what, b).None?
  }

  /** An untouched backend is not used before the time that the seeding hook told last. */
  predicate SeedObeyed(cfg: Config, env: Environment, past: seq<Event>, b: nat, at: int)
    requires b < |cfg.backends|
  {
    Untouched(cfg, past, b) ==>
      forall i | 0 <= i < |env.seeded| && IsLastFor(env.seeded, cfg.backends[b].name, i) :: env.seeded[i].1.value <= at
  }

  /** A primary session does not start while the budget guard of its iteration holds the backend. */
  predicate GuardObeyed(cfg: Config, env: Environment, iteration: nat, b: nat, at: int)
    requires b < |cfg.backends|
  {
    cfg.hasBudgetGuard ==>
      forall h | h in env.guard(iteration) && h.0 == cfg.backends[b].name :: !Cooling(h.1, at)
  }

  predicate Truthful(cfg: Config, env: Environment, past: seq<Event>, e: Event) {
    match e.what
    case Refused(_, missing) => missing == !env.installed(|past|)
    case Started(b, primary) =>
      && env.installed(|past|) && b < |cfg.backends| && SeedObeyed(cfg, env, past, b, e.at)
      && (primary ==> GuardObeyed(cfg, env, e.iteration, b, e.at))
    case Ended(_, _, outcome) =>
      var end := env.session(|past|);
      && !env.stopAfter(|past|)
      && outcome == if end.rc == 0 then Succeeded
                    else if end.reset.Some? then Limited(end.reset.value, end.global) else Failed
    case _ => true
  }

  /** The last position was passed over: nothing is left to run in the iteration. */
  predicate Blocks(cfg: Config, what: What) {
    match what
    case Refused(b, _) => b + 1 >= |cfg.backends|
    case Ended(b, _, Limited(_, _)) => b + 1 >= |cfg.backends|
    case _ => false
  }

  /** Of the resets ahead at the time `now` that of `b` is the earliest. */
  predicate NextReset(cfg: Config, past: seq<Event>, b: nat, now: int) {
    && b < |cfg.backends| && Cooling(Cooled(cfg, past, b), now)
    && forall c: nat | c < |cfg.backends| && Cooling(Cooled(cfg, past, c), now) ::
         Cooled(cfg, past, b).value <= Cooled(cfg, past, c).value
  }

  /** Times are counted in microseconds. */
  const SECOND := 1_000_000
  const RATE_LIMIT_BUFFER := 120   // seconds

  /** By the time `at` a sleep begun at `since` is over: it ends a buffer after the earliest reset that was ahead, give
      or take the second that the delay is truncated by. With no reset ahead there is none. */
  predicate SleptFrom(cfg: Config, past: seq<Event>, since: int, at: int) {
    || (forall b: nat | b < |cfg.backends| :: !Cooling(Cooled(cfg, past, b), since))
    || exists b: nat | b < |cfg.backends| ::
         NextReset(cfg, past, b, since) && Cooled(cfg, past, b).value + (RATE_LIMIT_BUFFER - 1) * SECOND < at
  }

  ghost predicate SleptBetween(cfg: Config, past: seq<Event>, from: int, at: int) {
    exists since :: from <= since <= at && SleptFrom(cfg, past, since, at)
  }

  /** If nothing was left to run, a next iteration comes only after a sleep, unless a stop cuts it short. */
  ghost predicate Waited(cfg: Config, env: Environment, past: seq<Event>, iteration: nat, at: int) {
    past != [] ==>
      var last := past[|past| - 1];
      last.iteration < iteration && Blocks(cfg, last.what) && !env.wokenIn(last.iteration) ==>
        SleptBetween(cfg, past, last.at, at)
  }

  lemma WaitedLater(cfg: Config, env: Environment, past: seq<Event>, iteration: nat, at: int, later: int)
    requires Waited(cfg, env, past, iteration, at) && at <= later
    ensures Waited(cfg, env, past, iteration, later)
  {
    if past != [] && past[|past| - 1].iteration < iteration && Blocks(cfg, past[|past| - 1].what)
       && !env.wokenIn(past[|past| - 1].iteration) {
      var since :| past[|past| - 1].at <= since <= at && SleptFrom(cfg, past, since, at);
      assert SleptFrom(cfg, past, since, later);
    }
  }

  ghost predicate TruthfulAt(cfg: Config, env: Environment, trace: seq<Event>, k: nat) {
    && k < |trace| && Truthful(cfg, env, trace[..k], trace[k])
    && Waited(cfg, env, trace[..k], trace[k].iteration, trace[k].at)
  }

  ghost predicate Told(cfg: Config, env: Environment, trace: seq<Event>) {
    forall k: nat | k < |trace| :: TruthfulAt(cfg, env, trace, k)
  }

  lemma ToldSnoc(cfg: Config, env: Environment, trace: seq<Event>, e: Event)
    requires Told(cfg, env, trace) && Truthful(cfg, env, trace, e) && Waited(cfg, env, trace, e.iteration, e.at)
    ensures Told(cfg, env, trace + [e])
  {
    var more := trace + [e];
    forall k: nat | k < |more|
      ensures TruthfulAt(cfg, env, more, k)
    {
      if k < |trace| {
        assert TruthfulAt(cfg, env, trace, k) && more[..k] == trace[..k];
      } else {
        assert more[..k] == trace;
      }
    }
  }

  // ---- The loop is bounded ---------------------------------------------------------------------------

  /** A number for each session that grows with the iteration and, inside one, with the position. */
  function Key(cfg: Config, e: Event): int
    requires e.what.Started?
  {
    e.iteration * |cfg.backends| + e.what.backend
  }

  function StartKeys(cfg: Config, trace: seq<Event>): seq<int> {
    if trace == [] then []
    else
      var e := trace[|trace| - 1];
      StartKeys(cfg, trace[..|trace| - 1]) + if e.what.Started? then [Key(cfg, e)] else []
  }

  predicate Increasing(keys: seq<int>) {
    forall i, j | 0 <= i < j < |keys| :: keys[i] < keys[j]
  }

  lemma {:induction false} IncreasingFits(keys: seq<int>, lo: int, hi: int)
    requires Increasing(keys) && (forall k | k in keys :: lo <= k < hi) && lo <= hi
    ensures |keys| <= hi - lo
  {
    if keys != [] {
      var n := |keys| - 1;
      assert keys[n] in keys;
      forall k | k in keys[..n]
        ensures lo <= k < keys[n]
      {
        var i :| 0 <= i < n && keys[i] == k;
        assert keys[i] in keys;
      }
      IncreasingFits(keys[..n], lo, keys[n]);
    }
  }

  lemma {:induction false} TimesStep(n: nat, i: nat, j: nat)
    requires i < j
    ensures i * n + n <= j * n
  {
    assert j * n == (j - 1) * n + n;
    if i + 1 < j {
      TimesStep(n, i, j - 1);
    }
  }

  /** Some session of the trace has this key. */
  predicate HasKey(cfg: Config, trace: seq<Event>, k: int) {
    exists i | 0 <= i < |trace| :: trace[i].what.Started? && Key(cfg, trace[i]) == k
  }

  /** A later session has a larger key; in the same iteration it runs on a backend of lower priority. */
  lemma StartAfter(cfg: Config, trace: seq<Event>, i: nat, n: nat)
    requires Legal(cfg, trace) && i < n < |trace| && trace[i].what.Started? && trace[n].what.Started?
    ensures Key(cfg, trace[i]) < Key(cfg, trace[n])
    ensures trace[i].iteration == trace[n].iteration ==> trace[i].what.backend < trace[n].what.backend
  {
    assert AllowedAt(cfg, trace, i) && AllowedAt(cfg, trace, n);
    TimesGrow(cfg, trace, i, n);
    assert trace[..n][i] == trace[i];
    if trace[i].iteration < trace[n].iteration {
      TimesStep(|cfg.backends|, trace[i].iteration, trace[n].iteration);
    }
  }

  lemma KeyBelow(cfg: Config, trace: seq<Event>, n: nat, k: int)
    requires Legal(cfg, trace) && n < |trace| && HasKey(cfg, trace[..n], k)
    ensures HasKey(cfg, trace, k)
    ensures trace[n].what.Started? ==> k < Key(cfg, trace[n])
  {
    var i :| 0 <= i < n && trace[..n][i].what.Started? && Key(cfg, trace[..n][i]) == k;
    assert trace[i] == trace[..n][i];
    if trace[n].what.Started? {
      StartAfter(cfg, trace, i, n);
    }
  }

  lemma IncreasingSnoc(keys: seq<int>, more: seq<int>)
    requires Increasing(keys) && |more| <= 1
    requires more != [] ==> forall k | k in keys :: k < more[0]
    ensures Increasing(keys + more)
  {
    assert forall i | 0 <= i < |keys| :: keys[i] in keys;
  }

  /** Sessions follow each other with growing keys: within one iteration their positions strictly increase. */
  lemma {:induction false} StartKeysIncrease(cfg: Config, trace: seq<Event>)
    requires Legal(cfg, trace)
    ensures Increasing(StartKeys(cfg, trace))
    ensures forall k | k in StartKeys(cfg, trace) :: HasKey(cfg, trace, k)
  {
    if trace != [] {
      var n := |trace| - 1;
      LegalPrefix(cfg, trace, n);
      StartKeysIncrease(cfg, trace[..n]);
      forall k | k in StartKeys(cfg, trace[..n])
        ensures HasKey(cfg, trace, k) && (trace[n].what.Started? ==> k < Key(cfg, trace[n]))
      {
        KeyBelow(cfg, trace, n, k);
      }
      IncreasingSnoc(StartKeys(cfg, trace[..n]), if trace[n].what.Started? then [Key(cfg, trace[n])] else []);
    }
  }

  function Starts(trace: seq<Event>): nat {
    if trace == [] then 0
    else Starts(trace[..|trace| - 1]) + if trace[|trace| - 1].what.Started? then 1 else 0
  }

  lemma {:induction false} StartKeysCount(cfg: Config, trace: seq<Event>)
    ensures |StartKeys(cfg, trace)| == Starts(trace)
  {
    if trace != [] {
      StartKeysCount(cfg, trace[..|trace| - 1]);
    }
  }

  lemma KeyRange(cfg: Config, trace: seq<Event>, k: int)
    requires Legal(cfg, trace) && HasKey(cfg, trace, k)
    ensures var n := |cfg.backends|; n <= k < n + cfg.maxIterations * n
  {
    var n := |cfg.backends|;
    var i :| 0 <= i < |trace| && trace[i].what.Started? && Key(cfg, trace[i]) == k;
    assert AllowedAt(cfg, trace, i);
    var it := trace[i].iteration;
    TimesStep(n, 0, it);
    if it < cfg.maxIterations {
      TimesStep(n, it, cfg.maxIterations);
    }
  }

  /** At most one session for each iteration and backend. */
  lemma SessionsBounded(cfg: Config, trace: seq<Event>)
    requires Legal(cfg, trace)
    ensures Starts(trace) <= cfg.maxIterations * |cfg.backends|
  {
    var n := |cfg.backends|;
    var lo, hi := n, n + cfg.maxIterations * n;
    StartKeysIncrease(cfg, trace);
    forall k | k in StartKeys(cfg, trace)
      ensures lo <= k < hi
    {
      KeyRange(cfg, trace, k);
    }
    IncreasingFits(StartKeys(cfg, trace), lo, hi);
    StartKeysCount(cfg, trace);
  }

  /** A session ends right after it started, in the same iteration. */
  lemma EndFollowsStart(cfg: Config, trace: seq<Event>, j: nat)
    requires Legal(cfg, trace) && j < |trace| && trace[j].what.Ended?
    ensures j > 0 && trace[j - 1].what == Started(trace[j].what.backend, trace[j].what.primary)
    ensures trace[j - 1].iteration == trace[j].iteration && trace[j - 1].at <= trace[j].at
    ensures MayStart(cfg, trace[..j - 1], trace[j - 1], trace[j].what.backend, trace[j].what.primary)
    ensures trace[..j] == trace[..j - 1] + [trace[j - 1]]
  {
    assert AllowedAt(cfg, trace, j);
    assert trace[..j][j - 1] == trace[j - 1];
    assert AllowedAt(cfg, trace, j - 1);
  }

  lemma CapHolds(cfg: Config, trace: seq<Event>, k: nat)
    requires Legal(cfg, trace) && k < |trace| && Failures(trace[..k]) >= cfg.maxFailures
    ensures !trace[k].what.Started? && Failures(trace[..k + 1]) >= cfg.maxFailures
  {
    assert AllowedAt(cfg, trace, k);
    assert trace[..k + 1][..k] == trace[..k];
    if trace[k].what.Ended? {
      EndFollowsStart(cfg, trace, k);
    }
  }

  /** Once the failure count has reached the cap it stays there and no session starts. */
  lemma {:induction false} NoSessionPastTheCap(cfg: Config, trace: seq<Event>, m: nat, k: nat)
    requires Legal(cfg, trace) && m <= k <= |trace| && Failures(trace[..m]) >= cfg.maxFailures > 0
    ensures Failures(trace[..k]) >= cfg.maxFailures
    ensures forall j | m <= j < k :: !trace[j].what.Started?
    decreases k
  {
    if m < k {
      NoSessionPastTheCap(cfg, trace, m, k - 1);
      CapHolds(cfg, trace, k - 1);
    }
  }

  // ---- Cooldowns over whole runs ---------------------------------------------------------------------------

  /** A session on another claude backend runs into a limit of the whole claude account. */
  predicate GlobalElsewhere(cfg: Config, what: What, b: nat)
    requires b < |cfg.backends|
  {
    match what
    case Ended(x, _, Limited(_, global)) =>
      x != b && x < |cfg.backends| && LimitReaches(cfg, x, global, b)
    case _ => false
  }

  /** No session on `b` in `trace[i..k]`, and its reset time is brought forward only by a global limit elsewhere. */
  lemma {:induction false} ResetHolds(cfg: Config, trace: seq<Event>, i: nat, k: nat, b: nat)
    requires Legal(cfg, trace) && i < k <= |trace| && b < |cfg.backends| && trace[i].iteration >= 1
    requires Sets(cfg, trace[i].what, b).Some?
    requires forall j | i < j < k :: !GlobalElsewhere(cfg, trace[j].what, b)
    requires forall j | i < j < k :: trace[j].what.Started? ==> trace[j].what.backend != b
    ensures var c := Cooled(cfg, trace[..k], b); c.Some? && c.value >= Sets(cfg, trace[i].what, b).value
    decreases k
  {
    assert trace[..k][..k - 1] == trace[..k - 1] && trace[..k][k - 1] == trace[k - 1];
    if i + 1 < k {
      ResetHolds(cfg, trace, i, k - 1, b);
      TimesGrow(cfg, trace, i, k - 1);
      assert AllowedAt(cfg, trace, k - 1);
      if trace[k - 1].what.Ended? {
        EndFollowsStart(cfg, trace, k - 1);
      }
    }
  }

  /** After a limit or a budget hold gave `b` the reset time `R`, no session starts on `b` before `R`,
      unless a global limit on another claude backend brought it forward. */
  lemma {:induction false} NotBeforeReset(cfg: Config, trace: seq<Event>, i: nat, k: nat, b: nat)
    requires Legal(cfg, trace) && i < k < |trace| && b < |cfg.backends| && trace[i].iteration >= 1
    requires Sets(cfg, trace[i].what, b).Some?
    requires forall j | i < j < k :: !GlobalElsewhere(cfg, trace[j].what, b)
    requires trace[k].what.Started? && trace[k].what.backend == b
    ensures trace[k].at >= Sets(cfg, trace[i].what, b).value
    decreases k
  {
    if m: nat :| i < m < k && trace[m].what.Started? && trace[m].what.backend == b {
      NotBeforeReset(cfg, trace, i, m, b);
      TimesGrow(cfg, trace, m, k);
    } else {
      ResetHolds(cfg, trace, i, k, b);
      assert AllowedAt(cfg, trace, k);
    }
  }

  /** The only event that brings a reset time forward that is still in force is a global limit elsewhere. */
  lemma OnlyGlobalLimitsBringForward(cfg: Config, trace: seq<Event>, j: nat, b: nat)
    requires Legal(cfg, trace) && j < |trace| && b < |cfg.backends| && trace[j].iteration >= 1
    requires Cooling(Cooled(cfg, trace[..j], b), trace[j].at)
    ensures var c := Cooled(cfg, trace[..j + 1], b);
            c.Some? && (c.value < Cooled(cfg, trace[..j], b).value ==> GlobalElsewhere(cfg, trace[j].what, b))
  {
    assert trace[..j + 1][..j] == trace[..j] && trace[..j + 1][j] == trace[j];
    assert AllowedAt(cfg, trace, j);
    if trace[j].what.Ended? {
      EndFollowsStart(cfg, trace, j);
    }
  }

  lemma NoneEnded(cfg: Config, trace: seq<Event>, iteration: nat, j: nat)
    requires Legal(cfg, trace) && SessionsBefore(trace, iteration, 0) && j < |trace| && trace[j].iteration == iteration
    ensures !trace[j].what.Ended?
  {
    if trace[j].what.Ended? {
      EndFollowsStart(cfg, trace, j);
    }
  }

  /** The first session of an iteration runs on the highest-priority runnable backend: each one above it was
      checked in this iteration and its CLI was missing or its cooldown was still in force. */
  lemma PrimaryIsHighestRunnable(cfg: Config, trace: seq<Event>, k: nat, q: nat)
    requires Legal(cfg, trace) && k < |trace| && trace[k].what.Started? && trace[k].what.primary
    requires q < trace[k].what.backend < |cfg.backends|
    ensures exists j, missing: bool :: 0 <= j < k && trace[j].iteration == trace[k].iteration
              && trace[j].what == Refused(q, missing) && (missing || Cooling(Cooled(cfg, trace[..j], q), trace[j].at))
  {
    var past, iteration := trace[..k], trace[k].iteration;
    assert AllowedAt(cfg, trace, k) && PassedOver(past, iteration, q);
    var j :| 0 <= j < |past| && past[j].iteration == iteration && PassesOver(past[j].what, q);
    assert AllowedAt(cfg, trace, j);
    LegalPrefix(cfg, trace, k);
    NoneEnded(cfg, past, iteration, j);
    assert trace[j].what == Refused(q, trace[j].what.missing);
  }

  /** A limit that ended a session of the iteration on this backend ended this very session. */
  lemma LimitEndsSession(cfg: Config, trace: seq<Event>, i: nat, j: nat)
    requires Legal(cfg, trace) && i < |trace| && j < |trace| && trace[i].what.Started?
    requires trace[j].iteration == trace[i].iteration && LimitEnds(trace[j].what, trace[i].what.backend)
    ensures j == i + 1
  {
    EndFollowsStart(cfg, trace, j);
    if j - 1 < i {
      StartAfter(cfg, trace, j - 1, i);
    } else if i < j - 1 {
      StartAfter(cfg, trace, i, j - 1);
    }
  }

  /** A fallback starts only after every earlier session of its iteration ran, on a backend of higher priority,
      into a limit at once. */
  lemma FallbackOnlyAfterLimits(cfg: Config, trace: seq<Event>, i: nat, k: nat)
    requires Legal(cfg, trace) && i < k < |trace| && trace[i].what.Started? && trace[k].what.Started?
    requires trace[i].iteration == trace[k].iteration
    ensures !trace[k].what.primary && trace[i].what.backend < trace[k].what.backend
    ensures i + 1 < k && trace[i + 1].iteration == trace[i].iteration
    ensures LimitEnds(trace[i + 1].what, trace[i].what.backend)
  {
    var past, iteration := trace[..k], trace[k].iteration;
    assert AllowedAt(cfg, trace, k) && past[i] == trace[i];
    assert WasLimited(past, iteration, trace[i].what.backend);
    var j :| 0 <= j < |past| && past[j].iteration == iteration && LimitEnds(past[j].what, trace[i].what.backend);
    LimitEndsSession(cfg, trace, i, j);
  }

  // ---- The ladder is followed to its end --------------------------------------------------------------------

  /** A finished run: nothing is left to look at in the last iteration, or a stop came during its last session. */
  predicate Settled(cfg: Config, trace: seq<Event>) {
    trace == [] || Rests(cfg, trace[|trace| - 1].what) || trace[|trace| - 1].what.Started?
  }

  /** At `k` the loop turns away from position `x`: it is not runnable, or a session on it ran into a limit. */
  predicate TurnsAway(trace: seq<Event>, k: nat, x: nat) {
    k < |trace| && PassesOver(trace[k].what, x)
  }

  lemma NextLook(cfg: Config, trace: seq<Event>, k: nat, x: nat)
    requires Legal(cfg, trace) && Settled(cfg, trace) && TurnsAway(trace, k, x) && x + 1 < |cfg.backends|
    ensures k + 1 < |trace| && trace[k + 1].iteration == trace[k].iteration
    ensures (trace[k + 1].what.Refused? || trace[k + 1].what.Started?) && trace[k + 1].what.backend == x + 1
  {
    assert k + 1 < |trace|;
    assert AllowedAt(cfg, trace, k + 1);
    assert trace[..k + 1][k] == trace[k];
  }

  /** From there the loop looks at the positions below in turn: each is refused, one event each, until a session
      starts on one at `m`, or all are refused. */
  lemma {:induction false} LadderLeadsOn(cfg: Config, trace: seq<Event>, k: nat, x: nat) returns (m: nat)
    requires Legal(cfg, trace) && Settled(cfg, trace) && TurnsAway(trace, k, x) && x < |cfg.backends|
    ensures k < m <= |trace| && x + (m - k) <= |cfg.backends|
    ensures forall j | k < j < m ::
              && trace[j].iteration == trace[k].iteration
              && trace[j].what.Refused? && trace[j].what.backend == x + (j - k)
    ensures x + (m - k) < |cfg.backends| ==>
              && m < |trace| && trace[m].iteration == trace[k].iteration
              && trace[m].what.Started? && trace[m].what.backend == x + (m - k)
    decreases |cfg.backends| - x
  {
    m := k + 1;
    if x + 1 < |cfg.backends| {
      NextLook(cfg, trace, k, x);
      if trace[k + 1].what.Refused? {
        m := LadderLeadsOn(cfg, trace, k + 1, x + 1);
      }
    }
  }

  /** After a session that ran into a limit, primary or fallback, the same iteration refuses the positions below in
      turn until it starts a fallback session on one, or has refused them all. */
  lemma LimitLeadsOn(cfg: Config, trace: seq<Event>, k: nat) returns (m: nat)
    requires Legal(cfg, trace) && Settled(cfg, trace)
    requires k < |trace| && trace[k].what.Ended? && trace[k].what.outcome.Limited?
    ensures var x := trace[k].what.backend;
            && k < m <= |trace| && x + (m - k) <= |cfg.backends|
            && (forall j | k < j < m ::
                  && trace[j].iteration == trace[k].iteration
                  && trace[j].what.Refused? && trace[j].what.backend == x + (j - k))
            && (x + (m - k) < |cfg.backends| ==>
                  && m < |trace| && trace[m].iteration == trace[k].iteration
                  && trace[m].what == Started(x + (m - k), false))
  {
    var x := trace[k].what.backend;
    EndFollowsStart(cfg, trace, k);
    m := LadderLeadsOn(cfg, trace, k, x);
    if x + (m - k) < |cfg.backends| {
      FallbackOnlyAfterLimits(cfg, trace, k - 1, m);
    }
  }

  /** A session that ended otherwise is the last thing of its iteration. */
  lemma OtherEndsClose(cfg: Config, trace: seq<Event>, k: nat, j: nat)
    requires Legal(cfg, trace) && k < j < |trace| && trace[k].what.Ended? && !trace[k].what.outcome.Limited?
    ensures trace[j].iteration > trace[k].iteration
  {
    assert AllowedAt(cfg, trace, k + 1);
    assert trace[..k + 1][k] == trace[k];
    TimesGrow(cfg, trace, k + 1, j);
  }

  /** An iteration that has passed over every backend is followed by a next one only after the loop has slept until
      the earliest reset was over, unless a stop cut the sleep short. */
  lemma SleepsUntilReset(cfg: Config, env: Environment, trace: seq<Event>, k: nat)
    requires Told(cfg, env, trace) && k + 1 < |trace| && trace[k].iteration < trace[k + 1].iteration
    requires Blocks(cfg, trace[k].what) && !env.wokenIn(trace[k].iteration)
    ensures SleptBetween(cfg, trace[..k + 1], trace[k].at, trace[k + 1].at)
  {
    assert TruthfulAt(cfg, env, trace, k + 1);
    assert trace[..k + 1][k] == trace[k];
  }
}
