/** The fail-closed CI rollup (ci_status.py). */
module CiStatus {
  import opened Wrappers

  datatype CheckRun = CheckRun(name: Option<string>, id: Option<int>, status: Option<string>,
                               conclusion: Option<string>)
  {
    function Name(): string {
      if name.Some? then name.value else "unknown"
    }

    function Id(): int {
      if id.Some? then id.value else 0
    }

    predicate Completed() {
      status == Some("completed")
    }

    predicate Failing() {
      Completed() && conclusion.Some? && conclusion.value in FAILING_CONCLUSIONS
    }

    predicate Passing() {
      Completed() && conclusion.Some? && conclusion.value in PASSING_CONCLUSIONS
    }

    /** The raw conclusion, else the status: what the audit set records. */
    function Observed(): string {
      if conclusion.Some? && conclusion.value != "" then conclusion.value
      else if status.Some? && status.value != "" then status.value
      else "unknown"
    }
  }

  const FAILING_CONCLUSIONS := {"failure", "timed_out", "cancelled", "action_required", "stale"}
  const PASSING_CONCLUSIONS := {"success", "neutral", "skipped"}

  /** `tests_green`: True, False, "unknown", or any other value a hand-edited file may hold. */
  datatype TestsGreen = True | False | Unknown | Other(raw: string)

  datatype CIStatus = CIStatus(testsGreen: TestsGreen, resolved: bool, conclusions: set<string>)

  /** Position `i` holds the run that counts for its check: the highest positive id, the first one on a tie. */
  predicate Counts(runs: seq<CheckRun>, i: nat) {
    CountsAmong(runs, |runs|, i)
  }

  /** The same among the first `n` runs. */
  predicate CountsAmong(runs: seq<CheckRun>, n: nat, i: nat)
    requires n <= |runs|
  {
    && i < n && runs[i].Id() > 0
    && forall j | 0 <= j < n && runs[j].Name() == runs[i].Name() ::
         runs[j].Id() <= runs[i].Id() && (j < i ==> runs[j].Id() < runs[i].Id())
  }

  /** The verdict in terms of the runs that count. */
  function Verdict(runs: seq<CheckRun>): TestsGreen {
    if exists i | 0 <= i < |runs| :: Counts(runs, i) && runs[i].Failing() then False
    else if (exists i | 0 <= i < |runs| :: Counts(runs, i)) &&
            (forall i | 0 <= i < |runs| && Counts(runs, i) :: runs[i].Passing()) then True
    else Unknown
  }

  // ---- The two loops -------------------------------------------------------------------

  /** `latest` (positions rather than runs) after reading a prefix of length `n`. */
  ghost predicate Tracks(runs: seq<CheckRun>, n: nat, latest: map<string, nat>)
    requires n <= |runs|
  {
    && (forall name | name in latest ::
          CountsAmong(runs, n, latest[name]) && runs[latest[name]].Name() == name)
    && (forall j | 0 <= j < n && runs[j].Id() > 0 :: runs[j].Name() in latest)
  }

  /** `_latest_by_name`: the highest positive id of each name wins. */
  method LatestByName(runs: seq<CheckRun>) returns (latest: map<string, nat>)
    ensures forall name | name in latest :: Counts(runs, latest[name]) && runs[latest[name]].Name() == name
    ensures forall i: nat | Counts(runs, i) :: runs[i].Name() in latest && latest[runs[i].Name()] == i
  {
    latest := map[];
    for n := 0 to |runs|
      invariant Tracks(runs, n, latest)
    {
      var cr := runs[n];
      var best := if cr.Name() in latest then runs[latest[cr.Name()]].Id() else 0;
      if cr.Id() > best {
        latest := latest[cr.Name() := n];
      }
    }
    forall i: nat | Counts(runs, i)
      ensures latest[runs[i].Name()] == i
    {
      var j := latest[runs[i].Name()];
      assert CountsAmong(runs, |runs|, j);
    }
  }

  /** What the flags say about the latest runs of the names in `done`. */
  ghost predicate Flagged(runs: seq<CheckRun>, latest: map<string, nat>, done: set<string>, odd: bool, failed: bool,
                          conclusions: set<string>)
  {
    && (forall n | n in done :: n in latest && latest[n] < |runs|)
    && (failed <==> exists n | n in done :: runs[latest[n]].Failing())
    && (odd <==> exists n | n in done :: !runs[latest[n]].Passing() && !runs[latest[n]].Failing())
    && conclusions == set n | n in done :: runs[latest[n]].Observed()
  }

  lemma FlaggedMore(runs: seq<CheckRun>, latest: map<string, nat>, done: set<string>, odd: bool, failed: bool,
                    conclusions: set<string>, name: string)
    requires Flagged(runs, latest, done, odd, failed, conclusions) && name in latest && latest[name] < |runs|
    ensures var cr := runs[latest[name]];
            Flagged(runs, latest, done + {name}, odd || (!cr.Passing() && !cr.Failing()), failed || cr.Failing(),
                    conclusions + {cr.Observed()})
  {
  }

  /** `_rollup`. */
  method Rollup(runs: seq<CheckRun>) returns (status: CIStatus)
    ensures status.testsGreen == Verdict(runs)
    ensures status.resolved <==> Verdict(runs) != Unknown
    ensures status.conclusions == set i | 0 <= i < |runs| && Counts(runs, i) :: runs[i].Observed()
  {
    var latest := LatestByName(runs);
    var todo := latest.Keys;
    var conclusions := {};
    var incomplete, doubtful, failed := false, false, false;
    while todo != {}
      invariant todo <= latest.Keys
      invariant Flagged(runs, latest, latest.Keys - todo, incomplete || doubtful, failed, conclusions)
    {
      var name :| name in todo;
      var cr := runs[latest[name]];
      ghost var done := latest.Keys - todo;
      FlaggedMore(runs, latest, done, incomplete || doubtful, failed, conclusions, name);
      todo := todo - {name};
      assert latest.Keys - todo == done + {name};
      conclusions := conclusions + {cr.Observed()};
      if !cr.Completed() {
        incomplete := true;
      } else if cr.conclusion.Some? && cr.conclusion.value in FAILING_CONCLUSIONS {
        failed := true;
      } else if !(cr.conclusion.Some? && cr.conclusion.value in PASSING_CONCLUSIONS) {
        doubtful := true;
      }
    }
    assert latest.Keys - todo == latest.Keys;
    if latest == map[] {
      status := CIStatus(Unknown, false, {});
    } else if failed {
      status := CIStatus(False, true, conclusions);
    } else if incomplete || doubtful {
      status := CIStatus(Unknown, false, conclusions);
    } else {
      status := CIStatus(True, true, conclusions);
    }
  }

  // ---- Order independence --------------------------------------------------------------

  /** Runs of one check that share an id are the same run. */
  ghost predicate IdsIdentify(runs: seq<CheckRun>) {
    forall a, b | a in runs && b in runs && a.Name() == b.Name() && a.Id() == b.Id() :: a == b
  }

  /** A run that counts, described without positions. */
  predicate IsTop(runs: seq<CheckRun>, cr: CheckRun) {
    cr in runs && cr.Id() > 0 && forall other | other in runs && other.Name() == cr.Name() :: other.Id() <= cr.Id()
  }

  lemma FirstPosition(runs: seq<CheckRun>, cr: CheckRun) returns (i: nat)
    requires cr in runs
    ensures i < |runs| && runs[i] == cr && forall j | 0 <= j < i :: runs[j] != cr
  {
    i := 0;
    while runs[i] != cr
      invariant i < |runs| && cr in runs[i..] && forall j | 0 <= j < i :: runs[j] != cr
      decreases |runs| - i
    {
      i := i + 1;
    }
  }

  lemma CountsIsTop(runs: seq<CheckRun>, cr: CheckRun)
    requires IdsIdentify(runs)
    ensures IsTop(runs, cr) <==> exists i: nat :: Counts(runs, i) && runs[i] == cr
  {
    if IsTop(runs, cr) {
      var i := FirstPosition(runs, cr);
      forall j | 0 <= j < i && runs[j].Name() == cr.Name()
        ensures runs[j].Id() < cr.Id()
      {
        assert runs[j] in runs;
      }
      assert Counts(runs, i);
    }
    if i: nat :| Counts(runs, i) && runs[i] == cr {
      forall other | other in runs && other.Name() == cr.Name()
        ensures other.Id() <= cr.Id()
      {
        var j :| 0 <= j < |runs| && runs[j] == other;
      }
    }
  }

  predicate CompletedAs(cr: CheckRun, conclusions: set<string>) {
    cr.status == Some("completed") && cr.conclusion.Some? && cr.conclusion.value in conclusions
  }

  /** A run with the highest positive id of its name that completed badly makes the verdict False; True needs such runs
      to be there and every one of them to have completed well. */
  lemma VerdictByTops(runs: seq<CheckRun>)
    requires IdsIdentify(runs)
    ensures Verdict(runs) == False <==>
            exists cr :: (IsTop(runs, cr)
                          && CompletedAs(cr, {"failure", "timed_out", "cancelled", "action_required", "stale"}))
    ensures Verdict(runs) == True <==>
            && (exists cr :: IsTop(runs, cr))
            && forall cr | IsTop(runs, cr) :: CompletedAs(cr, {"success", "neutral", "skipped"})
  {
    forall cr {
      CountsIsTop(runs, cr);
    }
    forall i: nat | Counts(runs, i)
      ensures IsTop(runs, runs[i])
    {
    }
    Conclusive(runs);
  }

  lemma Conclusive(runs: seq<CheckRun>)
    ensures forall cr | cr in runs ::
              && cr.Failing() == CompletedAs(cr, {"failure", "timed_out", "cancelled", "action_required", "stale"})
              && cr.Passing() == CompletedAs(cr, {"success", "neutral", "skipped"})
  {
  }

  /** The verdict does not depend on the order of the runs. */
  lemma VerdictOrderFree(a: seq<CheckRun>, b: seq<CheckRun>)
    requires multiset(a) == multiset(b) && IdsIdentify(a)
    ensures Verdict(a) == Verdict(b)
  {
    forall cr
      ensures cr in a <==> cr in b
    {
      assert cr in a <==> cr in multiset(a);
      assert cr in b <==> cr in multiset(b);
    }
    assert forall cr :: IsTop(a, cr) <==> IsTop(b, cr);
    VerdictByTops(a);
    VerdictByTops(b);
  }
}
