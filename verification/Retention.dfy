/** Two-tier garbage collection of session directories (retention.py, cli/session.py). */
module Retention {
  import opened Listings
  import opened Ordering
  import opened Wrappers

  const MOVE_AFTER_DAYS := 14
  const DELETE_AFTER_DAYS := 30

  /** The `.gc-moved-at` file of a directory: absent, not a date, or a day. */
  datatype Stamp = NoStamp | Unreadable | MovedAt(day: int)

  /** `touched` is the day of the modification time, if it can be read. */
  datatype Entry = File(text: string) | Dir(files: map<string, string>, stamp: Stamp, touched: Option<int>)

  type Folder = map<string, Entry>

  datatype Action = Moved(name: string, date: int) | Deleted(name: string)

  // ---- Names ---------------------------------------------------------------------------------

  function Decimal(n: nat): string {
    (if n < 10 then [] else Decimal(n / 10)) + ["0123456789"[n % 10]]
  }

  lemma {:induction false} DecimalInjective(m: nat, n: nat)
    requires Decimal(m) == Decimal(n)
    ensures m == n
  {
    var a, b := Decimal(m), Decimal(n);
    assert a[|a| - 1] == "0123456789"[m % 10] && b[|b| - 1] == "0123456789"[n % 10];
    assert m % 10 == n % 10;
    assert a[..|a| - 1] == if m < 10 then [] else Decimal(m / 10);
    assert b[..|b| - 1] == if n < 10 then [] else Decimal(n / 10);
    if m >= 10 && n >= 10 {
      DecimalInjective(m / 10, n / 10);
    } else {
      assert m < 10 <==> |a| == 1;
      assert n < 10 <==> |b| == 1;
    }
  }

  function Suffixed(name: string, n: nat): string {
    name + "." + Decimal(n)
  }

  lemma SuffixedInjective(name: string, m: nat, n: nat)
    requires Suffixed(name, m) == Suffixed(name, n)
    ensures m == n
  {
    var k := |name| + 1;
    assert Suffixed(name, m)[k..] == Decimal(m) && Suffixed(name, n)[k..] == Decimal(n);
    DecimalInjective(m, n);
  }

  /** The least suffix from `n` on whose name is free. */
  function FreeSuffix(taken: set<string>, name: string, n: nat): (k: nat)
    ensures k >= n && Suffixed(name, k) !in taken
    ensures forall i: nat | n <= i < k :: Suffixed(name, i) in taken
    decreases |taken|
  {
    if Suffixed(name, n) !in taken then n
    else
      var k := FreeSuffix(taken - {Suffixed(name, n)}, name, n + 1);
      assert Suffixed(name, k) != Suffixed(name, n) by {
        if Suffixed(name, k) == Suffixed(name, n) {
          SuffixedInjective(name, k, n);
        }
      }
      k
  }

  /** Where a directory goes in the archive. */
  function Destination(taken: set<string>, name: string): (dst: string)
    ensures dst !in taken
  {
    if name !in taken then name else Suffixed(name, FreeSuffix(taken, name, 2))
  }

  /** The suffix search ends, at the least free suffix. */
  method FindDestination(taken: set<string>, name: string) returns (dst: string)
    ensures dst == Destination(taken, name) && dst !in taken
    ensures name !in taken ==> dst == name
    ensures name in taken ==>
              exists n: nat :: 2 <= n && dst == name + "." + Decimal(n) && forall i: nat | 2 <= i < n ::
                Suffixed(name, i) in taken
  {
    dst := name;
    if name in taken {
      var n: nat := 2;
      ghost var rest := taken;
      while Suffixed(name, n) in taken
        invariant n >= 2 && rest <= taken
        invariant forall s | s in taken && s !in rest :: exists i: nat | 2 <= i < n :: s == Suffixed(name, i)
        invariant forall i: nat | 2 <= i < n :: Suffixed(name, i) in taken
        decreases |rest|
      {
        if Suffixed(name, n) !in rest {
          var i: nat :| 2 <= i < n && Suffixed(name, n) == Suffixed(name, i);
          SuffixedInjective(name, n, i);
          assert false;
        }
        rest := rest - {Suffixed(name, n)};
        n := n + 1;
      }
      dst := Suffixed(name, n);
    }
  }

  // ---- Which directories a sweep touches --------------------------------------------------------

  /** `_is_session_dir`: not a plain file, not dot-named. */
  predicate IsSessionDir(name: string, entry: Entry) {
    entry.Dir? && !("." <= name)
  }

  /** `_session_date`: the date in the id, else the modification day. */
  function SessionDate(name: string, entry: Entry, idDate: string -> Option<int>): Option<int>
    requires entry.Dir?
  {
    if idDate(name).Some? then idDate(name) else entry.touched
  }

  /** Tier 1 moves this session. */
  predicate Stale(name: string, entry: Entry, protect: set<string>, today: int, idDate: string -> Option<int>) {
    && IsSessionDir(name, entry) && name !in protect
    && var d := SessionDate(name, entry, idDate);
       d.Some? && d.value < today - MOVE_AFTER_DAYS
  }

  /** The archive window of this directory is over. */
  predicate WindowOver(name: string, entry: Entry, today: int, idDate: string -> Option<int>)
    requires entry.Dir?
  {
    match entry.stamp
    case MovedAt(day) => day < today - DELETE_AFTER_DAYS
    case Unreadable => false
    case NoStamp =>
      var d := SessionDate(name, entry, idDate);
      d.Some? && d.value < today - (MOVE_AFTER_DAYS + DELETE_AFTER_DAYS)
  }

  /** Tier 2 deletes this archived directory. */
  predicate Expired(name: string, entry: Entry, protect: set<string>, today: int, idDate: string -> Option<int>) {
    IsSessionDir(name, entry) && name !in protect && WindowOver(name, entry, today, idDate)
  }

  // ---- One sweep --------------------------------------------------------------------------------

  /** A moved directory; writing the stamp also touches it. */
  function Stamped(entry: Entry, today: int): Entry
    requires entry.Dir?
  {
    Dir(entry.files, MovedAt(today), Some(today))
  }

  /** A sweep in progress: `dest` says where each moved session went. */
  datatype Sweeping = Sweeping(sessions: Folder, archive: Folder, dest: map<string, string>, actions: seq<Action>)

  function MoveOne(s: Sweeping, name: string, protect: set<string>, today: int, idDate: string -> Option<int>)
    : Sweeping
  {
    if name in s.sessions && Stale(name, s.sessions[name], protect, today, idDate) then
      var entry := s.sessions[name];
      var dst := Destination(s.archive.Keys, name);
      Sweeping(s.sessions - {name}, s.archive[dst := Stamped(entry, today)], s.dest[name := dst],
               s.actions + [Moved(name, SessionDate(name, entry, idDate).value)])
    else s
  }

  function MoveAll(s: Sweeping, names: seq<string>, protect: set<string>, today: int, idDate: string -> Option<int>)
    : Sweeping
  {
    if names == [] then s
    else MoveOne(MoveAll(s, names[..|names| - 1], protect, today, idDate), names[|names| - 1], protect, today, idDate)
  }

  function DeleteOne(s: Sweeping, name: string, protect: set<string>, today: int, idDate: string -> Option<int>)
    : Sweeping
  {
    if name in s.archive && Expired(name, s.archive[name], protect, today, idDate) then
      s.(archive := s.archive - {name}, actions := s.actions + [Deleted(name)])
    else s
  }

  function DeleteAll(s: Sweeping, names: seq<string>, protect: set<string>, today: int, idDate: string -> Option<int>)
    : Sweeping
  {
    if names == [] then s
    else
      DeleteOne(DeleteAll(s, names[..|names| - 1], protect, today, idDate), names[|names| - 1], protect, today, idDate)
  }

  lemma MoveAllStep(s: Sweeping, names: seq<string>, i: nat, protect: set<string>, today: int,
                    idDate: string -> Option<int>)
    requires i < |names|
    ensures MoveAll(s, names[..i + 1], protect, today, idDate) ==
            MoveOne(MoveAll(s, names[..i], protect, today, idDate), names[i], protect, today, idDate)
  {
    assert names[..i + 1][..i] == names[..i];
  }

  lemma DeleteAllStep(s: Sweeping, names: seq<string>, i: nat, protect: set<string>, today: int,
                      idDate: string -> Option<int>)
    requires i < |names|
    ensures DeleteAll(s, names[..i + 1], protect, today, idDate) ==
            DeleteOne(DeleteAll(s, names[..i], protect, today, idDate), names[i], protect, today, idDate)
  {
    assert names[..i + 1][..i] == names[..i];
  }

  ghost function Tier1(sessions: Folder, archive: Folder, protect: set<string>, today: int,
                       idDate: string -> Option<int>)
    : Sweeping
  {
    MoveAll(Sweeping(sessions, archive, map[], []), Listing(sessions.Keys), protect, today, idDate)
  }

  ghost function Tier2(s: Sweeping, protect: set<string>, today: int, idDate: string -> Option<int>): Sweeping {
    DeleteAll(s, Listing(s.archive.Keys), protect, today, idDate)
  }

  ghost function Sweep(sessions: Folder, archive: Folder, protect: set<string>, today: int,
                       idDate: string -> Option<int>): Sweeping
  {
    Tier2(Tier1(sessions, archive, protect, today, idDate), protect, today, idDate)
  }

  /** The `.context` directory of an anchor. */
  class Anchor {
    var sessions: Folder
    var archive: Folder

    constructor (sessions: Folder, archive: Folder)
      ensures this.sessions == sessions && this.archive == archive
    {
      this.sessions, this.archive := sessions, archive;
    }

    /** `auto_gc`. */
    method AutoGc(protect: set<string>, today: int, idDate: string -> Option<int>) returns (actions: seq<Action>)
      modifies this
      ensures var s := Sweep(old(sessions), old(archive), protect, today, idDate);
              sessions == s.sessions && archive == s.archive && actions == s.actions
      ensures SweptExactly(old(sessions), old(archive), sessions, archive, protect, today, idDate)
      ensures ReportedExactly(old(sessions), old(archive), sessions, archive, actions, idDate)
    {
      actions := [];
      var moveCutoff := today - MOVE_AFTER_DAYS;
      var names := SortedNames(sessions.Keys);
      ghost var start := Sweeping(sessions, archive, map[], []);
      ghost var dest: map<string, string> := map[];
      for i := 0 to |names|
        invariant Sweeping(sessions, archive, dest, actions) == MoveAll(start, names[..i], protect, today, idDate)
        invariant forall k | i <= k < |names| :: names[k] in sessions
      {
        MoveAllStep(start, names, i, protect, today, idDate);
        dest, actions := MoveIfStale(names[i], protect, today, moveCutoff, idDate, dest, actions);
      }
      assert names[..|names|] == names;
      assert Sweeping(sessions, archive, dest, actions) == Tier1(old(sessions), old(archive), protect, today, idDate);
      actions := DeleteExpired(protect, today, idDate, dest, actions);
      SweepExact(old(sessions), old(archive), protect, today, idDate);
      SweepReports(old(sessions), old(archive), protect, today, idDate);
    }

    method MoveIfStale(name: string, protect: set<string>, today: int, moveCutoff: int, idDate: string -> Option<int>,
                       ghost dest0: map<string, string>, actions0: seq<Action>)
      returns (ghost dest: map<string, string>, actions: seq<Action>)
      requires name in sessions && moveCutoff == today - MOVE_AFTER_DAYS
      modifies this
      ensures Sweeping(sessions, archive, dest, actions) ==
              MoveOne(Sweeping(old(sessions), old(archive), dest0, actions0), name, protect, today, idDate)
      ensures forall x | x in old(sessions) && x != name :: x in sessions
    {
      dest, actions := dest0, actions0;
      var entry := sessions[name];
      if !entry.Dir? || "." <= name || name in protect {
        return;
      }
      var d := SessionDate(name, entry, idDate);
      if d.None? || d.value >= moveCutoff {
        return;
      }
      var dst := FindDestination(archive.Keys, name);
      sessions := sessions - {name};
      archive := archive[dst := Stamped(entry, today)];
      dest := dest[name := dst];
      actions := actions + [Moved(name, d.value)];
    }

    /** Tier 2 of a sweep. */
    method DeleteExpired(protect: set<string>, today: int, idDate: string -> Option<int>,
                         ghost dest: map<string, string>, actions0: seq<Action>)
      returns (actions: seq<Action>)
      modifies this`archive
      ensures Sweeping(sessions, archive, dest, actions) ==
              Tier2(Sweeping(sessions, old(archive), dest, actions0), protect, today, idDate)
    {
      actions := actions0;
      var deleteCutoff, fallbackCutoff := today - DELETE_AFTER_DAYS, today - (MOVE_AFTER_DAYS + DELETE_AFTER_DAYS);
      var names := SortedNames(archive.Keys);
      ghost var start := Sweeping(sessions, archive, dest, actions0);
      for i := 0 to |names|
        invariant Sweeping(sessions, archive, dest, actions) == DeleteAll(start, names[..i], protect, today, idDate)
        invariant forall k | i <= k < |names| :: names[k] in archive
      {
        DeleteAllStep(start, names, i, protect, today, idDate);
        actions := DeleteIfExpired(names[i], protect, deleteCutoff, fallbackCutoff, idDate, dest, actions);
      }
      assert names[..|names|] == names;
    }

    method DeleteIfExpired(name: string, protect: set<string>, deleteCutoff: int, fallbackCutoff: int,
                           idDate: string -> Option<int>, ghost dest: map<string, string>, actions0: seq<Action>)
      returns (actions: seq<Action>)
      requires name in archive && fallbackCutoff == deleteCutoff - MOVE_AFTER_DAYS
      modifies this`archive
      ensures Sweeping(sessions, archive, dest, actions) ==
              DeleteOne(Sweeping(sessions, old(archive), dest, actions0), name, protect,
                        deleteCutoff + DELETE_AFTER_DAYS, idDate)
      ensures forall x | x in old(archive) && x != name :: x in archive
    {
      actions := actions0;
      var entry := archive[name];
      if !entry.Dir? || "." <= name || name in protect {
        return;
      }
      var expired := IsOver(name, entry, deleteCutoff, fallbackCutoff, idDate);
      if expired {
        archive := archive - {name};
        actions := actions + [Deleted(name)];
      }
    }

    /** Whether a directory's archive window is over. */
    method IsOver(name: string, entry: Entry, deleteCutoff: int, fallbackCutoff: int, idDate: string -> Option<int>)
      returns (expired: bool)
      requires entry.Dir? && fallbackCutoff == deleteCutoff - MOVE_AFTER_DAYS
      ensures expired <==> WindowOver(name, entry, deleteCutoff + DELETE_AFTER_DAYS, idDate)
    {
      if entry.stamp.MovedAt? {
        expired := entry.stamp.day < deleteCutoff;
      } else if entry.stamp.Unreadable? {
        expired := false;
      } else {
        var d := SessionDate(name, entry, idDate);
        expired := d.Some? && d.value < fallbackCutoff;
      }
    }

    /** The archiving part of `cl session end`. */
    method EndSession(sid: string)
      modifies this
      ensures var s := Ended(old(sessions), old(archive), sid); sessions == s.0 && archive == s.1
      ensures if sid in old(sessions) && old(sessions)[sid].Dir? && sid !in old(archive)
              then sessions == old(sessions) - {sid} && archive == old(archive)[sid := old(sessions)[sid]]
              else sessions == old(sessions) && archive == old(archive)
    {
      if sid in sessions && sessions[sid].Dir? {
        if sid !in archive {
          archive := archive[sid := sessions[sid]];
          sessions := sessions - {sid};
        }
      }
    }
  }

  function Ended(sessions: Folder, archive: Folder, sid: string): (Folder, Folder) {
    if sid in sessions && sessions[sid].Dir? && sid !in archive
    then (sessions - {sid}, archive[sid := sessions[sid]])
    else (sessions, archive)
  }

  // ---- Tier 1 loses and overwrites nothing ----------------------------------------------------------

  /** Each session in `moved` has a place of its own that was free, with its files and today's stamp. */
  ghost predicate EachMoved(sessions: Folder, archive: Folder, s: Sweeping, moved: set<string>, today: int) {
    && s.dest.Keys == moved <= sessions.Keys
    && (forall n | n in moved :: sessions[n].Dir? && s.dest[n] !in archive
                                 && s.dest[n] in s.archive && s.archive[s.dest[n]] == Stamped(sessions[n], today))
    && (forall m, n | m in moved && n in moved && m != n :: s.dest[m] != s.dest[n])
  }

  /** Apart from the moved sessions both folders are as they were. */
  ghost predicate RestKept(sessions: Folder, archive: Folder, s: Sweeping) {
    && s.sessions == sessions - s.dest.Keys
    && (forall x | x in archive :: x in s.archive && s.archive[x] == archive[x])
    && s.archive.Keys == archive.Keys + s.dest.Values
  }

  ghost predicate MovedExactly(sessions: Folder, archive: Folder, s: Sweeping, moved: set<string>, today: int) {
    EachMoved(sessions, archive, s, moved, today) && RestKept(sessions, archive, s)
  }

  lemma MapPut<K, V>(m: map<K, V>, k: K, v: V)
    requires k !in m
    ensures m[k := v].Values == m.Values + {v} && m[k := v].Keys == m.Keys + {k}
  {
    var n := m[k := v];
    forall x
      ensures x in n.Values <==> x in m.Values + {v}
    {
      if x in m.Values {
        var y :| y in m && m[y] == x;
        assert n[y] == x;
      }
      if x == v {
        assert n[k] == x;
      }
    }
  }

  lemma MoveOneExactly(sessions: Folder, archive: Folder, s: Sweeping, moved: set<string>, name: string,
                       protect: set<string>, today: int, idDate: string -> Option<int>)
    requires MovedExactly(sessions, archive, s, moved, today) && name in sessions && name !in moved
    ensures MovedExactly(sessions, archive, MoveOne(s, name, protect, today, idDate),
                         moved + if Stale(name, sessions[name], protect, today, idDate) then {name} else {}, today)
  {
    if Stale(name, sessions[name], protect, today, idDate) {
      var t, dst := MoveOne(s, name, protect, today, idDate), Destination(s.archive.Keys, name);
      OneMore(sessions, archive, s, t, moved, name, dst, today);
      RestOneMore(sessions, archive, s, t, name, dst, Stamped(sessions[name], today));
    } else {
      assert moved + {} == moved;
    }
  }

  lemma RestOneMore(sessions: Folder, archive: Folder, s: Sweeping, t: Sweeping, name: string, dst: string,
                    entry: Entry)
    requires RestKept(sessions, archive, s) && name !in s.dest && dst !in s.archive
    requires t.sessions == s.sessions - {name} && t.dest == s.dest[name := dst] && t.archive == s.archive[dst := entry]
    ensures RestKept(sessions, archive, t)
  {
    MapPut(s.dest, name, dst);
    MapPut(s.archive, dst, entry);
  }

  lemma OneMore(sessions: Folder, archive: Folder, s: Sweeping, t: Sweeping, moved: set<string>, name: string,
                dst: string, today: int)
    requires EachMoved(sessions, archive, s, moved, today) && name in sessions && name !in moved && sessions[name].Dir?
    requires dst !in s.archive && archive.Keys <= s.archive.Keys
    requires t.dest == s.dest[name := dst] && t.archive == s.archive[dst := Stamped(sessions[name], today)]
    ensures EachMoved(sessions, archive, t, moved + {name}, today)
  {
    assert forall n | n in moved :: s.dest[n] != dst && t.dest[n] == s.dest[n];
  }

  /** The names among `names` of sessions that tier 1 moves. */
  function StaleNames(sessions: Folder, names: seq<string>, protect: set<string>, today: int,
                      idDate: string -> Option<int>): set<string>
  {
    set n | n in names && n in sessions && Stale(n, sessions[n], protect, today, idDate)
  }

  lemma StaleNamesSnoc(sessions: Folder, names: seq<string>, name: string, protect: set<string>, today: int,
                       idDate: string -> Option<int>)
    requires name in sessions
    ensures StaleNames(sessions, names + [name], protect, today, idDate) ==
            StaleNames(sessions, names, protect, today, idDate)
            + if Stale(name, sessions[name], protect, today, idDate) then {name} else {}
  {
  }

  lemma {:induction false} MoveAllExactly(sessions: Folder, archive: Folder, names: seq<string>, protect: set<string>,
                                          today: int, idDate: string -> Option<int>)
    requires Distinct(names) && forall n | n in names :: n in sessions
    ensures MovedExactly(sessions, archive,
                         MoveAll(Sweeping(sessions, archive, map[], []), names, protect, today, idDate),
                         StaleNames(sessions, names, protect, today, idDate), today)
  {
    if names == [] {
      assert sessions - {} == sessions;
    } else {
      var init, name := names[..|names| - 1], names[|names| - 1];
      assert names == init + [name];
      MoveAllExactly(sessions, archive, init, protect, today, idDate);
      var moved := StaleNames(sessions, init, protect, today, idDate);
      MoveOneExactly(sessions, archive, MoveAll(Sweeping(sessions, archive, map[], []), init, protect, today, idDate),
                     moved, name, protect, today, idDate);
      StaleNamesSnoc(sessions, init, name, protect, today, idDate);
    }
  }

  /** The sessions tier 1 moves. */
  ghost function StaleSessions(sessions: Folder, protect: set<string>, today: int, idDate: string -> Option<int>)
    : set<string>
  {
    set n | n in sessions && Stale(n, sessions[n], protect, today, idDate)
  }

  /** Tier 1 moves exactly the stale unprotected sessions, each unharmed to a fresh name, and touches nothing else. */
  lemma TierOneLosesNothing(sessions: Folder, archive: Folder, protect: set<string>, today: int,
                            idDate: string -> Option<int>)
    ensures MovedExactly(sessions, archive, Tier1(sessions, archive, protect, today, idDate),
                         StaleSessions(sessions, protect, today, idDate), today)
  {
    var names := Listing(sessions.Keys);
    MoveAllExactly(sessions, archive, names, protect, today, idDate);
    assert StaleNames(sessions, names, protect, today, idDate) == StaleSessions(sessions, protect, today, idDate);
  }

  // ---- Tier 2 ------------------------------------------------------------------------------------------

  ghost predicate Deletes(s: Sweeping, t: Sweeping, names: seq<string>, protect: set<string>, today: int,
                          idDate: string -> Option<int>)
  {
    && t.sessions == s.sessions && t.dest == s.dest
    && (forall x :: x in t.archive <==>
          x in s.archive && !(x in names && Expired(x, s.archive[x], protect, today, idDate)))
    && (forall x | x in t.archive :: t.archive[x] == s.archive[x])
    && (t.actions == s.actions <==>
          forall x | x in names && x in s.archive :: !Expired(x, s.archive[x], protect, today, idDate))
    && |t.actions| >= |s.actions|
  }

  lemma {:induction false} DeleteAllExactly(s: Sweeping, names: seq<string>, protect: set<string>, today: int,
                                            idDate: string -> Option<int>)
    requires Distinct(names)
    ensures Deletes(s, DeleteAll(s, names, protect, today, idDate), names, protect, today, idDate)
  {
    if names != [] {
      var init, name := names[..|names| - 1], names[|names| - 1];
      assert names == init + [name];
      DeleteAllExactly(s, init, protect, today, idDate);
      assert name !in init;
    }
  }

  /** A sweep deletes from the archive exactly what has expired. */
  lemma TierTwoExact(s: Sweeping, protect: set<string>, today: int, idDate: string -> Option<int>)
    ensures var t := Tier2(s, protect, today, idDate);
            && t.sessions == s.sessions && t.dest == s.dest
            && (forall x :: x in t.archive <==> x in s.archive && !Expired(x, s.archive[x], protect, today, idDate))
            && (forall x | x in t.archive :: t.archive[x] == s.archive[x])
            && (t.actions == s.actions <==>
                  forall x | x in s.archive :: !Expired(x, s.archive[x], protect, today, idDate))
  {
    DeleteAllExactly(s, Listing(s.archive.Keys), protect, today, idDate);
  }

  // ---- A whole sweep, name by name ---------------------------------------------------------------------

  /** The day in the id, else the day the directory was last touched, is known and earlier than `day`. */
  predicate EarlierThan(inId: Option<int>, touched: Option<int>, day: int) {
    match inId
    case Some(d) => d < day
    case None => touched.Some? && touched.value < day
  }

  /** A session goes if it is an unprotected directory with no leading dot and earlier than 14 days ago. */
  predicate SessionGoes(name: string, entry: Entry, protect: set<string>, today: int, inId: Option<int>) {
    entry.Dir? && !("." <= name) && name !in protect && EarlierThan(inId, entry.touched, today - 14)
  }

  /** An archived directory goes if it is unprotected, has no leading dot, and was stamped earlier than 30 days ago,
      or has no stamp at all and is earlier than 44 days ago; with an unreadable stamp it stays. */
  predicate ArchivedGoes(name: string, entry: Entry, protect: set<string>, today: int, inId: Option<int>) {
    && entry.Dir? && !("." <= name) && name !in protect
    && match entry.stamp
       case MovedAt(day) => day < today - 30
       case Unreadable => false
       case NoStamp => EarlierThan(inId, entry.touched, today - 44)
  }

  /** `dst` is the archive entry that a session has become. */
  predicate BecameOf(name: string, entry: Entry, dst: string, archive0: Folder, archive1: Folder, today: int) {
    && entry.Dir? && name <= dst && dst !in archive0 && dst in archive1
    && archive1[dst] == Dir(entry.files, MovedAt(today), Some(today))
  }

  /** The entries that are in both folders from the start, after a sweep. */
  ghost predicate KeptExactly(sessions0: Folder, archive0: Folder, sessions1: Folder, archive1: Folder,
                              protect: set<string>, today: int, idDate: string -> Option<int>)
  {
    && (forall x :: x in sessions1 <==>
          x in sessions0 && !SessionGoes(x, sessions0[x], protect, today, idDate(x)))
    && (forall x | x in sessions1 :: sessions1[x] == sessions0[x])
    && (forall x | x in archive0 :: x in archive1 <==> !ArchivedGoes(x, archive0[x], protect, today, idDate(x)))
    && (forall x | x in archive0 && x in archive1 :: archive1[x] == archive0[x])
  }

  /** Each session that went has become an archive entry, and there is no other new one. */
  ghost predicate MovedInto(sessions0: Folder, archive0: Folder, sessions1: Folder, archive1: Folder, today: int) {
    && (forall x | x in sessions0 && x !in sessions1 ::
          exists dst :: BecameOf(x, sessions0[x], dst, archive0, archive1, today))
    && (forall dst | dst in archive1 && dst !in archive0 ::
          exists x | x in sessions0 && x !in sessions1 :: BecameOf(x, sessions0[x], dst, archive0, archive1, today))
  }

  /** Both folders after a sweep, entry by entry. */
  ghost predicate SweptExactly(sessions0: Folder, archive0: Folder, sessions1: Folder, archive1: Folder,
                               protect: set<string>, today: int, idDate: string -> Option<int>)
  {
    && KeptExactly(sessions0, archive0, sessions1, archive1, protect, today, idDate)
    && MovedInto(sessions0, archive0, sessions1, archive1, today)
  }

  lemma DestinationBegins(taken: set<string>, name: string)
    ensures name <= Destination(taken, name)
  {
  }

  /** Every destination starts with the name it was found for. */
  ghost predicate Named(dest: map<string, string>) {
    forall n | n in dest :: n <= dest[n]
  }

  lemma MoveOneNamed(s: Sweeping, name: string, protect: set<string>, today: int, idDate: string -> Option<int>)
    requires Named(s.dest)
    ensures Named(MoveOne(s, name, protect, today, idDate).dest)
  {
    DestinationBegins(s.archive.Keys, name);
  }

  lemma {:induction false} MovesNamed(s: Sweeping, names: seq<string>, protect: set<string>, today: int,
                                      idDate: string -> Option<int>)
    requires Named(s.dest)
    ensures Named(MoveAll(s, names, protect, today, idDate).dest)
  {
    if names != [] {
      var n := |names| - 1;
      MovesNamed(s, names[..n], protect, today, idDate);
      MoveOneNamed(MoveAll(s, names[..n], protect, today, idDate), names[n], protect, today, idDate);
    }
  }

  lemma GoesExact(name: string, entry: Entry, protect: set<string>, today: int, idDate: string -> Option<int>)
    ensures Stale(name, entry, protect, today, idDate) <==> SessionGoes(name, entry, protect, today, idDate(name))
    ensures Expired(name, entry, protect, today, idDate) <==> ArchivedGoes(name, entry, protect, today, idDate(name))
  {
  }

  lemma SweepKeeps(sessions: Folder, archive: Folder, protect: set<string>, today: int, idDate: string -> Option<int>)
    ensures var s := Sweep(sessions, archive, protect, today, idDate);
            KeptExactly(sessions, archive, s.sessions, s.archive, protect, today, idDate)
  {
    var first := Tier1(sessions, archive, protect, today, idDate);
    TierOneLosesNothing(sessions, archive, protect, today, idDate);
    TierTwoExact(first, protect, today, idDate);
    forall x, entry {
      GoesExact(x, entry, protect, today, idDate);
    }
  }

  /** Where each moved session is after the sweep. */
  ghost predicate Arrived(sessions: Folder, first: Sweeping, archive1: Folder, today: int) {
    forall n | n in first.dest :: n in sessions && sessions[n].Dir? && first.dest[n] in archive1
                                  && archive1[first.dest[n]] == Stamped(sessions[n], today)
  }

  lemma {:induction false} SweepMoves(sessions: Folder, archive: Folder, first: Sweeping, archive1: Folder, today: int)
    requires RestKept(sessions, archive, first) && Arrived(sessions, first, archive1, today) && Named(first.dest)
    requires archive1.Keys <= first.archive.Keys && forall n | n in first.dest :: first.dest[n] !in archive
    ensures MovedInto(sessions, archive, first.sessions, archive1, today)
  {
    forall x | x in first.dest
      ensures BecameOf(x, sessions[x], first.dest[x], archive, archive1, today)
    {
    }
    forall dst | dst in archive1 && dst !in archive
      ensures exists x | x in sessions && x !in first.sessions ::
                BecameOf(x, sessions[x], dst, archive, archive1, today)
    {
      assert dst in first.dest.Values;
      var x :| x in first.dest && first.dest[x] == dst;
    }
  }

  lemma SweepArrives(sessions: Folder, archive: Folder, protect: set<string>, today: int, idDate: string -> Option<int>)
    ensures var first := Tier1(sessions, archive, protect, today, idDate);
            Arrived(sessions, first, Sweep(sessions, archive, protect, today, idDate).archive, today)
  {
    var first := Tier1(sessions, archive, protect, today, idDate);
    TierOneLosesNothing(sessions, archive, protect, today, idDate);
    forall x | x in first.dest {
      FreshSurvives(first, first.dest[x], sessions[x], protect, today, idDate);
    }
  }

  /** A sweep moves and deletes exactly what is old and unprotected, and everything else stays as it is. */
  lemma SweepExact(sessions: Folder, archive: Folder, protect: set<string>, today: int, idDate: string -> Option<int>)
    ensures var s := Sweep(sessions, archive, protect, today, idDate);
            SweptExactly(sessions, archive, s.sessions, s.archive, protect, today, idDate)
  {
    var first := Tier1(sessions, archive, protect, today, idDate);
    SweepKeeps(sessions, archive, protect, today, idDate);
    TierOneLosesNothing(sessions, archive, protect, today, idDate);
    TierTwoExact(first, protect, today, idDate);
    MovesNamed(Sweeping(sessions, archive, map[], []), Listing(sessions.Keys), protect, today, idDate);
    SweepArrives(sessions, archive, protect, today, idDate);
    SweepMoves(sessions, archive, first, Tier2(first, protect, today, idDate).archive, today);
  }

  /** Exactly the sessions moved are reported, each with its day, and exactly the directories deleted. */
  ghost predicate ReportedExactly(sessions0: Folder, archive0: Folder, sessions1: Folder, archive1: Folder,
                                  actions: seq<Action>, idDate: string -> Option<int>)
  {
    && (forall x, day :: Moved(x, day) in actions <==>
          && x in sessions0 && x !in sessions1 && sessions0[x].Dir?
          && (if idDate(x).Some? then idDate(x) else sessions0[x].touched) == Some(day))
    && forall x :: Deleted(x) in actions <==> x in archive0 && x !in archive1
  }

  ghost predicate MovesReported(sessions: Folder, s: Sweeping, idDate: string -> Option<int>) {
    && (forall x, day :: Moved(x, day) in s.actions <==>
          && x in sessions && x !in s.sessions && sessions[x].Dir?
          && (if idDate(x).Some? then idDate(x) else sessions[x].touched) == Some(day))
    && forall x :: Deleted(x) !in s.actions
  }

  lemma {:induction false} MovesAreReported(sessions: Folder, archive: Folder, names: seq<string>,
                                            protect: set<string>, today: int, idDate: string -> Option<int>)
    ensures var t := MoveAll(Sweeping(sessions, archive, map[], []), names, protect, today, idDate);
            && MovesReported(sessions, t, idDate)
            && forall x | x in t.sessions :: x in sessions && t.sessions[x] == sessions[x]
  {
    if names != [] {
      MovesAreReported(sessions, archive, names[..|names| - 1], protect, today, idDate);
    }
  }

  lemma {:induction false} DeletesAreReported(s: Sweeping, names: seq<string>, protect: set<string>, today: int,
                                              idDate: string -> Option<int>)
    requires forall x :: Deleted(x) !in s.actions
    ensures var t := DeleteAll(s, names, protect, today, idDate);
            && (forall x, day :: Moved(x, day) in t.actions <==> Moved(x, day) in s.actions)
            && (forall x :: Deleted(x) in t.actions <==> x in s.archive && x !in t.archive)
            && forall x | x in t.archive :: x in s.archive
  {
    if names != [] {
      DeletesAreReported(s, names[..|names| - 1], protect, today, idDate);
    }
  }

  lemma SweepReports(sessions: Folder, archive: Folder, protect: set<string>, today: int,
                     idDate: string -> Option<int>)
    ensures var s := Sweep(sessions, archive, protect, today, idDate);
            ReportedExactly(sessions, archive, s.sessions, s.archive, s.actions, idDate)
  {
    var first := Tier1(sessions, archive, protect, today, idDate);
    MovesAreReported(sessions, archive, Listing(sessions.Keys), protect, today, idDate);
    DeletesAreReported(first, Listing(first.archive.Keys), protect, today, idDate);
    TierTwoExact(first, protect, today, idDate);
    TierOneLosesNothing(sessions, archive, protect, today, idDate);
    forall x | x in first.archive && x !in archive
      ensures x in Tier2(first, protect, today, idDate).archive
    {
      assert x in first.dest.Values;
      var n :| n in first.dest && first.dest[n] == x;
      assert n in StaleSessions(sessions, protect, today, idDate);
      FreshSurvives(first, x, sessions[n], protect, today, idDate);
    }
  }

  // ---- A second sweep on the same day -------------------------------------------------------------------

  lemma {:induction false} MoveNone(s: Sweeping, names: seq<string>, protect: set<string>, today: int,
                                    idDate: string -> Option<int>)
    requires forall n | n in names && n in s.sessions :: !Stale(n, s.sessions[n], protect, today, idDate)
    ensures MoveAll(s, names, protect, today, idDate) == s
  {
    if names != [] {
      assert names[|names| - 1] in names;
      MoveNone(s, names[..|names| - 1], protect, today, idDate);
    }
  }

  lemma {:induction false} DeleteNone(s: Sweeping, names: seq<string>, protect: set<string>, today: int,
                                      idDate: string -> Option<int>)
    requires forall n | n in names && n in s.archive :: !Expired(n, s.archive[n], protect, today, idDate)
    ensures DeleteAll(s, names, protect, today, idDate) == s
  {
    if names != [] {
      assert names[|names| - 1] in names;
      DeleteNone(s, names[..|names| - 1], protect, today, idDate);
    }
  }

  /** Sweeping again on the same day with the same protected names does nothing. */
  lemma SecondSweepIsNoop(sessions: Folder, archive: Folder, protect: set<string>, today: int,
                          idDate: string -> Option<int>)
    ensures var s := Sweep(sessions, archive, protect, today, idDate);
            Sweep(s.sessions, s.archive, protect, today, idDate) == Sweeping(s.sessions, s.archive, map[], [])
  {
    var s := Sweep(sessions, archive, protect, today, idDate);
    var again := Sweeping(s.sessions, s.archive, map[], []);
    TierOneLosesNothing(sessions, archive, protect, today, idDate);
    TierTwoExact(Tier1(sessions, archive, protect, today, idDate), protect, today, idDate);
    MoveNone(again, Listing(s.sessions.Keys), protect, today, idDate);
    DeleteNone(again, Listing(s.archive.Keys), protect, today, idDate);
  }

  // ---- The recovery window over whole runs ------------------------------------------------------------------

  datatype Context = Context(sessions: Folder, archive: Folder)

  /** What happens to an anchor: a sweep, the end of a session, or sessions starting and writing at will. */
  datatype Event = Swept(protect: set<string>, today: int) | End(sid: string) | Work(sessions: Folder)

  ghost function Step(c: Context, e: Event, idDate: string -> Option<int>): Context {
    match e
    case Swept(protect, today) =>
      var s := Sweep(c.sessions, c.archive, protect, today, idDate);
      Context(s.sessions, s.archive)
    case End(sid) =>
      var s := Ended(c.sessions, c.archive, sid);
      Context(s.0, s.1)
    case Work(sessions) => c.(sessions := sessions)
  }

  ghost function Run(c: Context, events: seq<Event>, idDate: string -> Option<int>): Context
    decreases |events|
  {
    if events == [] then c
    else Step(Run(c, events[..|events| - 1], idDate), events[|events| - 1], idDate)
  }

  /** This event is a sweep that deletes the archived directory. */
  predicate Removes(e: Event, name: string, entry: Entry, idDate: string -> Option<int>) {
    e.Swept? && Expired(name, entry, e.protect, e.today, idDate)
  }

  predicate Holds(c: Context, name: string, entry: Entry) {
    name in c.archive && c.archive[name] == entry
  }

  /** One event keeps an archive entry as it is, or removes it when its window is over. */
  lemma StepKeeps(c: Context, e: Event, name: string, entry: Entry, idDate: string -> Option<int>)
    requires Holds(c, name, entry)
    ensures if Removes(e, name, entry, idDate) then name !in Step(c, e, idDate).archive
            else Holds(Step(c, e, idDate), name, entry)
  {
    if e.Swept? {
      TierOneLosesNothing(c.sessions, c.archive, e.protect, e.today, idDate);
      TierTwoExact(Tier1(c.sessions, c.archive, e.protect, e.today, idDate), e.protect, e.today, idDate);
    }
  }

  /** Over any run an archive entry stays as it is until the first sweep for which it has expired, and that one
      removes it. */
  lemma {:induction false} KeptUntilExpired(c: Context, events: seq<Event>, name: string, entry: Entry,
                                            idDate: string -> Option<int>)
    requires Holds(c, name, entry)
    requires forall i | 0 <= i < |events| - 1 :: !Removes(events[i], name, entry, idDate)
    ensures if events != [] && Removes(events[|events| - 1], name, entry, idDate)
            then name !in Run(c, events, idDate).archive
            else Holds(Run(c, events, idDate), name, entry)
  {
    if events != [] {
      var n := |events| - 1;
      assert forall i | 0 <= i < n :: events[..n][i] == events[i];
      KeptUntilExpired(c, events[..n], name, entry, idDate);
      StepKeeps(Run(c, events[..n], idDate), events[n], name, entry, idDate);
    }
  }

  /** The event ends the recovery window of a directory moved to `name` on `day`. */
  predicate EndsWindow(e: Event, name: string, day: int) {
    e.Swept? && e.today > day + DELETE_AFTER_DAYS && name !in e.protect
  }

  lemma DestinationIsVisible(taken: set<string>, name: string)
    requires name != "" && !("." <= name)
    ensures !("." <= Destination(taken, name))
  {
    var dst := Destination(taken, name);
    assert dst[0] == name[0];
  }

  lemma {:induction false} MovedNamesVisible(s: Sweeping, names: seq<string>, protect: set<string>, today: int,
                                             idDate: string -> Option<int>)
    requires "" !in s.sessions && forall n | n in s.dest :: !("." <= s.dest[n])
    ensures var t := MoveAll(s, names, protect, today, idDate);
            "" !in t.sessions && forall n | n in t.dest :: !("." <= t.dest[n])
  {
    if names != [] {
      var n := |names| - 1;
      MovedNamesVisible(s, names[..n], protect, today, idDate);
      var t := MoveAll(s, names[..n], protect, today, idDate);
      if names[n] in t.sessions && !("." <= names[n]) {
        DestinationIsVisible(t.archive.Keys, names[n]);
      }
    }
  }

  lemma MovedFresh(sessions: Folder, archive: Folder, protect: set<string>, t: int, name: string,
                   idDate: string -> Option<int>)
    requires "" !in sessions && name in sessions && Stale(name, sessions[name], protect, t, idDate)
    ensures var s := Tier1(sessions, archive, protect, t, idDate);
            && name in s.dest && s.dest[name] !in archive && !("." <= s.dest[name])
            && s.dest[name] in s.archive && s.archive[s.dest[name]] == Stamped(sessions[name], t)
  {
    var start := Sweeping(sessions, archive, map[], []);
    TierOneLosesNothing(sessions, archive, protect, t, idDate);
    MovedNamesVisible(start, Listing(sessions.Keys), protect, t, idDate);
    var s, moved := Tier1(sessions, archive, protect, t, idDate), StaleSessions(sessions, protect, t, idDate);
    assert EachMoved(sessions, archive, s, moved, t) && name in moved;
  }

  /** What a sweep has just moved it does not delete. */
  lemma FreshSurvives(s: Sweeping, dst: string, entry: Entry, protect: set<string>, t: int,
                      idDate: string -> Option<int>)
    requires entry.Dir? && dst in s.archive && s.archive[dst] == Stamped(entry, t)
    ensures var archive := Tier2(s, protect, t, idDate).archive; dst in archive && archive[dst] == Stamped(entry, t)
  {
    TierTwoExact(s, protect, t, idDate);
  }

  /** Where the sweep of day `t` moves a stale session: to a fresh archive name, where it is after that sweep. */
  ghost function MovedTo(c: Context, protect: set<string>, t: int, name: string, idDate: string -> Option<int>)
    : (dst: string)
    requires "" !in c.sessions && name in c.sessions && Stale(name, c.sessions[name], protect, t, idDate)
    ensures dst !in c.archive && !("." <= dst)
    ensures Holds(Step(c, Swept(protect, t), idDate), dst, Stamped(c.sessions[name], t))
  {
    var s := Tier1(c.sessions, c.archive, protect, t, idDate);
    MovedFresh(c.sessions, c.archive, protect, t, name, idDate);
    FreshSurvives(s, s.dest[name], c.sessions[name], protect, t, idDate);
    s.dest[name]
  }

  lemma WindowOfStamp(e: Event, dst: string, entry: Entry, t: int, idDate: string -> Option<int>)
    requires entry.Dir? && !("." <= dst)
    ensures Removes(e, dst, Stamped(entry, t), idDate) <==> EndsWindow(e, dst, t)
  {
  }

  /** A session moved by a sweep on day `t` stays in the archive with its files over every further run,
      until the first unprotected sweep dated later than `t + 30`, which deletes it. No file has the empty name. */
  lemma RecoveryWindow(c: Context, protect: set<string>, t: int, name: string, events: seq<Event>,
                       idDate: string -> Option<int>)
    requires "" !in c.sessions && name in c.sessions && Stale(name, c.sessions[name], protect, t, idDate)
    requires var dst := MovedTo(c, protect, t, name, idDate);
             forall i | 0 <= i < |events| - 1 :: !EndsWindow(events[i], dst, t)
    ensures var dst := MovedTo(c, protect, t, name, idDate);
            var after := Run(Step(c, Swept(protect, t), idDate), events, idDate);
            if events != [] && EndsWindow(events[|events| - 1], dst, t) then dst !in after.archive
            else Holds(after, dst, Dir(c.sessions[name].files, MovedAt(t), Some(t)))
  {
    var dst, entry := MovedTo(c, protect, t, name, idDate), Stamped(c.sessions[name], t);
    forall e: Event {
      WindowOfStamp(e, dst, c.sessions[name], t, idDate);
    }
    KeptUntilExpired(Step(c, Swept(protect, t), idDate), events, dst, entry, idDate);
  }
}
