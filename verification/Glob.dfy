/** The path-glob compiler of the router (route.py) and the path language its docstring promises. */
module Glob {
  import opened Regex
  import Seqs

  // ---- The compiler ----------------------------------------------------------

  const ANY_RUN := Star(Dot)                                             // .*
  const SEGMENT_RUN := Star(NotSlash)                                    // [^/]*
  const OPT_SUBTREE := Opt(Cat(Chr('/'), Star(Dot)))                     // (/.*)?
  const SLASH_OPT_DIRS := Cat(Chr('/'), Opt(Cat(Star(Dot), Chr('/'))))   // /(.*/)?

  /** The fragments emitted for the rest of the glob. */
  function Compile(g: string): seq<Re>
    decreases |g|
  {
    if g == [] then []
    else if g[0] == '/' && |g| >= 3 && g[1..3] == "**" then
      if |g| > 3 && g[3] == '/' then [SLASH_OPT_DIRS] + Compile(g[4..])
      else [OPT_SUBTREE] + Compile(g[3..])
    else if g[0] == '*' then
      if |g| > 1 && g[1] == '*' then
        [ANY_RUN] + Compile(if |g| > 2 && g[2] == '/' then g[3..] else g[2..])
      else [SEGMENT_RUN] + Compile(g[1..])
    else [Chr(g[0])] + Compile(g[1..])
  }

  /** One turn of the loop at index `i`: the fragment it emits and the index it moves to. */
  function TurnAt(g: string, i: nat): (Re, nat)
    requires i < |g|
  {
    if g[i] == '/' && i + 3 <= |g| && g[i + 1..i + 3] == "**" then
      if i + 3 < |g| && g[i + 3] == '/' then (SLASH_OPT_DIRS, i + 4) else (OPT_SUBTREE, i + 3)
    else if g[i] == '*' then
      if i + 1 < |g| && g[i + 1] == '*' then
        (ANY_RUN, if i + 2 < |g| && g[i + 2] == '/' then i + 3 else i + 2)
      else (SEGMENT_RUN, i + 1)
    else (Chr(g[i]), i + 1)
  }

  lemma TurnCompiles(g: string, i: nat)
    requires i < |g|
    ensures i < TurnAt(g, i).1 <= |g|
    ensures Compile(g[i..]) == [TurnAt(g, i).0] + Compile(g[TurnAt(g, i).1..])
  {
    var rest := g[i..];
    assert |rest| >= 3 ==> rest[1..3] == g[i + 1..i + 3];
    assert |rest| >= 1 ==> rest[1..] == g[i + 1..];
    assert |rest| >= 2 ==> rest[2..] == g[i + 2..];
    assert |rest| >= 3 ==> rest[3..] == g[i + 3..];
    assert |rest| >= 4 ==> rest[4..] == g[i + 4..];
  }

  /** `_glob_to_regex`: one pass with an index and a growing fragment list. */
  method GlobToRegex(glob: string) returns (out: seq<Re>)
    ensures out == Compile(glob)
  {
    out := [];
    var i := 0;
    var n := |glob|;
    while i < n
      invariant 0 <= i <= n
      invariant Compile(glob) == out + Compile(glob[i..])
    {
      ghost var turn, before := TurnAt(glob, i), out;
      TurnCompiles(glob, i);
      if glob[i] == '/' && i + 3 <= n && glob[i + 1..i + 3] == "**" {
        // The other arm's test for a following slash can never succeed, so it is not repeated here.
        if i + 3 < n && glob[i + 3] == '/' {
          out := out + [SLASH_OPT_DIRS];
          i := i + 4;
        } else {
          out := out + [OPT_SUBTREE];
          i := i + 3;
        }
      } else if glob[i] == '*' {
        if i + 1 < n && glob[i + 1] == '*' {
          out := out + [ANY_RUN];
          i := i + 2;
          if i < n && glob[i] == '/' {
            i := i + 1;
          }
        } else {
          out := out + [SEGMENT_RUN];
          i := i + 1;
        }
      } else {
        out := out + [Chr(glob[i])];
        i := i + 1;
      }
      assert out == before + [turn.0] && i == turn.1;
      Seqs.Assoc(before, [turn.0], Compile(glob[i..]));
    }
    assert glob[i..] == [];
  }

  // ---- The documented meaning ------------------------------------------------

  /** The `/`-separated segments of a path or a glob; never an empty list. */
  function Split(s: string): (segs: seq<string>)
    ensures |segs| > 0
    ensures forall seg | seg in segs :: '/' !in seg
  {
    if s == [] then [[]]
    else
      var rest := Split(s[1..]);
      if s[0] == '/' then [[]] + rest else [[s[0]] + rest[0]] + rest[1..]
  }

  /** `*` stands for any run of characters inside one segment. */
  predicate SegmentMatch(p: string, s: string)
    decreases |p|
  {
    if p == [] then s == []
    else if p[0] == '*' then exists k | 0 <= k <= |s| :: SegmentMatch(p[1..], s[k..])
    else s != [] && s[0] == p[0] && SegmentMatch(p[1..], s[1..])
  }

  /** `**` stands for any number of segments, including none. */
  predicate SegmentsMatch(ps: seq<string>, ts: seq<string>)
    decreases |ps|
  {
    if ps == [] then ts == []
    else if ps[0] == "**" then exists k | 0 <= k <= |ts| :: SegmentsMatch(ps[1..], ts[k..])
    else ts != [] && SegmentMatch(ps[0], ts[0]) && SegmentsMatch(ps[1..], ts[1..])
  }

  predicate PathMatch(glob: string, target: string) {
    SegmentsMatch(Split(glob), Split(target))
  }

  predicate NewlineFree(s: string) {
    '\n' !in s
  }

  predicate HasDoubleStar(p: string) {
    exists i | 0 <= i < |p| - 1 :: p[i] == '*' && p[i + 1] == '*'
  }

  /** Every segment is exactly `**` or does not contain `**`: the globs the docstring gives a meaning. */
  predicate Clean(ps: seq<string>) {
    forall p | p in ps :: p == "**" || !HasDoubleStar(p)
  }

  /** A `**` with no separator of its own left: it opens the glob or follows another `**`. */
  predicate Bare(ps: seq<string>, i: nat)
    requires i < |ps|
  {
    ps[i] == "**" && (i == 0 || ps[i - 1] == "**")
  }

  /** Each bare `**` is followed by a segment that opens with `*`, or ends a glob made of `**` only. */
  predicate Routable(ps: seq<string>) {
    forall i | 0 <= i < |ps| && Bare(ps, i) ::
      if i + 1 < |ps| then ps[i + 1] != [] && ps[i + 1][0] == '*'
      else forall p | p in ps :: p == "**"
  }

  // ---- Splitting and joining ---------------------------------------------------

  function Join(ts: seq<string>): string
    requires ts != []
  {
    if |ts| == 1 then ts[0] else ts[0] + "/" + Join(ts[1..])
  }

  lemma {:induction false} SplitAppend(u: string, v: string)
    ensures Split(u + "/" + v) == Split(u) + Split(v)
  {
    if u == [] {
      assert (u + "/" + v)[1..] == v;
    } else {
      assert (u + "/" + v)[1..] == u[1..] + "/" + v;
      SplitAppend(u[1..], v);
    }
  }

  lemma {:induction false} SplitSlashFree(s: string)
    requires '/' !in s
    ensures Split(s) == [s]
  {
    if s != [] {
      SplitSlashFree(s[1..]);
      assert s == [s[0]] + s[1..];
    }
  }

  lemma {:induction false} JoinSplit(s: string)
    ensures Join(Split(s)) == s
  {
    if s != [] {
      JoinSplit(s[1..]);
      var rest := Split(s[1..]);
      if s[0] == '/' {
        assert ([[]] + rest)[1..] == rest;
      } else {
        assert ([[s[0]] + rest[0]] + rest[1..])[1..] == rest[1..];
      }
    }
  }

  lemma {:induction false} SplitJoin(ts: seq<string>)
    requires ts != [] && forall t | t in ts :: '/' !in t
    ensures Split(Join(ts)) == ts
  {
    SplitSlashFree(ts[0]);
    if |ts| > 1 {
      SplitJoin(ts[1..]);
      SplitAppend(ts[0], Join(ts[1..]));
    }
  }

  /** A position of `w` at which a segment starts. */
  predicate SegmentStart(w: string, k: nat)
    requires k <= |w|
  {
    k == 0 || w[k - 1] == '/'
  }

  /** The segment lists left after dropping leading segments are the splits at segment starts. */
  lemma StartIsDrop(w: string, k: nat) returns (j: nat)
    requires k <= |w| && SegmentStart(w, k)
    ensures j < |Split(w)| && Split(w)[j..] == Split(w[k..])
  {
    if k == 0 {
      assert w[0..] == w;
      return 0;
    }
    assert w == w[..k - 1] + "/" + w[k..];
    SplitAppend(w[..k - 1], w[k..]);
    j := |Split(w[..k - 1])|;
  }

  lemma {:induction false} DropIsStart(w: string, j: nat) returns (k: nat)
    requires j < |Split(w)|
    ensures k <= |w| && SegmentStart(w, k) && Split(w)[j..] == Split(w[k..])
    decreases j
  {
    if j == 0 {
      assert w[0..] == w && Split(w)[0..] == Split(w);
      return 0;
    }
    JoinSplit(w);
    var ts := Split(w);
    var u, v := ts[0], Join(ts[1..]);
    assert w == u + "/" + v;
    SplitSlashFree(u);
    SplitAppend(u, v);
    assert Split(v) == ts[1..];
    var k' := DropIsStart(v, j - 1);
    k := |u| + 1 + k';
    assert w[k..] == v[k'..];
    assert ts[j..] == ts[1..][j - 1..];
  }

  // ---- The compiled form, segment by segment -----------------------------------

  function SegmentRe(p: string): seq<Re> {
    if p == [] then []
    else [if p[0] == '*' then SEGMENT_RUN else Chr(p[0])] + SegmentRe(p[1..])
  }

  /** What is emitted from the start of a segment. */
  function FromStart(ps: seq<string>): seq<Re>
    requires ps != []
    decreases |ps|, 0
  {
    if ps[0] == "**" then [ANY_RUN] + (if |ps| == 1 then [] else FromStart(ps[1..]))
    else SegmentRe(ps[0]) + (if |ps| == 1 then [] else FromSlash(ps[1..]))
  }

  /** What is emitted from the slash in front of a segment. */
  function FromSlash(ps: seq<string>): seq<Re>
    requires ps != []
    decreases |ps|, 1
  {
    if ps[0] == "**" then
      if |ps| == 1 then [OPT_SUBTREE] else [SLASH_OPT_DIRS] + FromStart(ps[1..])
    else [Chr('/')] + FromStart(ps)
  }

  lemma DoubleStarTail(p: string)
    requires p != []
    ensures HasDoubleStar(p[1..]) ==> HasDoubleStar(p)
  {
    if i :| 0 <= i < |p[1..]| - 1 && p[1..][i] == '*' && p[1..][i + 1] == '*' {
      assert p[i + 1] == '*' && p[i + 2] == '*';
    }
  }

  lemma {:induction false} CompileSegment(p: string, tail: string)
    requires '/' !in p && !HasDoubleStar(p)
    requires tail == [] || tail[0] == '/'
    ensures Compile(p + tail) == SegmentRe(p) + Compile(tail)
  {
    if p == [] {
      assert p + tail == tail;
    } else {
      var g := p + tail;
      assert g[1..] == p[1..] + tail;
      DoubleStarTail(p);
      CompileSegment(p[1..], tail);
      if p[0] == '*' && |p| > 1 {
        assert g[0] == p[0] && g[1] == p[1];
      }
    }
  }

  lemma {:induction false} CompileFromStart(ps: seq<string>)
    requires ps != [] && Clean(ps) && forall p | p in ps :: '/' !in p
    ensures Compile(Join(ps)) == FromStart(ps)
    decreases |ps|, 0
  {
    var g := Join(ps);
    if |ps| == 1 {
      if ps[0] == "**" {
        assert g[2..] == [];
      } else {
        assert g == ps[0] + [];
        CompileSegment(ps[0], []);
      }
    } else {
      var rest := Join(ps[1..]);
      if ps[0] == "**" {
        assert g[3..] == rest;
        CompileFromStart(ps[1..]);
      } else {
        assert g == ps[0] + ("/" + rest);
        CompileSegment(ps[0], "/" + rest);
        CompileFromSlash(ps[1..]);
      }
    }
  }

  lemma {:induction false} CompileFromSlash(ps: seq<string>)
    requires ps != [] && Clean(ps) && forall p | p in ps :: '/' !in p
    ensures Compile("/" + Join(ps)) == FromSlash(ps)
    decreases |ps|, 1
  {
    var g := "/" + Join(ps);
    if ps[0] == "**" {
      assert g[1..3] == "**";
      if |ps| == 1 {
        assert g[3..] == [];
      } else {
        assert g[4..] == Join(ps[1..]);
        CompileFromStart(ps[1..]);
      }
    } else {
      assert g[1..] == Join(ps);
      CompileFromStart(ps);
      if |g| >= 3 && g[1..3] == "**" {
        NoDoubleStarAhead(ps);
      }
    }
  }

  /** A clean first segment other than `**` does not make the text after a slash open with `**`. */
  lemma NoDoubleStarAhead(ps: seq<string>)
    requires ps != [] && Clean(ps) && ps[0] != "**" && '/' !in ps[0]
    ensures !("**" <= Join(ps))
  {
    var g := Join(ps);
    assert ps[0] in ps && ps[0] <= g;
    if |ps[0]| >= 2 {
      assert g[0] == ps[0][0] && g[1] == ps[0][1];
      assert 0 <= 0 < |ps[0]| - 1;
    } else if |ps| > 1 {
      assert g[|ps[0]|] == '/';
    }
  }

  // ---- What the fragments match --------------------------------------------------

  /** `X` matches what is left of `s` from position `k` on. */
  predicate RestMatches(X: seq<Re>, s: string, k: nat)
    requires k <= |s|
  {
    FullSeq(X, s[k..])
  }

  lemma AnyRunThen(X: seq<Re>, s: string)
    requires NewlineFree(s)
    ensures FullSeq([ANY_RUN] + X, s) <==> exists k: nat :: k <= |s| && RestMatches(X, s, k)
  {
    FullSeqCons(ANY_RUN, X, s);
    forall k: nat | k <= |s|
      ensures Full(ANY_RUN, s[..k])
    {
      StarDot(s[..k]);
    }
    if k: nat :| k <= |s| && RestMatches(X, s, k) {
      assert Full(ANY_RUN, s[..k]) && FullSeq(X, s[k..]);
    }
    if k :| 0 <= k <= |s| && Full(ANY_RUN, s[..k]) && FullSeq(X, s[k..]) {
      assert RestMatches(X, s, k);
    }
  }

  lemma SlashOptDirsThen(X: seq<Re>, s: string)
    requires NewlineFree(s)
    ensures FullSeq([SLASH_OPT_DIRS] + X, "/" + s) <==>
            exists k: nat :: k <= |s| && SegmentStart(s, k) && RestMatches(X, s, k)
  {
    var g := "/" + s;
    forall k: nat | k <= |g|
      ensures Full(SLASH_OPT_DIRS, g[..k]) == SlashToSlash(g[..k])
    {
      SlashOptDirsFull(g[..k]);
    }
    HeadThen(SLASH_OPT_DIRS, SlashToSlash, X, g);
    if k: nat :| k <= |s| && SegmentStart(s, k) && RestMatches(X, s, k) {
      AfterSlash(X, s, k + 1);
    }
    if k: nat :| k <= |g| && SlashToSlash(g[..k]) && RestMatches(X, g, k) {
      AfterSlash(X, s, k);
    }
  }

  lemma AfterSlash(X: seq<Re>, s: string, k: nat)
    requires 0 < k <= |s| + 1
    ensures SlashToSlash(("/" + s)[..k]) <==> SegmentStart(s, k - 1)
    ensures RestMatches(X, "/" + s, k) <==> RestMatches(X, s, k - 1)
  {
    assert ("/" + s)[k..] == s[k - 1..];
    assert ("/" + s)[..k][k - 1] == if k == 1 then '/' else s[k - 2];
  }

  predicate SlashToSlash(s: string) {
    s != [] && s[0] == '/' && s[|s| - 1] == '/'
  }

  /** A head fragment that matches exactly the strings in `Q`, followed by `X`. */
  lemma HeadThen(r: Re, Q: string -> bool, X: seq<Re>, s: string)
    requires forall k: nat | k <= |s| :: Full(r, s[..k]) == Q(s[..k])
    ensures FullSeq([r] + X, s) <==> exists k: nat :: k <= |s| && Q(s[..k]) && RestMatches(X, s, k)
  {
    FullSeqCons(r, X, s);
    if k :| 0 <= k <= |s| && Full(r, s[..k]) && FullSeq(X, s[k..]) {
      assert Q(s[..k]) && RestMatches(X, s, k);
    }
    if k: nat :| k <= |s| && Q(s[..k]) && RestMatches(X, s, k) {
      assert Full(r, s[..k]) && FullSeq(X, s[k..]);
    }
  }

  lemma SlashOptDirsFull(s: string)
    requires NewlineFree(s)
    ensures Full(SLASH_OPT_DIRS, s) <==> SlashToSlash(s)
  {
    var dirs := Cat(Star(Dot), Chr('/'));
    ChrThen(Opt(dirs), s);
    if s != [] {
      ThenChr(s[1..]);
    }
  }

  lemma ChrThen(r: Re, s: string)
    ensures Full(Cat(Chr('/'), r), s) <==> s != [] && s[0] == '/' && Full(r, s[1..])
  {
    if s != [] && s[0] == '/' && Full(r, s[1..]) {
      assert s[..1] == "/";
      assert Full(Chr('/'), s[..1]) && Full(r, s[1..]);
    }
    if Full(Cat(Chr('/'), r), s) {
      var k :| 0 <= k <= |s| && Full(Chr('/'), s[..k]) && Full(r, s[k..]);
      assert k == 1 && s[0] == s[..k][0];
    }
  }

  lemma ThenChr(s: string)
    requires NewlineFree(s)
    ensures Full(Cat(Star(Dot), Chr('/')), s) <==> s != [] && s[|s| - 1] == '/'
  {
    if s != [] && s[|s| - 1] == '/' {
      var k := |s| - 1;
      StarDot(s[..k]);
      assert s[k..] == "/";
      assert Full(Star(Dot), s[..k]) && Full(Chr('/'), s[k..]);
    }
    if Full(Cat(Star(Dot), Chr('/')), s) {
      var k :| 0 <= k <= |s| && Full(Star(Dot), s[..k]) && Full(Chr('/'), s[k..]);
      assert k == |s| - 1 && s[k] == s[k..][0];
    }
  }

  lemma OptSubtreeThen(s: string)
    requires NewlineFree(s)
    ensures FullSeq([OPT_SUBTREE], s) <==> s == [] || s[0] == '/'
  {
    assert [OPT_SUBTREE] == [OPT_SUBTREE] + [];
    FullSeqCons(OPT_SUBTREE, [], s);
    assert s[..|s|] == s && s[|s|..] == [];
    ChrThen(Star(Dot), s);
    if s != [] {
      StarDot(s[1..]);
    }
    if s == [] || s[0] == '/' {
      assert Full(OPT_SUBTREE, s[..|s|]) && FullSeq([], s[|s|..]);
    }
    if k :| 0 <= k <= |s| && Full(OPT_SUBTREE, s[..k]) && FullSeq([], s[k..]) {
      assert k == |s|;
    }
  }

  /** The segment `p` takes the slash-free prefix `t[..k]` and `X` the rest. */
  predicate SegmentThen(p: string, X: seq<Re>, t: string, k: nat)
    requires k <= |t|
  {
    '/' !in t[..k] && SegmentMatch(p, t[..k]) && FullSeq(X, t[k..])
  }

  lemma {:induction false} SegmentReThen(p: string, X: seq<Re>, t: string)
    requires '/' !in p
    ensures FullSeq(SegmentRe(p) + X, t) <==> exists k: nat :: k <= |t| && SegmentThen(p, X, t, k)
    decreases |p|
  {
    if p == [] {
      assert SegmentRe(p) + X == X;
      assert t[0..] == t;
      if FullSeq(X, t) {
        assert SegmentThen(p, X, t, 0);
      }
    } else {
      var head := if p[0] == '*' then SEGMENT_RUN else Chr(p[0]);
      var rest := SegmentRe(p[1..]) + X;
      assert SegmentRe(p) + X == [head] + rest;
      FullSeqCons(head, rest, t);
      if j :| 0 <= j <= |t| && Full(head, t[..j]) && FullSeq(rest, t[j..]) {
        SegmentReThen(p[1..], X, t[j..]);
        var k: nat :| k <= |t[j..]| && SegmentThen(p[1..], X, t[j..], k);
        SegmentHead(p, X, t, j, k);
      }
      if k: nat :| k <= |t| && SegmentThen(p, X, t, k) {
        var j := SegmentUnhead(p, X, t, k);
        SegmentReThen(p[1..], X, t[j..]);
        assert Full(head, t[..j]) && FullSeq(rest, t[j..]);
      }
    }
  }

  lemma SegmentHead(p: string, X: seq<Re>, t: string, j: nat, k: nat)
    requires p != [] && '/' !in p && j + k <= |t|
    requires Full(if p[0] == '*' then SEGMENT_RUN else Chr(p[0]), t[..j])
    requires SegmentThen(p[1..], X, t[j..], k)
    ensures SegmentThen(p, X, t, j + k)
  {
    StarNotSlash(t[..j]);
    assert t[..j + k] == t[..j] + t[j..][..k];
    assert t[j..][k..] == t[j + k..];
    assert t[..j + k][j..] == t[j..][..k];
  }

  lemma SegmentUnhead(p: string, X: seq<Re>, t: string, k: nat) returns (j: nat)
    requires p != [] && '/' !in p && k <= |t|
    requires SegmentThen(p, X, t, k)
    ensures j <= k && Full(if p[0] == '*' then SEGMENT_RUN else Chr(p[0]), t[..j])
    ensures SegmentThen(p[1..], X, t[j..], k - j)
  {
    if p[0] == '*' {
      j :| 0 <= j <= k && SegmentMatch(p[1..], t[..k][j..]);
      StarNotSlash(t[..j]);
      assert forall i | 0 <= i < j :: t[..j][i] == t[..k][i];
    } else {
      j := 1;
    }
    assert t[..k][j..] == t[j..][..k - j];
    assert t[j..][k - j..] == t[k..];
    assert forall c | c in t[..k][j..] :: c in t[..k];
  }

  // ---- Agreement on routable globs -------------------------------------------------

  /** On `t`, the fragments compiled from the segments `ps` agree with the segment reading. */
  predicate Agrees(ps: seq<string>, t: string)
    requires ps != []
  {
    FullSeq(FromStart(ps), t) <==> SegmentsMatch(ps, Split(t))
  }

  lemma {:induction false} FirstSegment(t: string) returns (i: nat)
    ensures i <= |t| && '/' !in t[..i]
    ensures i == |t| ==> Split(t) == [t]
    ensures i < |t| ==> t[i] == '/' && Split(t) == [t[..i]] + Split(t[i + 1..])
  {
    if '/' !in t {
      SplitSlashFree(t);
      assert t[..|t|] == t;
      return |t|;
    }
    i := 0;
    while t[i] != '/'
      invariant 0 <= i < |t| && '/' in t[i..] && '/' !in t[..i]
      decreases |t| - i
    {
      i := i + 1;
    }
    assert t == t[..i] + "/" + t[i + 1..];
    SplitAppend(t[..i], t[i + 1..]);
    SplitSlashFree(t[..i]);
  }

  /** After a segment, `X` treats `s` as the separator and the segments `r` treat what follows it. */
  predicate Follows(X: seq<Re>, r: seq<string>, s: string) {
    if s == [] then FullSeq(X, s) <==> SegmentsMatch(r, [])
    else if s[0] == '/' then FullSeq(X, s) <==> SegmentsMatch(r, Split(s[1..]))
    else !FullSeq(X, s)
  }

  lemma SegmentsHead(p: string, r: seq<string>, ts: seq<string>)
    requires p != "**"
    ensures SegmentsMatch([p] + r, ts) <==>
            ts != [] && SegmentMatch(p, ts[0]) && SegmentsMatch(r, ts[1..])
  {
    assert ([p] + r)[1..] == r;
  }

  lemma AgreesSegment(p: string, r: seq<string>, X: seq<Re>, t: string)
    requires p != "**" && '/' !in p
    requires forall k: nat | k <= |t| :: Follows(X, r, t[k..])
    ensures FullSeq(SegmentRe(p) + X, t) <==> SegmentsMatch([p] + r, Split(t))
  {
    var i := FirstSegment(t);
    SegmentReThen(p, X, t);
    SegmentsHead(p, r, Split(t));
    assert Follows(X, r, t[i..]);
    if i < |t| {
      assert t[i..][1..] == t[i + 1..];
      assert Split(t)[1..] == Split(t[i + 1..]);
    } else {
      assert t[..i] == t && t[i..] == [] && Split(t)[1..] == [];
    }
    if k: nat :| k <= |t| && SegmentThen(p, X, t, k) {
      assert Follows(X, r, t[k..]);
      Seqs.NextInLonger(t, i, k);
      assert k == i;
    }
    if SegmentMatch(p, t[..i]) && FullSeq(X, t[i..]) {
      assert SegmentThen(p, X, t, i);
    }
  }

  lemma AgreesSegmentLast(p: string, t: string)
    requires p != "**" && '/' !in p
    ensures Agrees([p], t)
  {
    forall k: nat | k <= |t|
      ensures Follows([], [], t[k..])
    {
    }
    AgreesSegment(p, [], [], t);
    assert [p] + [] == [p];
  }

  lemma SlashFollows(r: seq<string>, s: string)
    requires r != [] && !SegmentsMatch(r, []) && NewlineFree(s)
    requires forall u | NewlineFree(u) :: Agrees(r, u)
    ensures Follows([Chr('/')] + FromStart(r), r, s)
  {
    var X := FromStart(r);
    FullSeqCons(Chr('/'), X, s);
    if s != [] && s[0] == '/' {
      assert Agrees(r, s[1..]);
      if FullSeq(X, s[1..]) {
        assert Full(Chr('/'), s[..1]) && FullSeq(X, s[1..]);
      }
    }
    if k :| 0 <= k <= |s| && Full(Chr('/'), s[..k]) && FullSeq(X, s[k..]) {
      assert k == 1 && s[0] == s[..k][0];
    }
  }

  lemma AgreesSegmentNext(p: string, r: seq<string>, t: string)
    requires p != "**" && '/' !in p && r != [] && r[0] != "**" && NewlineFree(t)
    requires forall u | NewlineFree(u) :: Agrees(r, u)
    ensures Agrees([p] + r, t)
  {
    NoMatchOfNothing(r, 0);
    forall k: nat | k <= |t|
      ensures Follows([Chr('/')] + FromStart(r), r, t[k..])
    {
      SlashFollows(r, t[k..]);
    }
    AgreesSegment(p, r, [Chr('/')] + FromStart(r), t);
    assert ([p] + r)[1..] == r;
  }

  lemma AgreesSegmentSubtree(p: string, t: string)
    requires p != "**" && '/' !in p && NewlineFree(t)
    ensures Agrees([p, "**"], t)
  {
    forall k: nat | k <= |t|
      ensures Follows([OPT_SUBTREE], ["**"], t[k..])
    {
      var s := t[k..];
      OptSubtreeThen(s);
      AnySegments([]);
      if s != [] {
        AnySegments(Split(s[1..]));
      }
    }
    AgreesSegment(p, ["**"], [OPT_SUBTREE], t);
    assert [p, "**"][1..] == ["**"] && [p] + ["**"] == [p, "**"];
  }

  lemma AnySegments(ts: seq<string>)
    ensures SegmentsMatch(["**"], ts)
  {
    assert SegmentsMatch(["**"][1..], ts[|ts|..]);
  }

  /** `**` in front of `r`: the rest matches `r` from some segment start. */
  lemma DoubleStarStarts(r: seq<string>, w: string)
    requires !SegmentsMatch(r, [])
    ensures SegmentsMatch(["**"] + r, Split(w)) <==>
            exists k: nat :: k <= |w| && SegmentStart(w, k) && SegmentsMatch(r, Split(w[k..]))
  {
    var ts := Split(w);
    assert (["**"] + r)[1..] == r;
    assert ts[|ts|..] == [];
    if j :| 0 <= j <= |ts| && SegmentsMatch(r, ts[j..]) {
      var k := DropIsStart(w, j);
      assert SegmentsMatch(r, Split(w[k..]));
    }
    if k: nat :| k <= |w| && SegmentStart(w, k) && SegmentsMatch(r, Split(w[k..])) {
      var j := StartIsDrop(w, k);
      assert SegmentsMatch(r, ts[j..]);
    }
  }

  lemma AgreesSegmentDirs(p: string, r: seq<string>, t: string)
    requires p != "**" && '/' !in p && r != [] && NewlineFree(t)
    requires !SegmentsMatch(r, [])
    requires forall u | NewlineFree(u) :: Agrees(r, u)
    ensures Agrees([p, "**"] + r, t)
  {
    forall k: nat | k <= |t|
      ensures Follows([SLASH_OPT_DIRS] + FromStart(r), ["**"] + r, t[k..])
    {
      DirsFollow(r, t[k..]);
    }
    AgreesSegment(p, ["**"] + r, [SLASH_OPT_DIRS] + FromStart(r), t);
    var ps := [p, "**"] + r;
    assert ps == [p] + (["**"] + r) && ps[1..] == ["**"] + r && ps[1..][1..] == r;
  }

  lemma DirsFollow(r: seq<string>, s: string)
    requires r != [] && NewlineFree(s) && !SegmentsMatch(r, [])
    requires forall u | NewlineFree(u) :: Agrees(r, u)
    ensures Follows([SLASH_OPT_DIRS] + FromStart(r), ["**"] + r, s)
  {
    DoubleStarOfNothing(r);
    if s != [] && s[0] == '/' {
      assert s == "/" + s[1..];
      DirsAgree(r, s[1..]);
    } else {
      SlashOptDirsOpens(FromStart(r), s);
    }
  }

  lemma SlashOptDirsOpens(X: seq<Re>, s: string)
    requires NewlineFree(s)
    ensures FullSeq([SLASH_OPT_DIRS] + X, s) ==> s != [] && s[0] == '/'
  {
    forall k: nat | k <= |s|
      ensures Full(SLASH_OPT_DIRS, s[..k]) == SlashToSlash(s[..k])
    {
      SlashOptDirsFull(s[..k]);
    }
    HeadThen(SLASH_OPT_DIRS, SlashToSlash, X, s);
  }

  lemma DirsAgree(r: seq<string>, w: string)
    requires r != [] && NewlineFree(w) && !SegmentsMatch(r, [])
    requires forall u | NewlineFree(u) :: Agrees(r, u)
    ensures FullSeq([SLASH_OPT_DIRS] + FromStart(r), "/" + w) <==> SegmentsMatch(["**"] + r, Split(w))
  {
    var X := FromStart(r);
    forall k: nat | k <= |w|
      ensures RestMatches(X, w, k) <==> SegmentsMatch(r, Split(w[k..]))
    {
      assert Agrees(r, w[k..]);
    }
    DirsAgreeFor(X, r, w);
  }

  lemma DirsAgreeFor(X: seq<Re>, r: seq<string>, w: string)
    requires NewlineFree(w) && !SegmentsMatch(r, [])
    requires forall k: nat | k <= |w| :: RestMatches(X, w, k) <==> SegmentsMatch(r, Split(w[k..]))
    ensures FullSeq([SLASH_OPT_DIRS] + X, "/" + w) <==> SegmentsMatch(["**"] + r, Split(w))
  {
    SlashOptDirsThen(X, w);
    DoubleStarStarts(r, w);
  }

  lemma {:induction false} DoubleStarTwice(r: seq<string>, ts: seq<string>)
    requires r != [] && r[0] == "**"
    ensures SegmentsMatch(["**"] + r, ts) <==> SegmentsMatch(r, ts)
  {
    var ps := ["**"] + r;
    assert ps[1..] == r;
    if SegmentsMatch(r, ts) {
      assert ts[0..] == ts;
      assert SegmentsMatch(ps[1..], ts[0..]);
    }
    if j :| 0 <= j <= |ts| && SegmentsMatch(r, ts[j..]) {
      var k :| 0 <= k <= |ts[j..]| && SegmentsMatch(r[1..], ts[j..][k..]);
      assert ts[j..][k..] == ts[j + k..];
    }
  }

  lemma AgreesBareBare(r: seq<string>, t: string)
    requires r != [] && r[0] == "**" && NewlineFree(t) && Agrees(r, t)
    ensures Agrees(["**"] + r, t)
  {
    var ps := ["**"] + r;
    assert ps[1..] == r;
    DoubleStarTwice(r, Split(t));
    var X := if |r| == 1 then [] else FromStart(r[1..]);
    assert FromStart(r) == [ANY_RUN] + X;
    AnyRunThen(X, t);
    AnyRunThen([ANY_RUN] + X, t);
    if k: nat :| k <= |t| && RestMatches([ANY_RUN] + X, t, k) {
      AnyRunThen(X, t[k..]);
      var m: nat :| m <= |t[k..]| && RestMatches(X, t[k..], m);
      assert t[k..][m..] == t[k + m..];
      assert RestMatches(X, t, k + m);
    }
    if FullSeq([ANY_RUN] + X, t) {
      assert t[0..] == t;
      assert RestMatches([ANY_RUN] + X, t, 0);
    }
  }

  lemma AgreesBareLast(t: string)
    requires NewlineFree(t)
    ensures Agrees(["**"], t)
  {
    AnySegments(Split(t));
    AnyRunThen([], t);
    assert FromStart(["**"]) == [ANY_RUN] + [];
    assert RestMatches([], t, |t|);
  }

  /** A leading `*` absorbs the text back to the start of its segment. */
  lemma SegmentBack(t: string, k: nat) returns (m: nat)
    requires k <= |t|
    ensures m <= k && SegmentStart(t, m) && '/' !in t[m..k]
  {
    m := k;
    while m > 0 && t[m - 1] != '/'
      invariant m <= k && '/' !in t[m..k]
    {
      m := m - 1;
    }
  }

  /** A run inside a segment can take in more of the segment in front of it. */
  lemma RunTakesMore(X: seq<Re>, a: string, s: string)
    requires '/' !in a && FullSeq([SEGMENT_RUN] + X, s)
    ensures FullSeq([SEGMENT_RUN] + X, a + s)
  {
    FullSeqCons(SEGMENT_RUN, X, s);
    var j :| 0 <= j <= |s| && Full(SEGMENT_RUN, s[..j]) && FullSeq(X, s[j..]);
    StarNotSlash(s[..j]);
    StarNotSlash(a + s[..j]);
    assert (a + s)[..|a| + j] == a + s[..j] && (a + s)[|a| + j..] == s[j..];
    FullSeqCons(SEGMENT_RUN, X, a + s);
  }

  lemma StarAbsorbs(p: string, Y: seq<Re>, t: string, k: nat) returns (m: nat)
    requires p != [] && p[0] == '*' && k <= |t| && FullSeq(SegmentRe(p) + Y, t[k..])
    ensures m <= |t| && SegmentStart(t, m) && FullSeq(SegmentRe(p) + Y, t[m..])
  {
    m := SegmentBack(t, k);
    var X := SegmentRe(p[1..]) + Y;
    assert SegmentRe(p) + Y == [SEGMENT_RUN] + X;
    RunTakesMore(X, t[m..k], t[k..]);
    assert t[m..] == t[m..k] + t[k..];
  }

  /** Some rest of `t` matches, and some rest that starts a segment does. */
  predicate RestStarts(X: seq<Re>, t: string) {
    exists k: nat | k <= |t| :: SegmentStart(t, k) && RestMatches(X, t, k)
  }

  lemma RestMovesBack(r: seq<string>, t: string, k: nat)
    requires r != [] && r[0] != "**" && r[0] != [] && r[0][0] == '*' && k <= |t|
    requires RestMatches(FromStart(r), t, k)
    ensures RestStarts(FromStart(r), t)
  {
    var m := StarAbsorbs(r[0], if |r| == 1 then [] else FromSlash(r[1..]), t, k);
    assert RestMatches(FromStart(r), t, m);
  }

  lemma SegmentsAgree(r: seq<string>, t: string)
    requires r != [] && NewlineFree(t) && !SegmentsMatch(r, [])
    requires forall k: nat | k <= |t| :: RestMatches(FromStart(r), t, k) <==> SegmentsMatch(r, Split(t[k..]))
    ensures SegmentsMatch(["**"] + r, Split(t)) <==> RestStarts(FromStart(r), t)
  {
    DoubleStarStarts(r, t);
    if k: nat :| k <= |t| && SegmentStart(t, k) && SegmentsMatch(r, Split(t[k..])) {
      assert RestMatches(FromStart(r), t, k);
    }
  }

  lemma {:induction false} AgreesBareStar(r: seq<string>, t: string)
    requires r != [] && r[0] != "**" && r[0] != [] && r[0][0] == '*' && NewlineFree(t)
    requires forall u | NewlineFree(u) :: Agrees(r, u)
    ensures Agrees(["**"] + r, t)
  {
    var ps := ["**"] + r;
    assert ps[1..] == r;
    var X := FromStart(r);
    AnyRunThen(X, t);
    forall k: nat | k <= |t|
      ensures RestMatches(X, t, k) <==> SegmentsMatch(r, Split(t[k..]))
    {
      assert Agrees(r, t[k..]);
    }
    SegmentsAgree(r, t);
    if k: nat :| k <= |t| && RestMatches(X, t, k) {
      RestMovesBack(r, t, k);
    }
  }

  lemma DoubleStarOfNothing(r: seq<string>)
    ensures SegmentsMatch(["**"] + r, []) <==> SegmentsMatch(r, [])
  {
    var ts: seq<string> := [];
    assert (["**"] + r)[1..] == r && ts[0..] == ts;
  }

  lemma NoMatchOfNothing(ps: seq<string>, i: nat)
    requires i < |ps| && ps[i] != "**"
    ensures !SegmentsMatch(ps, [])
  {
    if ps[0] == "**" {
      assert ps == ["**"] + ps[1..] && ps[1..][i - 1] == ps[i];
      DoubleStarOfNothing(ps[1..]);
      NoMatchOfNothing(ps[1..], i - 1);
    }
  }

  /** A bare `**` of a routable glob that also has another segment is followed by one. */
  lemma {:induction false} RunEnds(ps: seq<string>, i: nat) returns (j: nat)
    requires Routable(ps) && i < |ps| && Bare(ps, i) && exists p | p in ps :: p != "**"
    ensures i < j < |ps| && ps[j] != "**"
    decreases |ps| - i
  {
    if ps[i + 1] != "**" {
      j := i + 1;
    } else {
      j := RunEnds(ps, i + 1);
    }
  }

  lemma {:induction false} AgreesFrom(ps: seq<string>, i: nat, t: string)
    requires Clean(ps) && Routable(ps) && (forall p | p in ps :: '/' !in p)
    requires i < |ps| && (ps[i] == "**" ==> Bare(ps, i)) && NewlineFree(t)
    ensures Agrees(ps[i..], t)
    decreases |ps| - i, 1
  {
    var p, r := ps[i], ps[i + 1..];
    assert p in ps && ps[i..] == [p] + r;
    if r == [] {
      assert ps[i..] == [p];
      if p == "**" {
        AgreesBareLast(t);
      } else {
        AgreesSegmentLast(p, t);
      }
    } else if r[0] == "**" && p != "**" {
      if |r| == 1 {
        assert ps[i..] == [p, "**"];
        AgreesSegmentSubtree(p, t);
      } else {
        AgreesDirsFrom(ps, i, t);
      }
    } else {
      forall u | NewlineFree(u)
        ensures Agrees(r, u)
      {
        AgreesFrom(ps, i + 1, u);
      }
      if p != "**" {
        AgreesSegmentNext(p, r, t);
      } else if r[0] == "**" {
        AgreesBareBare(r, t);
      } else {
        AgreesBareStar(r, t);
      }
    }
  }

  lemma {:induction false} AgreesDirsFrom(ps: seq<string>, i: nat, t: string)
    requires Clean(ps) && Routable(ps) && (forall p | p in ps :: '/' !in p)
    requires i + 2 < |ps| && ps[i] != "**" && ps[i + 1] == "**" && NewlineFree(t)
    ensures Agrees(ps[i..], t)
    decreases |ps| - i, 0
  {
    var r := ps[i + 2..];
    forall u | NewlineFree(u)
      ensures Agrees(r, u)
    {
      AgreesFrom(ps, i + 2, u);
    }
    assert ps[i] in ps;
    if r[0] == "**" {
      var j := RunEnds(ps, i + 2);
      assert r[j - i - 2] == ps[j];
      NoMatchOfNothing(r, j - i - 2);
    } else {
      NoMatchOfNothing(r, 0);
    }
    assert ps[i..] == [ps[i], "**"] + r;
    AgreesSegmentDirs(ps[i], r, t);
  }

  // ---- Disagreement on the others --------------------------------------------------

  /** The segments that are not `**`. */
  function Solid(ps: seq<string>): seq<string> {
    if ps == [] then []
    else if ps[0] == "**" then Solid(ps[1..])
    else [ps[0]] + Solid(ps[1..])
  }

  /** The smallest text a segment matches: its literal characters. */
  function Literals(p: string): (s: string)
    ensures forall c | c in s :: c in p
  {
    if p == [] then [] else if p[0] == '*' then Literals(p[1..]) else [p[0]] + Literals(p[1..])
  }

  function Previous(i: int): int {
    if i < 0 then i else i - 1
  }

  /** The smallest segment list `ps` matches, with `x` before the segment after the `**` at `i`, if any. */
  function Smallest(ps: seq<string>, i: int, x: char): (ts: seq<string>)
    ensures |ts| == |Solid(ps)|
  {
    if ps == [] then []
    else if ps[0] == "**" then
      if i == 0 && |ps| > 1 && ps[1] != "**" then [[x] + Literals(ps[1])] + Smallest(ps[2..], -1, x)
      else Smallest(ps[1..], Previous(i), x)
    else [Literals(ps[0])] + Smallest(ps[1..], Previous(i), x)
  }

  function JoinAny(ts: seq<string>): string {
    if ts == [] then "" else Join(ts)
  }

  predicate Pointwise(ps: seq<string>, ts: seq<string>) {
    |ps| == |ts| && forall j | 0 <= j < |ps| :: SegmentMatch(ps[j], ts[j])
  }

  lemma {:induction false} TooFewSegments(ps: seq<string>, ts: seq<string>)
    requires SegmentsMatch(ps, ts)
    ensures |ts| >= |Solid(ps)|
    ensures |ts| == |Solid(ps)| ==> Pointwise(Solid(ps), ts)
    decreases |ps|
  {
    if ps != [] {
      if ps[0] == "**" {
        var k :| 0 <= k <= |ts| && SegmentsMatch(ps[1..], ts[k..]);
        TooFewSegments(ps[1..], ts[k..]);
        assert k == 0 ==> ts[k..] == ts;
      } else {
        TooFewSegments(ps[1..], ts[1..]);
      }
    }
  }

  lemma {:induction false} PointwiseMatches(ps: seq<string>, ts: seq<string>)
    requires Pointwise(Solid(ps), ts)
    ensures SegmentsMatch(ps, ts)
    decreases |ps|
  {
    if ps != [] {
      if ps[0] == "**" {
        PointwiseMatches(ps[1..], ts);
        assert SegmentsMatch(ps[1..], ts[0..]);
      } else {
        var solid := Solid(ps);
        assert solid[1..] == Solid(ps[1..]);
        assert SegmentMatch(solid[0], ts[0]);
        PointwiseMatches(ps[1..], ts[1..]);
      }
    }
  }

  lemma {:induction false} LiteralsMatch(p: string)
    ensures SegmentMatch(p, Literals(p))
  {
    if p != [] {
      LiteralsMatch(p[1..]);
      if p[0] == '*' {
        assert SegmentMatch(p[1..], Literals(p)[0..]);
      }
    }
  }

  lemma {:induction false} SmallestMatches(ps: seq<string>, x: char)
    ensures Pointwise(Solid(ps), Smallest(ps, -1, x))
  {
    if ps != [] {
      SmallestMatches(ps[1..], x);
      LiteralsMatch(ps[0]);
    }
  }

  // A `**` run at the end of a glob with another segment asks for one slash too many.

  function SlashesNeeded(rs: seq<Re>): nat {
    if rs == [] then 0
    else (if rs[0] == Chr('/') || rs[0] == SLASH_OPT_DIRS then 1 else 0) + SlashesNeeded(rs[1..])
  }

  lemma {:induction false} SplitCount(a: string, b: string)
    ensures |Split(a + b)| == |Split(a)| + |Split(b)| - 1
  {
    if a == [] {
      assert a + b == b;
    } else {
      assert (a + b)[1..] == a[1..] + b;
      SplitCount(a[1..], b);
    }
  }

  lemma {:induction false} SlashesFound(rs: seq<Re>, t: string)
    requires FullSeq(rs, t) && NewlineFree(t)
    ensures |Split(t)| >= 1 + SlashesNeeded(rs)
    decreases |rs|
  {
    if rs != [] {
      var k :| 0 <= k <= |t| && Full(rs[0], t[..k]) && FullSeq(rs[1..], t[k..]);
      SlashesFound(rs[1..], t[k..]);
      assert t == t[..k] + t[k..];
      SplitCount(t[..k], t[k..]);
      if rs[0] == SLASH_OPT_DIRS || rs[0] == Chr('/') {
        assert k > 0 && t[..k][0] == '/' by {
          SlashOptDirsFull(t[..k]);
        }
      }
    }
  }

  lemma {:induction false} SlashesAppend(a: seq<Re>, b: seq<Re>)
    ensures SlashesNeeded(a + b) == SlashesNeeded(a) + SlashesNeeded(b)
  {
    if a == [] {
      assert a + b == b;
    } else {
      assert (a + b)[1..] == a[1..] + b;
      SlashesAppend(a[1..], b);
    }
  }

  predicate EndsInRun(ps: seq<string>) {
    && ps != [] && ps[|ps| - 1] == "**"
    && (|ps| > 1 ==> ps[|ps| - 2] == "**")
  }

  lemma {:induction false} RunNeedsSlashes(ps: seq<string>)
    requires EndsInRun(ps)
    ensures SlashesNeeded(FromStart(ps)) >= |Solid(ps)|
    decreases |ps|
  {
    if |ps| == 1 {
      assert Solid(ps) == [];
    } else if ps[0] == "**" {
      RunNeedsSlashes(ps[1..]);
      SlashesAppend([ANY_RUN], FromStart(ps[1..]));
    } else {
      SlashesAppend(SegmentRe(ps[0]), FromSlash(ps[1..]));
      if ps[1] == "**" {
        assert ps[1..][1..] == ps[2..];
        RunNeedsSlashes(ps[2..]);
        SlashesAppend([SLASH_OPT_DIRS], FromStart(ps[2..]));
      } else {
        RunNeedsSlashes(ps[1..]);
        SlashesAppend([Chr('/')], FromStart(ps[1..]));
      }
    }
  }

  lemma EndRunRejects(ps: seq<string>, t: string, x: char)
    requires EndsInRun(ps) && NewlineFree(t)
    requires Split(t) == Smallest(ps, -1, x)
    ensures !FullSeq(FromStart(ps), t) && SegmentsMatch(ps, Split(t))
  {
    SmallestMatches(ps, x);
    PointwiseMatches(ps, Split(t));
    RunNeedsSlashes(ps);
    if FullSeq(FromStart(ps), t) {
      SlashesFound(FromStart(ps), t);
    }
  }

  // A bare `**` in front of a literal swallows a character of the next segment.

  /** A text for the fragments of `FromStart(ps)` in which the `**` at `i` takes `x`. */
  function Fitting(ps: seq<string>, i: int, x: char): string
    requires ps != []
    decreases |ps|, 0
  {
    if ps[0] == "**" then
      (if i == 0 then [x] else []) + (if |ps| == 1 then [] else Fitting(ps[1..], Previous(i), x))
    else Literals(ps[0]) + (if |ps| == 1 then [] else FittingSlash(ps[1..], Previous(i), x))
  }

  function FittingSlash(ps: seq<string>, i: int, x: char): string
    requires ps != []
    decreases |ps|, 1
  {
    if ps[0] == "**" then if |ps| == 1 then [] else "/" + Fitting(ps[1..], Previous(i), x)
    else "/" + Fitting(ps, i, x)
  }

  lemma HeadFits(r: Re, X: seq<Re>, s: string, t: string)
    requires Full(r, s) && FullSeq(X, t)
    ensures FullSeq([r] + X, s + t)
  {
    FullSeqCons(r, X, s + t);
    assert (s + t)[..|s|] == s && (s + t)[|s|..] == t;
  }

  lemma {:induction false} LiteralsFit(p: string, X: seq<Re>, t: string)
    requires FullSeq(X, t)
    ensures FullSeq(SegmentRe(p) + X, Literals(p) + t)
  {
    if p == [] {
      assert SegmentRe(p) + X == X && Literals(p) + t == t;
    } else {
      LiteralsFit(p[1..], X, t);
      var head := if p[0] == '*' then SEGMENT_RUN else Chr(p[0]);
      var s := if p[0] == '*' then [] else [p[0]];
      assert Full(head, s);
      HeadFits(head, SegmentRe(p[1..]) + X, s, Literals(p[1..]) + t);
      Seqs.Assoc([head], SegmentRe(p[1..]), X);
      Seqs.Assoc(s, Literals(p[1..]), t);
      assert s + Literals(p[1..]) == Literals(p);
    }
  }

  lemma {:induction false} FittingFits(ps: seq<string>, i: int, x: char)
    requires ps != [] && x != '\n'
    ensures FullSeq(FromStart(ps), Fitting(ps, i, x))
    decreases |ps|, 0
  {
    if ps[0] == "**" {
      var head := if i == 0 then [x] else [];
      StarDot(head);
      if |ps| > 1 {
        FittingFits(ps[1..], Previous(i), x);
        HeadFits(ANY_RUN, FromStart(ps[1..]), head, Fitting(ps[1..], Previous(i), x));
      } else {
        HeadFits(ANY_RUN, [], head, []);
      }
    } else if |ps| > 1 {
      FittingSlashFits(ps[1..], Previous(i), x);
      LiteralsFit(ps[0], FromSlash(ps[1..]), FittingSlash(ps[1..], Previous(i), x));
    } else {
      LiteralsFit(ps[0], [], []);
    }
  }

  lemma {:induction false} FittingSlashFits(ps: seq<string>, i: int, x: char)
    requires ps != [] && x != '\n'
    ensures FullSeq(FromSlash(ps), FittingSlash(ps, i, x))
    decreases |ps|, 1
  {
    if ps[0] != "**" {
      FittingFits(ps, i, x);
      HeadFits(Chr('/'), FromStart(ps), "/", Fitting(ps, i, x));
    } else if |ps| > 1 {
      FittingFits(ps[1..], Previous(i), x);
      SlashOptDirsFull("/");
      HeadFits(SLASH_OPT_DIRS, FromStart(ps[1..]), "/", Fitting(ps[1..], Previous(i), x));
    } else {
      OptSubtreeThen([]);
    }
  }

  /** `i` is the position of a bare `**` with another segment right after it, or negative for none. */
  predicate Widens(ps: seq<string>, i: int) {
    0 <= i ==> i + 1 < |ps| && Bare(ps, i) && ps[i + 1] != "**"
  }

  lemma {:induction false} SolidEnd(ps: seq<string>)
    requires ps != [] && Solid(ps) == []
    ensures ps[|ps| - 1] == "**" && EndsInRun(ps)
  {
    if |ps| > 1 {
      SolidEnd(ps[1..]);
    }
  }

  lemma JoinMore(t: string, rest: seq<string>)
    requires rest != []
    ensures Join([t] + rest) == t + "/" + Join(rest)
  {
    assert ([t] + rest)[1..] == rest;
  }

  lemma FitsStars(ps: seq<string>, i: int, x: char)
    requires |ps| > 1 && ps[0] == "**" && Widens(ps, i)
    requires Fitting(ps[1..], Previous(i), x) == JoinAny(Smallest(ps[1..], Previous(i), x))
    ensures Fitting(ps, i, x) == JoinAny(Smallest(ps, i, x))
  {
    if i == 0 {
      var rest := Smallest(ps[2..], -1, x);
      assert ps[1..][1..] == ps[2..];
      assert Smallest(ps[1..], -1, x) == [Literals(ps[1])] + rest;
      if rest != [] {
        JoinMore(Literals(ps[1]), rest);
        JoinMore([x] + Literals(ps[1]), rest);
      }
    }
  }

  lemma FittingUnfolds(ps: seq<string>, i: int, x: char, n: nat)
    requires ps != [] && ps[0] != "**" && n == (if |ps| > 1 && ps[1] == "**" then 2 else 1) && n < |ps|
    ensures Fitting(ps, i, x) ==
            Literals(ps[0]) + ("/" + Fitting(ps[n..], if n == 1 then Previous(i) else Previous(Previous(i)), x))
  {
    assert ps[1..][1..] == ps[2..];
  }

  lemma SmallestUnfolds(ps: seq<string>, i: int, x: char, n: nat)
    requires ps != [] && ps[0] != "**" && n == (if |ps| > 1 && ps[1] == "**" then 2 else 1) && n < |ps|
    requires Widens(ps, i)
    ensures Smallest(ps, i, x) ==
            [Literals(ps[0])] + Smallest(ps[n..], if n == 1 then Previous(i) else Previous(Previous(i)), x)
  {
    if n == 2 {
      assert ps[1..][1..] == ps[2..];
      assert i != 1;
    }
  }

  lemma FitsSolid(ps: seq<string>, i: int, x: char, n: nat)
    requires ps != [] && ps[0] != "**" && Widens(ps, i) && !EndsInRun(ps)
    requires n == (if |ps| > 1 && ps[1] == "**" then 2 else 1) && n < |ps|
    requires var m := if n == 1 then Previous(i) else Previous(Previous(i));
             Fitting(ps[n..], m, x) == JoinAny(Smallest(ps[n..], m, x))
    ensures Fitting(ps, i, x) == JoinAny(Smallest(ps, i, x))
  {
    FittingTail(ps, i, n);
    FittingUnfolds(ps, i, x, n);
    SmallestUnfolds(ps, i, x, n);
    var rest := Smallest(ps[n..], if n == 1 then Previous(i) else Previous(Previous(i)), x);
    JoinMore(Literals(ps[0]), rest);
    Seqs.Assoc(Literals(ps[0]), "/", Join(rest));
  }

  lemma {:induction false} FittingIsSmallest(ps: seq<string>, i: int, x: char)
    requires ps != [] && Widens(ps, i) && (EndsInRun(ps) ==> Solid(ps) == [])
    ensures Fitting(ps, i, x) == JoinAny(Smallest(ps, i, x))
    decreases |ps|
  {
    if |ps| > 1 && ps[0] == "**" {
      FittingIsSmallest(ps[1..], Previous(i), x);
      FitsStars(ps, i, x);
    } else if |ps| > 1 {
      var n := if ps[1] == "**" then 2 else 1;
      if n < |ps| {
        FittingTail(ps, i, n);
        FittingIsSmallest(ps[n..], if n == 1 then Previous(i) else Previous(Previous(i)), x);
        FitsSolid(ps, i, x, n);
      }
    }
  }

  /** The hypotheses of `FittingIsSmallest` pass to the rest after a segment and a single `**`. */
  lemma FittingTail(ps: seq<string>, i: int, n: nat)
    requires ps != [] && ps[0] != "**" && Widens(ps, i) && !EndsInRun(ps)
    requires n == (if |ps| > 1 && ps[1] == "**" then 2 else 1) && n < |ps|
    ensures Widens(ps[n..], if n == 1 then Previous(i) else Previous(Previous(i)))
    ensures !EndsInRun(ps[n..]) || (n == 1 && |ps| == 2 && ps[1] == "**")
    ensures Solid(ps[n..]) != []
  {
    if Solid(ps[n..]) == [] {
      SolidEnd(ps[n..]);
    }
  }

  lemma {:induction false} WidenedMisses(ps: seq<string>, i: nat, x: char)
    requires Widens(ps, i) && (ps[i + 1] == [] || ps[i + 1][0] !in {'*', x})
    ensures !Pointwise(Solid(ps), Smallest(ps, i, x))
    decreases |ps|
  {
    var solid, ts := Solid(ps), Smallest(ps, i, x);
    if i == 0 {
      assert ps[1..][1..] == ps[2..];
      assert solid == [ps[1]] + Solid(ps[2..]);
      assert !SegmentMatch(solid[0], ts[0]);
    } else {
      WidenedMisses(ps[1..], i - 1, x);
      if ps[0] != "**" {
        var j :| 0 <= j < |Solid(ps[1..])| && !SegmentMatch(Solid(ps[1..])[j], Smallest(ps[1..], i - 1, x)[j]);
        assert !SegmentMatch(solid[j + 1], ts[j + 1]);
      }
    }
  }

  // ---- The main results ----------------------------------------------------------------

  lemma {:induction false} SplitKeepsChars(s: string)
    ensures forall p, c | p in Split(s) && c in p :: c in s
  {
    if s != [] {
      SplitKeepsChars(s[1..]);
    }
  }

  lemma {:induction false} SmallestChars(ps: seq<string>, i: int, x: char)
    ensures forall t, c | t in Smallest(ps, i, x) && c in t :: c == x || exists p :: p in ps && c in p
  {
    if ps != [] {
      SmallestChars(ps[1..], Previous(i), x);
      if |ps| > 1 {
        SmallestChars(ps[2..], -1, x);
        assert ps[1] in ps;
      }
    }
  }

  lemma {:induction false} JoinChars(ts: seq<string>)
    requires ts != []
    ensures forall c | c in Join(ts) :: c == '/' || exists t :: t in ts && c in t
  {
    if |ts| > 1 {
      JoinChars(ts[1..]);
    }
  }

  /** The text whose segments are the smallest list. */
  lemma SmallestText(g: string, i: int, x: char) returns (t: string)
    requires NewlineFree(g) && x !in {'/', '\n'} && Solid(Split(g)) != []
    ensures t == JoinAny(Smallest(Split(g), i, x)) && NewlineFree(t)
    ensures Split(t) == Smallest(Split(g), i, x)
  {
    var ps := Split(g);
    var ts := Smallest(ps, i, x);
    SplitKeepsChars(g);
    SmallestChars(ps, i, x);
    JoinChars(ts);
    t := Join(ts);
    SplitJoin(ts);
  }

  lemma {:induction false} SolidAt(ps: seq<string>, i: nat)
    requires i < |ps| && ps[i] != "**"
    ensures Solid(ps) != []
  {
    if i > 0 {
      SolidAt(ps[1..], i - 1);
    }
  }

  lemma {:induction false} AllDoubleStars(ps: seq<string>)
    requires Solid(ps) == []
    ensures forall p | p in ps :: p == "**"
  {
    if ps != [] {
      AllDoubleStars(ps[1..]);
      assert forall p | p in ps :: p == ps[0] || p in ps[1..];
    }
  }

  /** An unroutable list that does not end in a stray run has a bare `**` in front of a literal. */
  lemma BadPosition(ps: seq<string>) returns (i: nat)
    requires !Routable(ps) && (EndsInRun(ps) ==> Solid(ps) == [])
    ensures Widens(ps, i) && (ps[i + 1] == [] || ps[i + 1][0] != '*')
  {
    i :| 0 <= i < |ps| && Bare(ps, i) &&
      !(if i + 1 < |ps| then ps[i + 1] != [] && ps[i + 1][0] == '*' else forall p | p in ps :: p == "**");
    if i + 1 == |ps| {
      AllDoubleStars(ps);
    }
  }

  lemma UnroutableDiffers(g: string) returns (t: string)
    requires NewlineFree(g) && Clean(Split(g)) && !Routable(Split(g))
    ensures NewlineFree(t) && (Matches(Compile(g), t) <==> !PathMatch(g, t))
  {
    var ps := Split(g);
    JoinSplit(g);
    CompileFromStart(ps);
    if EndsInRun(ps) && Solid(ps) != [] {
      t := SmallestText(g, -1, 'x');
      EndRunRejects(ps, t, 'x');
    } else {
      var i := BadPosition(ps);
      var x := if ps[i + 1] != [] && ps[i + 1][0] == 'x' then 'y' else 'x';
      FittingIsSmallest(ps, i, x);
      WidenedMisses(ps, i, x);
      SolidAt(ps, i + 1);
      t := SmallestText(g, i, x);
      FittingFits(ps, i, x);
      if PathMatch(g, t) {
        TooFewSegments(ps, Split(t));
      }
    }
  }

  lemma RoutableAgrees(g: string, t: string)
    requires NewlineFree(g) && Clean(Split(g)) && Routable(Split(g)) && NewlineFree(t)
    ensures Matches(Compile(g), t) <==> PathMatch(g, t)
  {
    var ps := Split(g);
    JoinSplit(g);
    CompileFromStart(ps);
    AgreesFrom(ps, 0, t);
    assert ps[0..] == ps;
  }

  /** Compilation preserves the documented meaning on every target exactly when the glob is routable. */
  lemma CompiledMeaningExact(g: string)
    requires NewlineFree(g) && Clean(Split(g))
    ensures (forall t | NewlineFree(t) :: Matches(Compile(g), t) <==> PathMatch(g, t)) <==> Routable(Split(g))
  {
    if Routable(Split(g)) {
      forall t | NewlineFree(t)
        ensures Matches(Compile(g), t) <==> PathMatch(g, t)
      {
        RoutableAgrees(g, t);
      }
    } else {
      var t := UnroutableDiffers(g);
      assert Matches(Compile(g), t) <==> !PathMatch(g, t);
    }
  }

  // Such a glob is "**/b": it also matches a name that merely ends in "b".
  lemma DoubleStarNameWidens()
    ensures !Routable(Split("**/b"))
    ensures Matches(Compile("**/b"), "ab") && !PathMatch("**/b", "ab")
  {
    var ps, ts := ["**", "b"], ["ab"];
    SplitJoin(ps);
    SplitJoin(ts);
    assert Join(["b"]) == "b" && "**" + "/" + "b" == "**/b";
    assert Bare(ps, 0);
    WidensToSuffix();
    NameIsNoSuffix();
  }

  lemma NameIsNoSuffix()
    ensures !SegmentsMatch(["**", "b"], ["ab"])
  {
    var ps, ts := ["**", "b"], ["ab"];
    assert !SegmentMatch("b", "ab");
    assert ps[1..] == ["b"] && ts[0..] == ["ab"] && ts[1..] == [];
    assert !SegmentsMatch(["b"], ["ab"]) && !SegmentsMatch(["b"], []);
  }

  lemma CompileRun(c: char)
    requires c !in {'*', '/'}
    ensures Compile("**/" + [c]) == [ANY_RUN, Chr(c)]
  {
    var g := "**/" + [c];
    assert g[3..] == [c] && [c][1..] == [];
    assert Compile([c]) == [Chr(c)] + Compile([]);
  }

  lemma RunThenChar(s: string, c: char)
    requires NewlineFree(s)
    ensures FullSeq([ANY_RUN, Chr(c)], s + [c])
  {
    var t := s + [c];
    assert t[..|s|] == s && t[|s|..] == [c] && [c][..1] == [c];
    StarDot(s);
    FullSeqCons(Chr(c), [], [c]);
    FullSeqCons(ANY_RUN, [Chr(c)], t);
    assert [ANY_RUN] + [Chr(c)] == [ANY_RUN, Chr(c)] && [Chr(c)] + [] == [Chr(c)];
  }

  lemma WidensToSuffix()
    ensures Matches(Compile("**/b"), "ab")
  {
    CompileRun('b');
    RunThenChar("a", 'b');
    assert "**/" + ['b'] == "**/b" && "a" + ['b'] == "ab";
  }

  // ---- Every glob, read from left to right ----------------------------------------------------------

  // How the target is read along the glob, whatever the glob: a double star between slashes takes what begins and ends
  // with a slash, one behind a slash nothing or what begins with a slash, any other one, with a slash behind it, takes
  // anything, a single star anything without a slash, and any other character itself.
  predicate Reads(g: string, t: string)
    decreases |g|
  {
    if g == [] then t == []
    else if "/**/" <= g then exists k | 0 < k <= |t| :: t[0] == '/' && t[k - 1] == '/' && Reads(g[4..], t[k..])
    else if "/**" <= g then exists k | 0 <= k <= |t| :: (k == 0 || t[0] == '/') && Reads(g[3..], t[k..])
    else if "**/" <= g then exists k | 0 <= k <= |t| :: Reads(g[3..], t[k..])
    else if "**" <= g then exists k | 0 <= k <= |t| :: Reads(g[2..], t[k..])
    else if g[0] == '*' then exists k | 0 <= k <= |t| :: '/' !in t[..k] && Reads(g[1..], t[k..])
    else t != [] && t[0] == g[0] && Reads(g[1..], t[1..])
  }

  /** The regex of the rest of a glob reads every end of the target as the rest does. */
  ghost predicate RestReads(g: string, t: string) {
    forall k: nat | k <= |t| :: RestMatches(Compile(g), t, k) <==> Reads(g, t[k..])
  }

  lemma ReadsSlashDirs(g: string, t: string)
    requires "/**/" <= g && NewlineFree(t) && RestReads(g[4..], t)
    ensures FullSeq([SLASH_OPT_DIRS] + Compile(g[4..]), t) <==> Reads(g, t)
  {
    forall k: nat | k <= |t|
      ensures Full(SLASH_OPT_DIRS, t[..k]) == SlashToSlash(t[..k])
    {
      SlashOptDirsFull(t[..k]);
    }
    HeadThen(SLASH_OPT_DIRS, SlashToSlash, Compile(g[4..]), t);
    assert forall k: nat | k <= |t| :: SlashToSlash(t[..k]) <==> k > 0 && t[0] == '/' && t[k - 1] == '/';
    if k: nat :| k <= |t| && SlashToSlash(t[..k]) && RestMatches(Compile(g[4..]), t, k) {
      assert t[0] == '/' && t[k - 1] == '/' && Reads(g[4..], t[k..]);
    }
    if k: nat :| 0 < k <= |t| && t[0] == '/' && t[k - 1] == '/' && Reads(g[4..], t[k..]) {
      assert SlashToSlash(t[..k]) && RestMatches(Compile(g[4..]), t, k);
    }
  }

  predicate NothingOrSlash(s: string) {
    s == [] || s[0] == '/'
  }

  lemma OptSubtreeFull(s: string)
    requires NewlineFree(s)
    ensures Full(OPT_SUBTREE, s) == NothingOrSlash(s)
  {
    ChrThen(Star(Dot), s);
    if s != [] {
      StarDot(s[1..]);
    }
  }

  lemma ReadsSubtree(g: string, t: string)
    requires "/**" <= g && !("/**/" <= g) && NewlineFree(t) && RestReads(g[3..], t)
    ensures FullSeq([OPT_SUBTREE] + Compile(g[3..]), t) <==> Reads(g, t)
  {
    forall k: nat | k <= |t|
      ensures Full(OPT_SUBTREE, t[..k]) == NothingOrSlash(t[..k])
    {
      OptSubtreeFull(t[..k]);
    }
    HeadThen(OPT_SUBTREE, NothingOrSlash, Compile(g[3..]), t);
    if k: nat :| k <= |t| && NothingOrSlash(t[..k]) && RestMatches(Compile(g[3..]), t, k) {
      assert (k == 0 || t[0] == '/') && Reads(g[3..], t[k..]);
    }
    if k: nat :| k <= |t| && (k == 0 || t[0] == '/') && Reads(g[3..], t[k..]) {
      assert NothingOrSlash(t[..k]) && RestMatches(Compile(g[3..]), t, k);
    }
  }

  predicate ReadsLater(rest: string, t: string) {
    exists k | 0 <= k <= |t| :: Reads(rest, t[k..])
  }

  lemma AnyOpens(g: string, t: string)
    requires "**" <= g
    ensures Reads(g, t) <==> ReadsLater(if "**/" <= g then g[3..] else g[2..], t)
  {
    assert g[0] == '*' && "/**/"[0] == '/' && "/**"[0] == '/';
  }

  lemma AnyRunReads(rest: string, t: string)
    requires NewlineFree(t) && RestReads(rest, t)
    ensures FullSeq([ANY_RUN] + Compile(rest), t) <==> ReadsLater(rest, t)
  {
    AnyRunThen(Compile(rest), t);
    if k: nat :| k <= |t| && RestMatches(Compile(rest), t, k) {
      assert Reads(rest, t[k..]);
    }
    if k: nat :| k <= |t| && Reads(rest, t[k..]) {
      assert RestMatches(Compile(rest), t, k);
    }
  }

  lemma ReadsAny(g: string, rest: string, t: string)
    requires "**" <= g && rest == (if "**/" <= g then g[3..] else g[2..]) && NewlineFree(t) && RestReads(rest, t)
    ensures FullSeq([ANY_RUN] + Compile(rest), t) <==> Reads(g, t)
  {
    AnyOpens(g, t);
    AnyRunReads(rest, t);
  }

  predicate SlashFree(s: string) {
    '/' !in s
  }

  lemma ReadsRun(g: string, t: string)
    requires g != [] && g[0] == '*' && !("**" <= g) && RestReads(g[1..], t)
    ensures FullSeq([SEGMENT_RUN] + Compile(g[1..]), t) <==> Reads(g, t)
  {
    forall k: nat | k <= |t|
      ensures Full(SEGMENT_RUN, t[..k]) == SlashFree(t[..k])
    {
      StarNotSlash(t[..k]);
    }
    HeadThen(SEGMENT_RUN, SlashFree, Compile(g[1..]), t);
    if k: nat :| k <= |t| && SlashFree(t[..k]) && RestMatches(Compile(g[1..]), t, k) {
      assert '/' !in t[..k] && Reads(g[1..], t[k..]);
    }
    if k: nat :| k <= |t| && '/' !in t[..k] && Reads(g[1..], t[k..]) {
      assert SlashFree(t[..k]) && RestMatches(Compile(g[1..]), t, k);
    }
  }

  lemma ReadsChar(g: string, t: string)
    requires g != [] && g[0] != '*' && !("/**" <= g) && RestReads(g[1..], t)
    ensures FullSeq([Chr(g[0])] + Compile(g[1..]), t) <==> Reads(g, t)
  {
    FullSeqCons(Chr(g[0]), Compile(g[1..]), t);
    if k: nat :| k <= |t| && Full(Chr(g[0]), t[..k]) && FullSeq(Compile(g[1..]), t[k..]) {
      assert k == 1 && t[0] == t[..k][0] && RestMatches(Compile(g[1..]), t, 1);
    }
    if t != [] && t[0] == g[0] && Reads(g[1..], t[1..]) {
      assert t[..1] == [g[0]] && RestMatches(Compile(g[1..]), t, 1);
    }
  }

  lemma {:induction false} FullReads(g: string, t: string)
    requires NewlineFree(t)
    ensures FullSeq(Compile(g), t) <==> Reads(g, t)
    decreases |g|
  {
    if g != [] {
      var turn := TurnAt(g, 0);
      TurnCompiles(g, 0);
      var rest := g[turn.1..];
      assert g[0..] == g;
      forall k: nat | k <= |t|
        ensures RestMatches(Compile(rest), t, k) <==> Reads(rest, t[k..])
      {
        FullReads(rest, t[k..]);
      }
      TurnReads(g, t);
    }
  }

  lemma TurnReads(g: string, t: string)
    requires g != [] && NewlineFree(t) && RestReads(g[TurnAt(g, 0).1..], t)
    ensures FullSeq([TurnAt(g, 0).0] + Compile(g[TurnAt(g, 0).1..]), t) <==> Reads(g, t)
  {
    TurnOpens(g);
    if "/**/" <= g {
      ReadsSlashDirs(g, t);
    } else if "/**" <= g {
      ReadsSubtree(g, t);
    } else if "**" <= g {
      ReadsAny(g, g[TurnAt(g, 0).1..], t);
    } else if g[0] == '*' {
      ReadsRun(g, t);
    } else {
      ReadsChar(g, t);
    }
  }

  lemma TurnOpens(g: string)
    requires g != []
    ensures TurnAt(g, 0) == if "/**/" <= g then (SLASH_OPT_DIRS, 4)
                            else if "/**" <= g then (OPT_SUBTREE, 3)
                            else if "**/" <= g then (ANY_RUN, 3)
                            else if "**" <= g then (ANY_RUN, 2)
                            else if g[0] == '*' then (SEGMENT_RUN, 1)
                            else (Chr(g[0]), 1)
  {
    if |g| >= 3 {
      assert g[1..3] == [g[1], g[2]];
    }
  }

  /** Whatever the glob, its regex matches a target exactly when the glob reads it from left to right. */
  lemma CompiledReadsExact(g: string, t: string)
    requires NewlineFree(t)
    ensures Matches(Compile(g), t) <==> Reads(g, t)
  {
    FullReads(g, t);
    if t != [] {
      assert t[|t| - 1] in t;
    }
  }
}
