/** Name redaction (scrub.py): what is left of a forbidden name after every pattern has been replaced. */
module Scrub {
  import Seqs

  /** The character tables behind `re.IGNORECASE` and `\w`; nothing is assumed about either. */
  datatype Charset = Charset(fold: char -> char, word: char -> bool)

  /** `_compile`: short aliases match exactly and on word boundaries, longer names anywhere and in any case. */
  datatype Pattern = Word(name: string) | Anywhere(name: string)

  function Compile(name: string): Pattern {
    if |name| <= 3 then Word(name) else Anywhere(name)
  }

  /** `a` occurs in `text` at `i`, letter case aside. */
  predicate OccursAt(cs: Charset, a: string, text: string, i: nat) {
    i + |a| <= |text| && forall j | 0 <= j < |a| :: Same(cs, text[i + j], a[j])
  }

  predicate Same(cs: Charset, c: char, d: char) {
    cs.fold(c) == cs.fold(d)
  }

  /** `\b` between `text[i - 1]` and `text[i]`. */
  predicate Boundary(cs: Charset, text: string, i: nat)
    requires i <= |text|
  {
    (i > 0 && cs.word(text[i - 1])) != (i < |text| && cs.word(text[i]))
  }

  predicate MatchAt(cs: Charset, pat: Pattern, text: string, i: nat) {
    match pat
    case Word(name) =>
      i + |name| <= |text| && text[i..i + |name|] == name && Boundary(cs, text, i) && Boundary(cs, text, i + |name|)
    case Anywhere(name) => OccursAt(cs, name, text, i)
  }

  predicate Search(cs: Charset, pat: Pattern, text: string) {
    exists i | 0 <= i <= |text| :: MatchAt(cs, pat, text, i)
  }

  /** `pat.sub(placeholder, text)` from position `i` on: leftmost matches, never overlapping. */
  function Sub(cs: Charset, pat: Pattern, placeholder: string, text: string, i: nat): string
    requires pat.name != [] && i <= |text|
    decreases |text| - i
  {
    if i == |text| then []
    else if MatchAt(cs, pat, text, i) then placeholder + Sub(cs, pat, placeholder, text, i + |pat.name|)
    else [text[i]] + Sub(cs, pat, placeholder, text, i + 1)
  }

  // ---- What is replaced and what is kept -------------------------------------------------------

  /** The text from `i` on with the `n` characters at each of the positions `cuts` taken out and `p` put in. */
  function Rebuilt(text: string, i: nat, cuts: seq<nat>, n: nat, p: string): string
    requires i <= |text|
    decreases |cuts|
  {
    if cuts == [] || !(i <= cuts[0] <= cuts[0] + n <= |text|) then text[i..]
    else text[i..cuts[0]] + p + Rebuilt(text, cuts[0] + n, cuts[1..], n, p)
  }

  predicate Covered(cuts: seq<nat>, n: nat, j: nat) {
    exists k | 0 <= k < |cuts| :: cuts[k] <= j < cuts[k] + n
  }

  /** Of the positions from `i` up to `len` at which there is a match of length `n`: the leftmost ones that do not
      overlap. Every other match starts inside one of them. */
  predicate Leftmost(hit: nat -> bool, n: nat, len: nat, i: nat, cuts: seq<nat>) {
    && (forall k | 0 <= k < |cuts| :: i <= cuts[k] && cuts[k] + n <= len && hit(cuts[k]))
    && (forall k, l | 0 <= k < l < |cuts| :: cuts[k] + n <= cuts[l])
    && forall j: nat | i <= j < len && hit(j) :: Covered(cuts, n, j)
  }

  ghost predicate ReplacedWhere(hit: nat -> bool, n: nat, p: string, text: string, i: nat, out: string)
    requires i <= |text|
  {
    exists cuts :: Leftmost(hit, n, |text|, i, cuts) && out == Rebuilt(text, i, cuts, n, p)
  }

  /** `out` is `text` from `i` on, each leftmost match replaced by `p` and every other character in its place. */
  ghost predicate Replaced(cs: Charset, pat: Pattern, p: string, text: string, i: nat, out: string)
    requires i <= |text|
  {
    ReplacedWhere(Hits(cs, pat, text), |pat.name|, p, text, i, out)
  }

  function Hits(cs: Charset, pat: Pattern, text: string): nat -> bool {
    (j: nat) => MatchAt(cs, pat, text, j)
  }

  lemma RebuiltCopies(text: string, i: nat, cuts: seq<nat>, n: nat, p: string)
    requires i < |text| && (cuts != [] ==> i < cuts[0] && cuts[0] + n <= |text|)
    ensures Rebuilt(text, i, cuts, n, p) == [text[i]] + Rebuilt(text, i + 1, cuts, n, p)
  {
    if cuts == [] {
      assert text[i..] == [text[i]] + text[i + 1..];
    } else {
      assert text[i..cuts[0]] == [text[i]] + text[i + 1..cuts[0]];
      var rest := Rebuilt(text, cuts[0] + n, cuts[1..], n, p);
      Seqs.Assoc([text[i]], text[i + 1..cuts[0]] + p, rest);
      Seqs.Assoc([text[i]], text[i + 1..cuts[0]], p);
    }
  }

  lemma RebuiltReplaces(text: string, i: nat, cuts: seq<nat>, n: nat, p: string)
    requires i + n <= |text|
    ensures Rebuilt(text, i, [i] + cuts, n, p) == p + Rebuilt(text, i + n, cuts, n, p)
  {
    assert ([i] + cuts)[1..] == cuts;
    assert text[i..i] + p == p;
  }

  lemma CoveredMore(cuts: seq<nat>, i: nat, n: nat, j: nat)
    ensures Covered([i] + cuts, n, j) <==> (i <= j < i + n) || Covered(cuts, n, j)
  {
    if i <= j < i + n {
      assert ([i] + cuts)[0] == i;
    }
    if k :| 0 <= k < |cuts| && cuts[k] <= j < cuts[k] + n {
      assert ([i] + cuts)[k + 1] == cuts[k];
    }
  }

  lemma OneMoreMatch(hit: nat -> bool, n: nat, len: nat, i: nat, cuts: seq<nat>, all: seq<nat>)
    requires n > 0 && hit(i) && i + n <= len && Leftmost(hit, n, len, i + n, cuts) && all == [i] + cuts
    ensures Leftmost(hit, n, len, i, all)
  {
    assert all[0] == i && forall k | 0 < k < |all| :: all[k] == cuts[k - 1];
    forall j: nat | i <= j < len && hit(j)
      ensures Covered(all, n, j)
    {
      CoveredMore(cuts, i, n, j);
    }
  }

  lemma ReplacedHit(hit: nat -> bool, n: nat, p: string, text: string, i: nat, rest: string)
    requires n > 0 && hit(i) && i + n <= |text| && ReplacedWhere(hit, n, p, text, i + n, rest)
    ensures ReplacedWhere(hit, n, p, text, i, p + rest)
  {
    var cuts: seq<nat> :| Leftmost(hit, n, |text|, i + n, cuts) && rest == Rebuilt(text, i + n, cuts, n, p);
    OneMoreMatch(hit, n, |text|, i, cuts, [i] + cuts);
    RebuiltReplaces(text, i, cuts, n, p);
  }

  lemma ReplacedMiss(hit: nat -> bool, n: nat, p: string, text: string, i: nat, rest: string)
    requires i < |text| && !hit(i) && ReplacedWhere(hit, n, p, text, i + 1, rest)
    ensures ReplacedWhere(hit, n, p, text, i, [text[i]] + rest)
  {
    var cuts: seq<nat> :| Leftmost(hit, n, |text|, i + 1, cuts) && rest == Rebuilt(text, i + 1, cuts, n, p);
    NoMatchHere(hit, n, |text|, i, cuts);
    RebuiltCopies(text, i, cuts, n, p);
  }

  lemma ReplacedEnd(hit: nat -> bool, n: nat, p: string, text: string)
    ensures ReplacedWhere(hit, n, p, text, |text|, [])
  {
    assert Leftmost(hit, n, |text|, |text|, []);
    assert Rebuilt(text, |text|, [], n, p) == [];
  }

  lemma NoMatchHere(hit: nat -> bool, n: nat, len: nat, i: nat, cuts: seq<nat>)
    requires !hit(i) && Leftmost(hit, n, len, i + 1, cuts)
    ensures Leftmost(hit, n, len, i, cuts)
  {
  }

  /** A replacement takes out the leftmost matches that do not overlap, and keeps every other character in place. */
  lemma {:induction false} SubExact(cs: Charset, pat: Pattern, p: string, text: string, i: nat)
    requires pat.name != [] && i <= |text|
    ensures Replaced(cs, pat, p, text, i, Sub(cs, pat, p, text, i))
    decreases |text| - i
  {
    var n, hit := |pat.name|, Hits(cs, pat, text);
    if i == |text| {
      ReplacedEnd(hit, n, p, text);
    } else {
      assert hit(i) == MatchAt(cs, pat, text, i);
      SubStep(cs, pat, p, text, i);
      if hit(i) {
        SubExact(cs, pat, p, text, i + n);
        ReplacedHit(hit, n, p, text, i, Sub(cs, pat, p, text, i + n));
      } else {
        SubExact(cs, pat, p, text, i + 1);
        ReplacedMiss(hit, n, p, text, i, Sub(cs, pat, p, text, i + 1));
      }
    }
  }

  /** A vocabulary as the loader leaves it: no empty name. */
  predicate Vocabulary(names: seq<string>) {
    forall i | 0 <= i < |names| :: names[i] != []
  }

  lemma SubStep(cs: Charset, pat: Pattern, p: string, text: string, i: nat)
    requires pat.name != [] && i < |text|
    ensures var hit := MatchAt(cs, pat, text, i);
            && (hit ==> i + |pat.name| <= |text|)
            && Sub(cs, pat, p, text, i) == (if hit then p else [text[i]])
                                           + Sub(cs, pat, p, text, if hit then i + |pat.name| else i + 1)
  {
  }

  function Redacted(cs: Charset, names: seq<string>, placeholder: string, text: string): string
    requires Vocabulary(names)
  {
    if names == [] then text
    else
      Sub(cs, Compile(names[|names| - 1]), placeholder, Redacted(cs, names[..|names| - 1], placeholder, text), 0)
  }

  /** One text after each name, in order: names of at most three characters go as whole words and exactly, longer ones
      wherever they occur. */
  ghost predicate RedactsTo(cs: Charset, names: seq<string>, placeholder: string, text: string, states: seq<string>) {
    && |states| == |names| + 1 && states[0] == text
    && forall k: nat | k < |names| :: Replaces(cs, names[k], placeholder, states, k)
  }

  ghost predicate Replaces(cs: Charset, name: string, placeholder: string, states: seq<string>, k: nat) {
    && k + 1 < |states|
    && Replaced(cs, if |name| <= 3 then Word(name) else Anywhere(name), placeholder, states[k], 0, states[k + 1])
  }

  lemma {:induction false} RedactedIsRun(cs: Charset, names: seq<string>, placeholder: string, text: string)
    requires Vocabulary(names)
    ensures exists states :: RedactsTo(cs, names, placeholder, text, states)
                             && Redacted(cs, names, placeholder, text) == states[|names|]
  {
    if names == [] {
      assert RedactsTo(cs, names, placeholder, text, [text]);
    } else {
      var n := |names| - 1;
      var init := names[..n];
      RedactedIsRun(cs, init, placeholder, text);
      var states :| RedactsTo(cs, init, placeholder, text, states)
                    && Redacted(cs, init, placeholder, text) == states[n];
      SubExact(cs, Compile(names[n]), placeholder, states[n], 0);
      RunGrows(cs, names, placeholder, text, states, Redacted(cs, names, placeholder, text));
    }
  }

  lemma RunGrows(cs: Charset, names: seq<string>, placeholder: string, text: string, states: seq<string>, last: string)
    requires names != [] && RedactsTo(cs, names[..|names| - 1], placeholder, text, states)
    requires Replaced(cs, Compile(names[|names| - 1]), placeholder, states[|names| - 1], 0, last)
    ensures RedactsTo(cs, names, placeholder, text, states + [last])
  {
    var n := |names| - 1;
    var all := states + [last];
    forall k: nat | k < n
      ensures Replaces(cs, names[k], placeholder, all, k)
    {
      assert Replaces(cs, names[..n][k], placeholder, states, k);
      assert all[k] == states[k] && all[k + 1] == states[k + 1] && names[..n][k] == names[k];
    }
    assert Replaces(cs, names[n], placeholder, all, n);
  }

  /** `redact`: every pattern in turn over the text so far. */
  method Redact(cs: Charset, names: seq<string>, text: string, placeholder: string) returns (out: string)
    requires Vocabulary(names)
    ensures out == Redacted(cs, names, placeholder, text)
    ensures exists states :: RedactsTo(cs, names, placeholder, text, states) && out == states[|names|]
  {
    RedactedIsRun(cs, names, placeholder, text);
    out := text;
    for i := 0 to |names|
      invariant out == Redacted(cs, names[..i], placeholder, text)
    {
      assert names[..i + 1][..i] == names[..i];
      out := Sub(cs, Compile(names[i]), placeholder, out, 0);
    }
    assert names[..|names|] == names;
  }

  /** `matches`: the names found, each once, in vocabulary order. */
  method Matches(cs: Charset, names: seq<string>, text: string) returns (hits: seq<string>)
    ensures forall name :: name in hits <==> name in names && text != [] && Search(cs, Compile(name), text)
    ensures forall i, j | 0 <= i < j < |hits| :: hits[i] != hits[j]
  {
    hits := [];
    if text == [] {
      return;
    }
    for i := 0 to |names|
      invariant forall name :: name in hits <==> name in names[..i] && Search(cs, Compile(name), text)
      invariant forall j, k | 0 <= j < k < |hits| :: hits[j] != hits[k]
    {
      assert names[..i + 1] == names[..i] + [names[i]];
      if Search(cs, Compile(names[i]), text) && names[i] !in hits {
        hits := hits + [names[i]];
      }
    }
    assert names[..|names|] == names;
  }

  // ---- How a name can meet the placeholder -----------------------------------------------

  /** With `m` laid `d` places to the right of the placeholder's start, they agree wherever both have a letter. */
  predicate AgreeAt(cs: Charset, m: string, placeholder: string, d: int) {
    forall j | 0 <= j < |m| && 0 <= j + d < |placeholder| :: Same(cs, placeholder[j + d], m[j])
  }

  /** No containment either way and no shared prefix or suffix. */
  predicate Apart(cs: Charset, m: string, placeholder: string) {
    forall d | -|m| < d < |placeholder| :: !AgreeAt(cs, m, placeholder, d)
  }

  /** In `m[..k] + m` the first place where `m` occurs is `k`. */
  predicate FirstAt(cs: Charset, m: string, k: nat)
    requires k <= |m|
  {
    forall s | 0 <= s < k :: !OccursAt(cs, m, m[..k] + m, s)
  }

  /** Replacing `pat` cannot complete an occurrence of `m` with letters of the placeholder. */
  predicate Harmless(cs: Charset, pat: Pattern, m: string, placeholder: string) {
    forall d | -|m| < d < |placeholder| && AgreeAt(cs, m, placeholder, d) ::
      d < 0 && pat == Anywhere(m) && !FirstAt(cs, m, -d)
  }

  // ---- Tracing an occurrence back to the text before the replacement -----------------------

  /** The stretch `text[k..k + n]` was copied to `out[q..q + n]`, and what surrounds it is the same or placeholder. */
  predicate CopiedAt(text: string, out: string, placeholder: string, k: nat, q: nat, n: nat) {
    && k + n <= |text| && q + n <= |out| && text[k..k + n] == out[q..q + n]
    && RightEdge(text, out, placeholder, k + n, q + n)
  }

  predicate RightEdge(text: string, out: string, placeholder: string, k: nat, q: nat) {
    && k <= |text| && q <= |out|
    && (q == |out| ==> k == |text|)
    && (q < |out| ==> (k < |text| && text[k] == out[q]) || (placeholder != [] && out[q] == placeholder[0]))
  }

  predicate LeftEdge(text: string, out: string, placeholder: string, k: nat, q: nat) {
    && k <= |text| && q <= |out|
    && (q > 0 ==> (k > 0 && text[k - 1] == out[q - 1]) ||
                  (placeholder != [] && out[q - 1] == placeholder[|placeholder| - 1]))
  }

  lemma SameLetters(cs: Charset, a: string, s: string, t: string, i: nat, k: nat)
    requires i + |a| <= |s| && k + |a| <= |t| && s[i..i + |a|] == t[k..k + |a|]
    ensures OccursAt(cs, a, s, i) <==> OccursAt(cs, a, t, k)
  {
    var u, v := s[i..i + |a|], t[k..k + |a|];
    assert forall j {:trigger a[j]} | 0 <= j < |a| :: u[j] == s[i + j] && v[j] == t[k + j];
  }

  /** Where `m[..j]` is followed by `m`, the text reads as `m[..j] + m`. */
  lemma HeadReads(cs: Charset, m: string, text: string, i: nat, j: nat, k: nat)
    requires j <= i && j <= |m| && OccursAt(cs, m, text, i) && OccursAt(cs, m[..j], text, i - j) && k < j + |m|
    ensures i - j + k < |text| && Same(cs, text[i - j + k], (m[..j] + m)[k])
  {
    if k < j {
      assert Same(cs, text[i - j + k], m[..j][k]);
    } else {
      assert Same(cs, text[i + (k - j)], m[k - j]);
    }
  }

  /** A replaced occurrence of `m` right behind `m[..j]` leaves an earlier match, unless that is where the first
      one is. */
  lemma EarlierMatch(cs: Charset, m: string, text: string, i: nat, j: nat)
    requires 0 < j <= i && j <= |m| && OccursAt(cs, m, text, i)
    requires OccursAt(cs, m[..j], text, i - j) && !FirstAt(cs, m, j)
    ensures exists s :: i - j <= s < i && OccursAt(cs, m, text, s)
  {
    var s :| 0 <= s < j && OccursAt(cs, m, m[..j] + m, s);
    forall k: nat | k < |m|
      ensures Same(cs, text[i - j + s + k], m[k])
    {
      assert Same(cs, (m[..j] + m)[s + k], m[k]);
      HeadReads(cs, m, text, i, j, s + k);
    }
    assert OccursAt(cs, m, text, i - j + s);
  }

  lemma OccursShift(cs: Charset, m: string, a: string, b: string, q: nat)
    ensures OccursAt(cs, m, a + b, |a| + q) <==> OccursAt(cs, m, b, q)
  {
    if q + |m| <= |b| {
      assert (a + b)[|a| + q..|a| + q + |m|] == b[q..q + |m|];
      SameLetters(cs, m, a + b, b, |a| + q, q);
    }
  }

  lemma CopiedShift(text: string, a: string, rest: string, p: string, k: nat, q: nat, n: nat)
    requires CopiedAt(text, rest, p, k, q, n)
    ensures CopiedAt(text, a + rest, p, k, |a| + q, n)
  {
    assert (a + rest)[|a| + q..|a| + q + n] == rest[q..q + n];
  }

  /** A rest of a harmless name is never made out of a placeholder. */
  lemma NotFromPlaceholder(cs: Charset, pat: Pattern, p: string, text: string, i: nat, m: string, j: nat, rest: string)
    requires p != [] && j <= i <= |text| && j < |m|
    requires Harmless(cs, pat, m, p) && MatchAt(cs, pat, text, i)
    requires OccursAt(cs, m[..j], text, i - j)
    requires forall s | i - j <= s < i :: !MatchAt(cs, pat, text, s)
    ensures !OccursAt(cs, m[j..], p + rest, 0)
  {
    var d: int := 0 - j;
    if OccursAt(cs, m[j..], p + rest, 0) {
      forall t | 0 <= t < |m| && 0 <= t + d < |p|
        ensures Same(cs, p[t + d], m[t])
      {
        assert Same(cs, (p + rest)[0 + (t - j)], m[j..][t - j]);
      }
      assert AgreeAt(cs, m, p, d);
      EarlierMatch(cs, m, text, i, j);
      AnywhereIsOccurs(cs, m, text, i - j, i);
    }
  }

  lemma AnywhereIsOccurs(cs: Charset, m: string, text: string, from: nat, to: nat)
    requires exists s :: from <= s < to && OccursAt(cs, m, text, s)
    ensures exists s :: from <= s < to && MatchAt(cs, Anywhere(m), text, s)
  {
    var s :| from <= s < to && OccursAt(cs, m, text, s);
    assert MatchAt(cs, Anywhere(m), text, s);
  }

  lemma PrefixExtends(cs: Charset, m: string, text: string, i: nat, j: nat)
    requires j <= i < |text| && j < |m| && OccursAt(cs, m[..j], text, i - j) && Same(cs, text[i], m[j])
    ensures OccursAt(cs, m[..j + 1], text, i - j)
  {
    assert forall t | 0 <= t < j :: m[..j][t] == m[..j + 1][t];
  }

  lemma TailOccurs(cs: Charset, m: string, j: nat, c: char, rest: string)
    requires j < |m| && OccursAt(cs, m[j..], [c] + rest, 0)
    ensures Same(cs, c, m[j]) && OccursAt(cs, m[j + 1..], rest, 0)
  {
    assert Same(cs, ([c] + rest)[0 + 0], m[j..][0]);
    var tail := m[j + 1..];
    forall t | 0 <= t < |tail|
      ensures Same(cs, rest[0 + t], tail[t])
    {
      assert Same(cs, ([c] + rest)[0 + (t + 1)], m[j..][t + 1]);
    }
  }

  lemma CopiedCons(text: string, rest: string, p: string, i: nat, n: nat)
    requires i < |text| && CopiedAt(text, rest, p, i + 1, 0, n)
    ensures CopiedAt(text, [text[i]] + rest, p, i, 0, n + 1)
  {
    assert text[i..i + n + 1] == [text[i]] + text[i + 1..i + 1 + n];
    assert ([text[i]] + rest)[0..n + 1] == [text[i]] + rest[0..n];
  }

  /** The rest `m[j..]` of a name at the front of the output was copied from the text. */
  lemma {:induction false} TracePrefix(cs: Charset, pat: Pattern, p: string, text: string, i: nat, m: string, j: nat)
    requires pat.name != [] && p != [] && j <= i <= |text| && j <= |m|
    requires Harmless(cs, pat, m, p)
    requires OccursAt(cs, m[..j], text, i - j)
    requires forall s | i - j <= s < i :: !MatchAt(cs, pat, text, s)
    requires OccursAt(cs, m[j..], Sub(cs, pat, p, text, i), 0)
    ensures CopiedAt(text, Sub(cs, pat, p, text, i), p, i, 0, |m| - j)
    ensures j < |m| ==> i < |text| && !MatchAt(cs, pat, text, i)
    decreases |m| - j
  {
    if j < |m| {
      if MatchAt(cs, pat, text, i) {
        NotFromPlaceholder(cs, pat, p, text, i, m, j, Sub(cs, pat, p, text, i + |pat.name|));
      }
      var rest := Sub(cs, pat, p, text, i + 1);
      SubStep(cs, pat, p, text, i);
      TailOccurs(cs, m, j, text[i], rest);
      PrefixExtends(cs, m, text, i, j);
      TracePrefix(cs, pat, p, text, i + 1, m, j + 1);
      CopiedCons(text, rest, p, i, |m| - j - 1);
    }
  }

  /** The occurrence of `m` at `q` in the output was copied from `k`, where the pattern did not match. */
  predicate Traced(cs: Charset, pat: Pattern, p: string, text: string, out: string, m: string, k: nat, q: nat) {
    && k < |text| && !MatchAt(cs, pat, text, k)
    && CopiedAt(text, out, p, k, q, |m|)
    && LeftEdge(text, out, p, k, q)
  }

  lemma TraceStart(cs: Charset, pat: Pattern, p: string, text: string, i: nat, m: string)
    requires pat.name != [] && p != [] && i <= |text| && m != []
    requires Harmless(cs, pat, m, p) && OccursAt(cs, m, Sub(cs, pat, p, text, i), 0)
    ensures Traced(cs, pat, p, text, Sub(cs, pat, p, text, i), m, i, 0)
  {
    assert m[0..] == m;
    TracePrefix(cs, pat, p, text, i, m, 0);
  }

  /** Every occurrence of a harmless name in the output was copied. */
  lemma {:induction false} TraceBack(cs: Charset, pat: Pattern, p: string, text: string, i: nat, m: string,
                                     q: nat, out: string)
    returns (k: nat)
    requires pat.name != [] && p != [] && i <= |text| && m != [] && out == Sub(cs, pat, p, text, i)
    requires Harmless(cs, pat, m, p) && OccursAt(cs, m, out, q)
    ensures Traced(cs, pat, p, text, out, m, k, q) && i <= k && (q == 0 ==> k == i)
    decreases |text| - i, 1
  {
    if q == 0 {
      k := i;
      TraceStart(cs, pat, p, text, i, m);
    } else {
      k := TraceStep(cs, pat, p, text, i, m, q, out);
    }
  }

  lemma {:induction false} TraceStep(cs: Charset, pat: Pattern, p: string, text: string, i: nat, m: string,
                                     q: nat, out: string)
    returns (k: nat)
    requires pat.name != [] && p != [] && i < |text| && m != [] && q > 0 && out == Sub(cs, pat, p, text, i)
    requires Harmless(cs, pat, m, p) && OccursAt(cs, m, out, q)
    ensures Traced(cs, pat, p, text, out, m, k, q) && i < k
    decreases |text| - i, 0
  {
    var hit := MatchAt(cs, pat, text, i);
    var a, next := if hit then p else [text[i]], if hit then i + |pat.name| else i + 1;
    SubStep(cs, pat, p, text, i);
    if hit {
      NotInsidePlaceholder(cs, pat, p, m, q, Sub(cs, pat, p, text, next));
    }
    k := TraceShifted(cs, pat, p, text, next, m, q - |a|, a, out);
  }

  lemma {:induction false} TraceShifted(cs: Charset, pat: Pattern, p: string, text: string, i: nat, m: string,
                                        q: nat, a: string, out: string)
    returns (k: nat)
    requires pat.name != [] && p != [] && i <= |text| && m != [] && a != []
    requires a == p || (i > 0 && a == [text[i - 1]])
    requires out == a + Sub(cs, pat, p, text, i)
    requires Harmless(cs, pat, m, p) && OccursAt(cs, m, out, |a| + q)
    ensures Traced(cs, pat, p, text, out, m, k, |a| + q) && i <= k
    decreases |text| - i, 2
  {
    var rest := Sub(cs, pat, p, text, i);
    OccursShift(cs, m, a, rest, q);
    k := TraceBack(cs, pat, p, text, i, m, q, rest);
    CopiedShift(text, a, rest, p, k, q, |m|);
    if q > 0 {
      assert (a + rest)[|a| + q - 1] == rest[q - 1];
    } else {
      assert (a + rest)[|a| - 1] == a[|a| - 1];
    }
  }

  lemma NotInsidePlaceholder(cs: Charset, pat: Pattern, p: string, m: string, q: nat, rest: string)
    requires m != [] && Harmless(cs, pat, m, p) && OccursAt(cs, m, p + rest, q)
    ensures q >= |p|
  {
    if q < |p| {
      assert AgreeAt(cs, m, p, q);
    }
  }

  // ---- One name -------------------------------------------------------------------------------

  /** A pattern whose own name is harmless leaves no match behind. */
  lemma SubLeavesNone(cs: Charset, name: string, p: string, text: string)
    requires name != [] && p != [] && Harmless(cs, Anywhere(name), name, p)
    ensures !Search(cs, Anywhere(name), Sub(cs, Anywhere(name), p, text, 0))
  {
    var out := Sub(cs, Anywhere(name), p, text, 0);
    if q :| 0 <= q <= |out| && MatchAt(cs, Anywhere(name), out, q) {
      var k := TraceBack(cs, Anywhere(name), p, text, 0, name, q, out);
      SameLetters(cs, name, text, out, k, q);
    }
  }

  lemma {:induction false} SubCopies(cs: Charset, pat: Pattern, p: string, text: string, i: nat, k: nat)
    requires pat.name != [] && i <= k <= |text|
    requires forall s | i <= s < k :: !MatchAt(cs, pat, text, s)
    ensures Sub(cs, pat, p, text, i) == text[i..k] + Sub(cs, pat, p, text, k)
    decreases k - i
  {
    if i < k {
      SubCopies(cs, pat, p, text, i + 1, k);
      assert text[i..k] == [text[i]] + text[i + 1..k];
      Seqs.Assoc([text[i]], text[i + 1..k], Sub(cs, pat, p, text, k));
    }
  }

  /** `name[..k] + name + tail` with a short tail loses exactly its middle part. */
  lemma {:induction false} SubOfWitness(cs: Charset, name: string, p: string, k: nat, tail: string)
    requires name != [] && k <= |name| && |tail| < |name| && FirstAt(cs, name, k)
    ensures Sub(cs, Anywhere(name), p, name[..k] + name + tail, 0) == name[..k] + (p + tail)
  {
    NoneInHead(cs, name, k, tail);
    FirstInHead(cs, name, k, tail);
    SubOnce(cs, Anywhere(name), p, name[..k] + name + tail, k);
    TextParts(name, k, tail);
  }

  lemma NoneInHead(cs: Charset, name: string, k: nat, tail: string)
    requires k <= |name| && FirstAt(cs, name, k)
    ensures forall s | 0 <= s < k :: !MatchAt(cs, Anywhere(name), name[..k] + name + tail, s)
  {
    var head := name[..k] + name;
    forall s | 0 <= s < k
      ensures !OccursAt(cs, name, head + tail, s)
    {
      InHead(head, tail, s, |name|);
      SameLetters(cs, name, head + tail, head, s, s);
    }
  }

  lemma FirstInHead(cs: Charset, name: string, k: nat, tail: string)
    requires k <= |name|
    ensures MatchAt(cs, Anywhere(name), name[..k] + name + tail, k)
  {
    var text := name[..k] + name + tail;
    assert text[k..k + |name|] == name && name[0..|name|] == name;
    SameLetters(cs, name, text, name, k, 0);
  }

  lemma NoRoom(cs: Charset, pat: Pattern, text: string, i: nat)
    requires pat.Anywhere? && |text| < i + |pat.name|
    ensures forall s | i <= s < |text| :: !MatchAt(cs, pat, text, s)
  {
  }

  /** A text with its first match at `k`, and no room for another one. */
  lemma SubOnce(cs: Charset, pat: Pattern, p: string, text: string, k: nat)
    requires pat.Anywhere? && pat.name != [] && k + |pat.name| <= |text| < k + 2 * |pat.name|
    requires MatchAt(cs, pat, text, k) && forall s | 0 <= s < k :: !MatchAt(cs, pat, text, s)
    ensures Sub(cs, pat, p, text, 0) == text[0..k] + (p + text[k + |pat.name|..|text|])
  {
    var next := k + |pat.name|;
    SubCopies(cs, pat, p, text, 0, k);
    SubStep(cs, pat, p, text, k);
    NoRoom(cs, pat, text, next);
    SubCopies(cs, pat, p, text, next, |text|);
    assert text[next..|text|] + [] == text[next..|text|];
  }

  lemma InHead(head: string, tail: string, i: nat, n: nat)
    requires i + n <= |head|
    ensures (head + tail)[i..i + n] == head[i..i + n]
  {
  }

  lemma TextParts(name: string, k: nat, tail: string)
    requires k <= |name|
    ensures var text := name[..k] + name + tail;
            text[0..k] == name[..k] && text[k + |name|..|text|] == tail
  {
  }

  lemma WitnessOccurs(cs: Charset, name: string, p: string, d: int, k: nat, tail: string)
    requires -|name| < d < |p| && AgreeAt(cs, name, p, d) && k == (if d < 0 then -d else 0)
    requires tail == if |p| - d < |name| then name[|p| - d..] else []
    ensures Search(cs, Anywhere(name), name[..k] + (p + tail))
  {
    var out := name[..k] + (p + tail);
    var q: nat := if d < 0 then 0 else d;
    forall j | 0 <= j < |name|
      ensures Same(cs, out[q + j], name[j])
    {
      if 0 <= j + d < |p| {
        assert Same(cs, p[j + d], name[j]);
      }
    }
    assert MatchAt(cs, Anywhere(name), out, q);
  }

  /** Where the placeholder and the name can meet badly, some text keeps the name. */
  lemma SubLeavesSome(cs: Charset, name: string, p: string) returns (text: string)
    requires name != [] && p != [] && !Harmless(cs, Anywhere(name), name, p)
    ensures Search(cs, Anywhere(name), Sub(cs, Anywhere(name), p, text, 0))
  {
    var d :| -|name| < d < |p| && AgreeAt(cs, name, p, d) && !(d < 0 && !FirstAt(cs, name, -d));
    var k: nat := if d < 0 then 0 - d else 0;
    var tail := if |p| - d < |name| then name[|p| - d..] else [];
    text := name[..k] + name + tail;
    SubOfWitness(cs, name, p, k, tail);
    WitnessOccurs(cs, name, p, d, k, tail);
  }

  /** Replacing the long name `name` in `text` leaves no occurrence of it. */
  predicate Removes(cs: Charset, name: string, p: string, text: string)
    requires name != []
  {
    !Search(cs, Anywhere(name), Sub(cs, Anywhere(name), p, text, 0))
  }

  /** Replacing a long name removes it from every text exactly when the placeholder cannot complete it. */
  lemma SubCompleteExact(cs: Charset, name: string, p: string)
    requires name != [] && p != []
    ensures (forall text :: Removes(cs, name, p, text)) <==> Harmless(cs, Anywhere(name), name, p)
  {
    if Harmless(cs, Anywhere(name), name, p) {
      forall text
        ensures Removes(cs, name, p, text)
      {
        SubLeavesNone(cs, name, p, text);
      }
    } else {
      var text := SubLeavesSome(cs, name, p);
      assert !Removes(cs, name, p, text);
    }
  }

  /** A placeholder that contains the name brings it back wherever it is replaced. */
  lemma {:induction false} HolderKeepsName(cs: Charset, name: string, p: string, k: nat, text: string, i: nat, q: nat)
    requires name != [] && OccursAt(cs, name, p, k) && i <= q && MatchAt(cs, Anywhere(name), text, q)
    ensures Search(cs, Anywhere(name), Sub(cs, Anywhere(name), p, text, i))
    decreases |text| - i
  {
    var out := Sub(cs, Anywhere(name), p, text, i);
    if MatchAt(cs, Anywhere(name), text, i) {
      assert MatchAt(cs, Anywhere(name), out, k);
    } else {
      HolderKeepsName(cs, name, p, k, text, i + 1, q);
      var rest := Sub(cs, Anywhere(name), p, text, i + 1);
      var m :| 0 <= m <= |rest| && MatchAt(cs, Anywhere(name), rest, m);
      assert out == [text[i]] + rest;
      assert MatchAt(cs, Anywhere(name), out, m + 1);
    }
  }

  const PLACEHOLDER := "a private downstream repo"

  /** The pruner's own placeholder does that to a repository called `downstream`, in every text that names it. */
  lemma PlaceholderKeepsDownstream(cs: Charset, text: string)
    requires Search(cs, Compile("downstream"), text)
    ensures !Removes(cs, "downstream", PLACEHOLDER, text)
  {
    var name := "downstream";
    var q :| 0 <= q <= |text| && MatchAt(cs, Compile(name), text, q);
    assert PLACEHOLDER[10..20] == name;
    assert forall j | 0 <= j < |name| :: PLACEHOLDER[10 + j] == PLACEHOLDER[10..20][j];
    HolderKeepsName(cs, name, PLACEHOLDER, 10, text, 0, q);
  }

  // ---- The whole vocabulary -----------------------------------------------------------------------

  predicate WordEdged(cs: Charset, s: string) {
    s != [] && cs.word(s[0]) && cs.word(s[|s| - 1])
  }

  /** No name meets the placeholder; short aliases, and then the placeholder too, begin and end with word characters. */
  predicate Safe(cs: Charset, names: seq<string>, p: string) {
    && p != []
    && forall i | 0 <= i < |names| :: SafeName(cs, names[i], p)
  }

  predicate SafeName(cs: Charset, name: string, p: string) {
    && name != [] && Apart(cs, name, p)
    && (|name| <= 3 ==> WordEdged(cs, name) && WordEdged(cs, p))
  }

  lemma MatchOccurs(cs: Charset, name: string, text: string, q: nat)
    requires MatchAt(cs, Compile(name), text, q)
    ensures OccursAt(cs, name, text, q)
  {
    if |name| <= 3 {
      assert text[q..q + |name|] == name[0..|name|];
      SameLetters(cs, name, text, name, q, 0);
    }
  }

  /** A match in the output was a match in the text it was copied from. */
  lemma TracedMatches(cs: Charset, pat: Pattern, p: string, text: string, out: string, name: string, k: nat, q: nat)
    requires SafeName(cs, name, p) && Traced(cs, pat, p, text, out, name, k, q) && (q == 0 ==> k == 0)
    requires MatchAt(cs, Compile(name), out, q)
    ensures MatchAt(cs, Compile(name), text, k)
  {
    SameLetters(cs, name, text, out, k, q);
    if |name| <= 3 {
      assert text[k] == text[k..k + |name|][0] && out[q] == out[q..q + |name|][0];
      assert text[k + |name| - 1] == text[k..k + |name|][|name| - 1];
      assert out[q + |name| - 1] == out[q..q + |name|][|name| - 1];
    }
  }

  lemma SubMatchTraced(cs: Charset, pat: Pattern, p: string, text: string, name: string, q: nat) returns (k: nat)
    requires pat.name != [] && p != [] && SafeName(cs, name, p)
    requires MatchAt(cs, Compile(name), Sub(cs, pat, p, text, 0), q)
    ensures k <= |text| && MatchAt(cs, Compile(name), text, k) && !MatchAt(cs, pat, text, k)
  {
    var out := Sub(cs, pat, p, text, 0);
    MatchOccurs(cs, name, out, q);
    k := TraceBack(cs, pat, p, text, 0, name, q, out);
    TracedMatches(cs, pat, p, text, out, name, k, q);
  }

  /** Replacing any pattern adds no name that was absent, and removes its own. */
  lemma SubStaysClean(cs: Charset, other: string, p: string, text: string, name: string)
    requires other != [] && p != [] && SafeName(cs, name, p)
    requires other == name || !Search(cs, Compile(name), text)
    ensures !Search(cs, Compile(name), Sub(cs, Compile(other), p, text, 0))
  {
    var out := Sub(cs, Compile(other), p, text, 0);
    if q :| 0 <= q <= |out| && MatchAt(cs, Compile(name), out, q) {
      var k := SubMatchTraced(cs, Compile(other), p, text, name, q);
    }
  }

  /** After redaction no pattern of the vocabulary finds anything. */
  lemma {:induction false} RedactionComplete(cs: Charset, names: seq<string>, p: string, text: string)
    requires Vocabulary(names) && Safe(cs, names, p)
    ensures forall i | 0 <= i < |names| :: !Search(cs, Compile(names[i]), Redacted(cs, names, p, text))
  {
    if names != [] {
      var n := |names| - 1;
      var init := names[..n];
      RedactionComplete(cs, init, p, text);
      forall i | 0 <= i < |names|
        ensures !Search(cs, Compile(names[i]), Redacted(cs, names, p, text))
      {
        assert i < n ==> init[i] == names[i];
        SubStaysClean(cs, names[n], p, Redacted(cs, init, p, text), names[i]);
      }
    }
  }

  lemma {:induction false} RedactedUnchanged(cs: Charset, names: seq<string>, p: string, text: string)
    requires Vocabulary(names)
    requires forall i | 0 <= i < |names| :: !Search(cs, Compile(names[i]), text)
    ensures Redacted(cs, names, p, text) == text
  {
    if names != [] {
      var n := |names| - 1;
      RedactedUnchanged(cs, names[..n], p, text);
      var pat := Compile(names[n]);
      SubCopies(cs, pat, p, text, 0, |text|);
      assert text[0..|text|] + [] == text;
    }
  }

  /** Redacting again changes nothing. */
  lemma RedactionIdempotent(cs: Charset, names: seq<string>, p: string, text: string)
    requires Vocabulary(names) && Safe(cs, names, p)
    ensures var once := Redacted(cs, names, p, text);
            Redacted(cs, names, p, once) == once
  {
    RedactionComplete(cs, names, p, text);
    RedactedUnchanged(cs, names, p, Redacted(cs, names, p, text));
  }
}
