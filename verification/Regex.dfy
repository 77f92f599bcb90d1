/** The fragment of Python's `re` syntax that the glob compiler emits, with its language semantics. */
module Regex {

  datatype Re =
    | Chr(c: char)            // an escaped literal
    | Dot                     // `.`: anything but a newline
    | NotSlash                // `[^/]`
    | Cat(left: Re, right: Re)
    | Star(body: Re)
    | Opt(body: Re)

  /** `s` as a whole is in the language of `r`. */
  predicate Full(r: Re, s: string)
    decreases r, |s|
  {
    match r
    case Chr(c) => s == [c]
    case Dot => |s| == 1 && s[0] != '\n'
    case NotSlash => |s| == 1 && s[0] != '/'
    case Cat(a, b) => exists k | 0 <= k <= |s| :: Full(a, s[..k]) && Full(b, s[k..])
    case Star(a) => s == [] || exists k | 0 < k <= |s| :: Full(a, s[..k]) && Full(r, s[k..])
    case Opt(a) => s == [] || Full(a, s)
  }

  /** The fragments of `rs`, joined, match the whole of `s`. */
  predicate FullSeq(rs: seq<Re>, s: string)
    decreases |rs|
  {
    if rs == [] then s == []
    else exists k | 0 <= k <= |s| :: Full(rs[0], s[..k]) && FullSeq(rs[1..], s[k..])
  }

  /** `re.compile("^" + rs + "$").match(s)`: `$` also matches before a final newline. */
  predicate Matches(rs: seq<Re>, s: string) {
    || FullSeq(rs, s)
    || (s != [] && s[|s| - 1] == '\n' && FullSeq(rs, s[..|s| - 1]))
  }

  /** The head fragment of a list takes a prefix of the string. */
  lemma FullSeqCons(r: Re, rs: seq<Re>, s: string)
    ensures FullSeq([r] + rs, s) <==>
            exists k | 0 <= k <= |s| :: Full(r, s[..k]) && FullSeq(rs, s[k..])
  {
    assert ([r] + rs)[1..] == rs;
  }

  lemma {:induction false} StarDot(s: string)
    ensures Full(Star(Dot), s) <==> '\n' !in s
  {
    if s != [] {
      StarDot(s[1..]);
      assert s == s[..1] + s[1..];
      if '\n' !in s {
        assert Full(Dot, s[..1]) && Full(Star(Dot), s[1..]);
      }
      if Full(Star(Dot), s) {
        var k :| 0 < k <= |s| && Full(Dot, s[..k]) && Full(Star(Dot), s[k..]);
        assert k == 1;
      }
    }
  }

  lemma {:induction false} StarNotSlash(s: string)
    ensures Full(Star(NotSlash), s) <==> '/' !in s
  {
    if s != [] {
      StarNotSlash(s[1..]);
      assert s == s[..1] + s[1..];
      if '/' !in s {
        assert Full(NotSlash, s[..1]) && Full(Star(NotSlash), s[1..]);
      }
      if Full(Star(NotSlash), s) {
        var k :| 0 < k <= |s| && Full(NotSlash, s[..k]) && Full(Star(NotSlash), s[k..]);
        assert k == 1;
      }
    }
  }
}
