/** Stock facts about sequences and sets. */
module Seqs {
  lemma Assoc<T>(a: seq<T>, b: seq<T>, c: seq<T>)
    ensures a + (b + c) == (a + b) + c
  {
  }

  lemma PrefixStep<T>(a: seq<T>, s: seq<T>, j: nat)
    requires j < |s|
    ensures a + s[..j + 1] == (a + s[..j]) + [s[j]]
  {
    assert s[..j + 1] == s[..j] + [s[j]];
    Assoc(a, s[..j], [s[j]]);
  }

  lemma PrefixEnds<T>(a: seq<T>, s: seq<T>)
    ensures a + s[..0] == a && s[..|s|] == s
  {
  }

  /** Of two prefixes, the longer one holds the element right after the shorter one. */
  lemma NextInLonger<T>(s: seq<T>, i: nat, k: nat)
    requires i <= |s| && k <= |s|
    ensures k < i ==> s[k] in s[..i]
    ensures i < k ==> s[i] in s[..k]
  {
    if k < i {
      assert s[..i][k] == s[k];
    } else if i < k {
      assert s[..k][i] == s[i];
    }
  }

  /** Some element of a set. */
  method AnyOf<T>(s: set<T>) returns (x: T)
    requires s != {}
    ensures x in s
  {
    x :| x in s;
  }

  lemma AnElement<T>(s: set<T>) returns (x: T)
    requires s != {}
    ensures x in s
  {
    x :| x in s;
  }
}
