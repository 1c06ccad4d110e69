/** Facts about concatenation and slicing, stated once so proofs can cite them. */
module Sequences {
  lemma Assoc<T>(a: seq<T>, b: seq<T>, c: seq<T>)
    ensures a + (b + c) == (a + b) + c
  {
  }

  lemma Halves<T>(a: seq<T>, b: seq<T>)
    ensures (a + b)[..|a|] == a && (a + b)[|a|..] == b
  {
  }

  /** Cutting at `i` and `m` and joining again loses nothing. */
  lemma SliceJoin<T>(s: seq<T>, i: nat, m: nat)
    requires i <= m <= |s|
    ensures s[..i] + s[i..m] == s[..m] && s[i..m] + s[m..] == s[i..]
  {
  }

  lemma ThreeParts<T>(a: seq<T>, b: seq<T>, c: seq<T>)
    ensures
      var s := a + b + c;
      s[..|a|] == a && s[|a|..|a| + |b|] == b && s[|a| + |b|..] == c
  {
  }

  /** A prefix of `a + b` longer than `a` is `a` and a prefix of `b`. */
  lemma PrefixOfConcat<T>(a: seq<T>, b: seq<T>, n: nat)
    requires |a| <= n <= |a| + |b|
    ensures (a + b)[..n] == a + b[..n - |a|] && (a + b)[..n][|a|..] == b[..n - |a|]
  {
  }
}
