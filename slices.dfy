/** Small facts about slices, kept apart so that the proofs that use them
    do not have to rediscover them among many other facts. */
module Slices {
  /** Extending a prefix by one element. */
  lemma {:induction false} PrefixSnoc<T>(s: seq<T>, i: nat)
    requires i < |s|
    ensures s[..i + 1] == s[..i] + [s[i]]
  {
  }

  /** A slice of a prefix is a slice of the whole. */
  lemma {:induction false} SliceOfPrefix<T>(s: seq<T>, f: nat, a: nat, b: nat)
    requires a <= b <= f <= |s|
    ensures s[..f][a..b] == s[a..b]
  {
  }

  /** Two adjacent slices make up the slice spanning both. */
  lemma {:induction false} SliceConcat<T>(s: seq<T>, a: nat, b: nat, c: nat)
    requires a <= b <= c <= |s|
    ensures s[a..b] + s[b..c] == s[a..c]
  {
  }

  /** Dropping the head of a concatenation whose left part is not empty. */
  lemma {:induction false} TailAppend<T>(s: seq<T>, t: seq<T>)
    requires |s| > 0
    ensures (s + t)[1..] == s[1..] + t
  {
  }
}
