/** Facts about sequences, stated apart so that proofs by induction can use them one at a time. */
module Seqs {

  lemma Assoc<T>(a: seq<T>, b: seq<T>, c: seq<T>)
    ensures a + (b + c) == (a + b) + c
  {
  }

  /** A sequence with one more element, taken apart again. */
  lemma Snoc<T>(s: seq<T>, x: T)
    ensures (s + [x])[..|s + [x]| - 1] == s && (s + [x])[|s + [x]| - 1] == x
  {
  }

  lemma Unsnoc<T>(s: seq<T>)
    requires s != []
    ensures s == s[..|s| - 1] + [s[|s| - 1]]
  {
  }

  lemma Slice<T>(s: seq<T>, a: nat, n: nat)
    requires a < n <= |s|
    ensures s[a..n] == s[a..n - 1] + [s[n - 1]]
  {
  }

  /** Three cuts of one sequence. */
  lemma Cuts<T>(s: seq<T>, a: nat, b: nat, c: nat)
    requires a <= b <= c <= |s|
    ensures s[a..c] == s[a..b] + s[b..c]
    ensures s[..c] == s[..b] + s[b..c]
  {
  }

  lemma Whole<T>(s: seq<T>)
    ensures s[..|s|] == s && s[0..] == s
  {
  }
}
