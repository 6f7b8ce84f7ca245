/** Facts about sequences that the verifier wants to be told. */
module Sequences {

  lemma Associate<T>(a: seq<T>, b: seq<T>, c: seq<T>)
    ensures a + b + c == a + (b + c)
  {
  }

  /** A slice of what is left after `n`. */
  lemma Shift<T>(a: seq<T>, n: nat, i: nat, j: nat)
    requires n + j <= |a| && i <= j
    ensures a[n..][i..j] == a[n + i..n + j]
  {
  }
}
