/** Small definitions several modules share. */
module Basics {
  datatype Option<T> = None | Some(value: T)

  /** The terminator of a C string. */
  const NUL: char := '\0'

  function Min(a: nat, b: nat): nat {
    if a < b then a else b
  }

  function Sum(ns: seq<nat>): nat {
    if ns == [] then 0 else ns[0] + Sum(ns[1..])
  }

  lemma Reassociate<T>(a: seq<T>, b: seq<T>, c: seq<T>)
    ensures a + (b + c) == a + b + c
  {
  }

  lemma SliceSplit<T>(s: seq<T>, i: nat, j: nat, k: nat)
    requires i <= j <= k <= |s|
    ensures s[i..k] == s[i..j] + s[j..k]
  {
  }
}
