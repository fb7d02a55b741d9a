/**
 What the parts of the library share: optional values, the addresses of nodes and records, buckets.
 */
module Basics {
  datatype Option<+T> = None | Some(value: T)

  /** Addresses of nodes and records in memory; 0 is the null pointer. */
  type Addr = int

  /** The bucket of a hash value among `n` buckets. */
  function Slot(h: nat, n: nat): (slot: nat)
    requires n > 0
    ensures slot < n
  {
    h % n
  }

  function Without<T>(s: seq<T>, i: nat): seq<T>
    requires i < |s|
  {
    s[..i] + s[i + 1..]
  }

  lemma SubsetSize<T>(a: set<T>, b: set<T>)
    requires a <= b
    ensures |a| <= |b|
  {
    var rest := b - a;
    assert b == a + rest;
  }

  /** An address that is not live is always to be found. */
  lemma FreshAddr(used: set<Addr>)
    ensures exists a: Addr :: a != 0 && a !in used
  {
    var a: Addr := 1;
    var rest := used;
    while a in rest
      invariant a != 0
      invariant forall x :: x in used && x !in rest ==> x < a
      decreases |rest|
    {
      rest := rest - {a};
      a := a + 1;
    }
  }
}
