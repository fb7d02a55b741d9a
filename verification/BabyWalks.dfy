/**
 Walking over the B+ tree with an iterator: First, and then Next until the end, enumerates the
 stored keys.
 */
module BabyWalks {
  import opened Basics
  import opened BabyNodes
  import opened BabyIteration

  // ---------------------------------------------------------------- walks

  /** The step of an iterator from the i-th key of a walk. */
  ghost predicate WalkStep(m: map<Key, Value>, ks: seq<Key>, i: nat)
    requires i < |ks|
  {
    LeastAbove(m, ks[i], false, if i + 1 < |ks| then Some(ks[i + 1]) else None)
  }

  /** The positions of an iterator that starts with First and goes on with Next until it is past the end. */
  ghost predicate Walk(m: map<Key, Value>, ks: seq<Key>) {
    && LeastFrom(m, NegInf, if |ks| > 0 then Some(ks[0]) else None)
    && forall i {:trigger WalkStep(m, ks, i)} :: 0 <= i < |ks| ==> WalkStep(m, ks, i)
  }

  lemma {:induction false} WalkAscends(m: map<Key, Value>, ks: seq<Key>, i: nat, j: nat)
    requires Walk(m, ks) && i < j < |ks|
    ensures ks[i] < ks[j]
  {
    if i + 1 < j { WalkAscends(m, ks, i, j - 1); }
    assert WalkStep(m, ks, j - 1);
  }

  /** The first i+1 stops of a walk miss no stored key below the next one. */
  lemma {:induction false} WalkMissesNone(m: map<Key, Value>, ks: seq<Key>, q: Key, i: nat)
    requires Walk(m, ks) && q in m && i < |ks|
    ensures q in ks || ks[i] < q
  {
    if i > 0 {
      WalkMissesNone(m, ks, q, i - 1);
      assert WalkStep(m, ks, i - 1);
    }
    assert ks[i] == q ==> q in ks;
  }

  /** First and then Next until the end enumerates every stored key once, in ascending order. */
  lemma Enumeration(m: map<Key, Value>, ks: seq<Key>)
    requires Walk(m, ks)
    ensures forall i, j :: 0 <= i < j < |ks| ==> ks[i] < ks[j]
    ensures forall k :: k in ks <==> k in m
  {
    forall i, j | 0 <= i < j < |ks|
      ensures ks[i] < ks[j]
    {
      WalkAscends(m, ks, i, j);
    }
    forall k | k in ks
      ensures k in m
    {
      var i :| 0 <= i < |ks| && ks[i] == k;
      if i > 0 { assert WalkStep(m, ks, i - 1); }
    }
    forall q | q in m
      ensures q in ks
    {
      if |ks| > 0 {
        WalkMissesNone(m, ks, q, |ks| - 1);
        assert WalkStep(m, ks, |ks| - 1);
      }
    }
  }

  /** The stored keys above a key. */
  ghost function KeysAbove(m: map<Key, Value>, k: Key): set<Key> {
    set q | q in m && k < q
  }

  lemma FewerAbove(m: map<Key, Value>, k: Key, x: Key)
    requires k < x && x in m
    ensures |KeysAbove(m, x)| < |KeysAbove(m, k)|
  {
    assert KeysAbove(m, x) <= KeysAbove(m, k) - {x};
    SubsetSize(KeysAbove(m, x), KeysAbove(m, k) - {x});
  }

  /** The walk ends, and it visits every stored key once, in ascending order. */
  method Visit(it: BabyIterator) returns (ks: seq<Key>)
    requires it.dbm.Consistent() && it.Registered()
    modifies it.dbm`iterators
    ensures it.dbm.Consistent() && it.Registered() && it.Position().None?
    ensures Walk(it.dbm.contents, ks)
    ensures forall i, j :: 0 <= i < j < |ks| ==> ks[i] < ks[j]
    ensures forall k :: k in ks <==> k in it.dbm.contents
  {
    ghost var m := it.dbm.contents;
    ks := [];
    it.First();
    var key := it.dbm.iterators[it.id].key;
    while key.Some?
      invariant it.dbm.Consistent() && it.Registered() && it.Position() == key
      invariant key.Some? ==> key.value in m
      invariant LeastFrom(m, NegInf, if |ks| > 0 then Some(ks[0]) else key)
      invariant forall i {:trigger Stop(m, ks, key, i)} :: 0 <= i < |ks| ==> Stop(m, ks, key, i)
      decreases if key.Some? then |KeysAbove(m, key.value)| + 1 else 0
    {
      ghost var before := ks;
      var found := it.Next();
      ks := ks + [key.value];
      ghost var was := key;
      key := it.dbm.iterators[it.id].key;
      forall i | 0 <= i < |ks| ensures Stop(m, ks, key, i) {
        if i < |before| { assert Stop(m, before, was, i); }
      }
      if key.Some? { FewerAbove(m, was.value, key.value); }
    }
    forall i | 0 <= i < |ks| ensures WalkStep(m, ks, i) { assert Stop(m, ks, key, i); }
    Enumeration(m, ks);
  }

  /** The iterator has gone from the i-th key to the next one, or to where it is. */
  ghost predicate Stop(m: map<Key, Value>, ks: seq<Key>, position: Option<Key>, i: nat)
    requires i < |ks|
  {
    LeastAbove(m, ks[i], false, if i + 1 < |ks| then Some(ks[i + 1]) else position)
  }
}
