/**
 What the order of a cache slot's records means: over any run of calls and rebuilds it is the order in
 which their keys were last used, so what is evicted is what has not been used for the longest time.
 */
module CacheUse {
  import opened Basics
  import opened LinkedHash
  import opened Processing
  import opened CacheSlots

  /** A call of Process under the limits of that time, or a rebuild with other ones. */
  datatype Call =
    | Call(key: Key, proc: Processor<Key, Value>, writable: bool, capRecNum: int, capMemSize: int, numBuckets: int)
    | Rebuild(capRecNum: int, capMemSize: int, numBuckets: int)

  ghost function After(s: Items, c: Call): Items {
    if c.Call? then AfterProcess(s, c.key, c.proc, c.writable, c.capRecNum, c.capMemSize, c.numBuckets)
    else s[..KeptFrom(s, 0, c.capRecNum, c.capMemSize, c.numBuckets)]
  }

  /** A run: what the calls make, one after the other, of an empty slot. */
  ghost predicate Run(calls: seq<Call>, run: seq<Items>) {
    && |run| == |calls| + 1 && run[0] == []
    && forall i {:trigger Next(calls, run, i)} :: 0 <= i < |calls| ==> Next(calls, run, i)
  }

  ghost predicate Next(calls: seq<Call>, run: seq<Items>, i: nat)
    requires i < |calls| && i + 1 < |run|
  {
    run[i + 1] == After(run[i], calls[i])
  }

  predicate IsAbout(c: Call, k: Key) {
    c.Call? && c.key == k
  }

  /** The number of the last of the first `n` calls that is about a key, or -1. */
  ghost function LastUse(calls: seq<Call>, n: nat, k: Key): (i: int)
    requires n <= |calls|
    ensures -1 <= i < n && (i >= 0 ==> IsAbout(calls[i], k))
    ensures forall j {:trigger IsAbout(calls[j], k)} :: i < j < n ==> !IsAbout(calls[j], k)
  {
    if n == 0 then -1 else if IsAbout(calls[n - 1], k) then n - 1 else LastUse(calls, n - 1, k)
  }

  ghost predicate InUseOrder(s: Items, calls: seq<Call>, n: nat)
    requires n <= |calls|
  {
    && (forall i :: 0 <= i < |s| ==> LastUse(calls, n, s[i].key) >= 0)
    && (forall i, j :: 0 <= i < j < |s| ==> LastUse(calls, n, s[i].key) < LastUse(calls, n, s[j].key))
  }

  /** Taking a record out leaves the others in order. */
  lemma WithoutInOrder(s: Items, calls: seq<Call>, n: nat, i: nat, t: Items)
    requires n <= |calls| && InUseOrder(s, calls, n) && i < |s| && t == Without(s, i)
    ensures InUseOrder(t, calls, n) && forall x :: 0 <= x < |t| ==> t[x].key != s[i].key
  {
    forall x | 0 <= x < |t|
      ensures LastUse(calls, n, t[x].key) >= 0 && t[x].key != s[i].key
    {
      assert t[x] == s[if x < i then x else x + 1];
    }
    forall x, y | 0 <= x < y < |t|
      ensures LastUse(calls, n, t[x].key) < LastUse(calls, n, t[y].key)
    {
      assert t[x] == s[if x < i then x else x + 1] && t[y] == s[if y < i then y else y + 1];
    }
  }

  /** A key that is used goes behind all the others. */
  lemma UsedInOrder(s: Items, calls: seq<Call>, n: nat, m: nat, e: Entry<Key, Value>)
    requires m == n + 1 <= |calls| && InUseOrder(s, calls, n) && IsAbout(calls[n], e.key)
    requires forall x :: 0 <= x < |s| ==> s[x].key != e.key
    ensures InUseOrder(s, calls, m) && InUseOrder(s + [e], calls, m)
  {
  }

  /** A rebuild is no use of a key, and a front part of what is in order is in order. */
  lemma RebuiltInOrder(s: Items, calls: seq<Call>, n: nat, m: nat, kept: nat, t: Items)
    requires m == n + 1 <= |calls| && InUseOrder(s, calls, n) && calls[n].Rebuild? && kept <= |s| && t == s[..kept]
    ensures InUseOrder(t, calls, m)
  {
    forall k
      ensures LastUse(calls, m, k) == LastUse(calls, n, k)
    {
    }
  }

  lemma HitInOrder(s: Items, calls: seq<Call>, n: nat, m: nat, c: Call, i: nat)
    requires m == n + 1 <= |calls| && InUseOrder(s, calls, n) && c == calls[n] && c.Call?
    requires Has(s, c.key) && i == IndexOf(s, c.key)
    ensures InUseOrder(After(s, c), calls, m)
  {
    var t := Without(s, i);
    WithoutInOrder(s, calls, n, i, t);
    var action := if c.writable then c.proc.full(c.key, s[i].value) else Noop;
    UsedInOrder(t, calls, n, m, if action.Set? then Entry(c.key, action.value) else s[i]);
  }

  lemma MissInOrder(s: Items, calls: seq<Call>, n: nat, m: nat, c: Call)
    requires m == n + 1 <= |calls| && InUseOrder(s, calls, n) && c == calls[n] && c.Call? && !Has(s, c.key)
    ensures InUseOrder(After(s, c), calls, m)
  {
    var action := if c.writable then c.proc.empty(c.key) else Noop;
    UsedInOrder(s, calls, n, m, Entry(c.key, if action.Set? then action.value else ""));
  }

  lemma CallInOrder(s: Items, calls: seq<Call>, n: nat, m: nat)
    requires m == n + 1 <= |calls| && InUseOrder(s, calls, n)
    ensures InUseOrder(After(s, calls[n]), calls, m)
  {
    var c := calls[n];
    if c.Rebuild? {
      var kept := KeptFrom(s, 0, c.capRecNum, c.capMemSize, c.numBuckets);
      RebuiltInOrder(s, calls, n, m, kept, s[..kept]);
    } else if Has(s, c.key) {
      HitInOrder(s, calls, n, m, c, IndexOf(s, c.key));
    } else {
      MissInOrder(s, calls, n, m, c);
    }
  }

  /** Over every run of calls and rebuilds the records are in the order of their last use. */
  lemma {:induction false} RunInUseOrder(calls: seq<Call>, run: seq<Items>, n: nat)
    requires Run(calls, run) && n <= |calls|
    ensures InUseOrder(run[n], calls, n)
  {
    if n > 0 {
      RunInUseOrder(calls, run, n - 1);
      RunStep(calls, run, n - 1, n);
    }
  }

  lemma RunStep(calls: seq<Call>, run: seq<Items>, n: nat, m: nat)
    requires Run(calls, run) && m == n + 1 <= |calls| && InUseOrder(run[n], calls, n)
    ensures InUseOrder(run[m], calls, m)
  {
    assert Next(calls, run, n);
    CallInOrder(run[n], calls, n, m);
  }

  lemma HasAt(s: Items, i: nat, k: Key)
    requires i < |s| && s[i].key == k
    ensures Has(s, k)
  {
  }

  ghost function KeyAt(s: Items, i: int): Option<Key> {
    if 0 <= i < |s| then Some(s[i].key) else None
  }

  lemma NotAt(s: Items, i: int, k: Key)
    requires !Has(s, k)
    ensures KeyAt(s, i) != Some(k)
  {
  }

  /** A call that finds its key makes no other key go. */
  lemma HitKeepsOthers(s: Items, c: Call, t: Items, k: Key)
    requires c.Call? && t == After(s, c) && Has(s, c.key) && Has(s, k) && k != c.key
    ensures Has(t, k)
  {
    var x, i := IndexOf(s, k), IndexOf(s, c.key);
    var y := if x < i then x else x - 1;
    assert Without(s, i)[y] == s[x];
    HasAt(t, y, k);
  }

  /** A call that does not find its key makes the first one go, if any, and then it has added a record. */
  lemma MissEvictsFirst(s: Items, c: Call, t: Items, k: Key) returns (e: Entry<Key, Value>)
    requires c.Call? && t == After(s, c) && !Has(s, c.key) && Has(s, k) && !Has(t, k)
    ensures s[0].key == k && e.key == c.key && t == (s + [e])[1..]
  {
    var x: int, action := IndexOf(s, k), if c.writable then c.proc.empty(c.key) else Noop;
    e := Entry(c.key, if action.Set? then action.value else "");
    assert KeyAt(s + [e], x) == Some(k) && (x > 0 ==> KeyAt((s + [e])[1..], x - 1) == Some(k));
    NotAt(t, x, k);
    NotAt(t, x - 1, k);
  }

  /**
   A call that makes the record of another key go has added one, and the one that goes has been used
   before every one that stays.
   */
  lemma EvictedIsOldest(calls: seq<Call>, run: seq<Items>, n: nat, m: nat, k: Key, s: Items, t: Items)
    requires Run(calls, run) && m == n + 1 <= |calls| && s == run[n] && t == run[m]
    requires Has(s, k) && !Has(t, k) && calls[n].Call? && calls[n].key != k
    ensures !Has(s, calls[n].key) && Has(t, calls[n].key)
    ensures forall e :: e in t ==> LastUse(calls, m, k) < LastUse(calls, m, e.key)
  {
    assert Next(calls, run, n);
    if Has(s, calls[n].key) { HitKeepsOthers(s, calls[n], t, k); }
    var e := MissEvictsFirst(s, calls[n], t, k);
    RunInUseOrder(calls, run, n);
    UsedInOrder(s, calls, n, m, e);
    HasAt(t, |t| - 1, e.key);
  }

  // ---------------------------------------------------------------- rebuilding

  /** Of two parts of the list, the one that goes has been used before all of the one that is kept. */
  ghost predicate DropsLeastUsed(calls: seq<Call>, n: nat, s: Items, kept: nat)
    requires n <= |calls| && kept <= |s|
  {
    forall i, j :: 0 <= i < kept <= j < |s| ==> LastUse(calls, n, s[j].key) < LastUse(calls, n, s[i].key)
  }

  /** Keeping a front part of what is in order does so only if it is nothing or all. */
  lemma FrontKept(calls: seq<Call>, n: nat, s: Items, kept: nat)
    requires n <= |calls| && kept <= |s| && InUseOrder(s, calls, n)
    ensures DropsLeastUsed(calls, n, s, kept) <==> kept == 0 || kept == |s|
  {
    if 0 < kept < |s| {
      assert LastUse(calls, n, s[0].key) < LastUse(calls, n, s[kept].key);
    }
  }

  /** With all records but the last one there, the limits allow for one more. */
  ghost predicate AllFit(s: Items, capRecNum: int, capMemSize: int, numBuckets: int) {
    |s| == 0
    || (|s| <= capRecNum && MemoryUsage(numBuckets, |s| - 1, BytesTo(s, |s| - 1)) < capMemSize)
  }

  /** Not even an empty slot is within the limits. */
  ghost predicate NoneFits(capRecNum: int, capMemSize: int, numBuckets: int) {
    capRecNum <= 0 || MemoryUsage(numBuckets, 0, 0) >= capMemSize
  }

  lemma {:induction false} BytesToAscends(s: Items, m: nat, n: nat)
    requires m <= n <= |s|
    ensures BytesTo(s, m) <= BytesTo(s, n)
  {
    if m < n { BytesToAscends(s, m, n - 1); }
  }

  /** When a rebuild keeps all records, and when none. */
  lemma KeptIs(s: Items, capRecNum: int, capMemSize: int, numBuckets: int, kept: nat)
    requires kept == KeptFrom(s, 0, capRecNum, capMemSize, numBuckets)
    ensures kept == |s| <==> AllFit(s, capRecNum, capMemSize, numBuckets)
    ensures kept == 0 <==> |s| == 0 || NoneFits(capRecNum, capMemSize, numBuckets)
  {
    if |s| > 0 {
      var e := |s| - 1;
      if kept == |s| { assert MayKeep(s, e, capRecNum, capMemSize, numBuckets); }
      if kept < |s| { BytesToAscends(s, kept, e); }
      if kept > 0 { assert MayKeep(s, 0, capRecNum, capMemSize, numBuckets); }
    }
  }

  /**
   A rebuild drops the records used least recently if and only if, under the new limits, there is
   nothing to drop or nothing to keep.
   */
  lemma RebuildDropsLeastUsed(calls: seq<Call>, run: seq<Items>, n: nat, s: Items,
                              capRecNum: int, capMemSize: int, numBuckets: int)
    requires Run(calls, run) && n <= |calls| && s == run[n]
    ensures DropsLeastUsed(calls, n, s, KeptFrom(s, 0, capRecNum, capMemSize, numBuckets))
            <==> AllFit(s, capRecNum, capMemSize, numBuckets) || NoneFits(capRecNum, capMemSize, numBuckets)
  {
    var kept := KeptFrom(s, 0, capRecNum, capMemSize, numBuckets);
    RunInUseOrder(calls, run, n);
    FrontKept(calls, n, s, kept);
    KeptIs(s, capRecNum, capMemSize, numBuckets, kept);
  }

  /** Otherwise it drops the records used last, and keeps those used before all of them. */
  lemma RebuildDropsLatest(calls: seq<Call>, run: seq<Items>, n: nat, s: Items,
                           capRecNum: int, capMemSize: int, numBuckets: int)
    requires Run(calls, run) && n <= |calls| && s == run[n]
    ensures var kept := KeptFrom(s, 0, capRecNum, capMemSize, numBuckets);
            forall i, j :: 0 <= i < kept <= j < |s| ==> LastUse(calls, n, s[i].key) < LastUse(calls, n, s[j].key)
  {
    RunInUseOrder(calls, run, n);
  }

  /** Two keys are set, and a rebuild for one record keeps the first of them. */
  lemma RebuildMisses() returns (calls: seq<Call>, run: seq<Items>)
    ensures Run(calls, run) && |calls| == 2 && run[2] == [Entry("a", "1"), Entry("b", "2")]
    ensures KeptFrom(run[2], 0, 1, 1000, 1) == 1 && !DropsLeastUsed(calls, 2, run[2], 1)
  {
    var a, b := Entry("a", "1"), Entry("b", "2");
    var none: Items := [];
    calls := [Call("a", Processor((k, v) => Noop, k => Set("1")), true, 9, 1000, 1),
              Call("b", Processor((k, v) => Noop, k => Set("2")), true, 9, 1000, 1)];
    run := [none, [a], [a, b]];
    assert !Has(none, "a") && !Has([a], "b");
    BytesOfAppend(none, a);
    BytesOfAppend([a], b);
    assert none + [a] == [a] && [a] + [b] == [a, b];
    assert Next(calls, run, 0) && Next(calls, run, 1);
    assert MayKeep([a, b], 0, 1, 1000, 1) && !MayKeep([a, b], 1, 1, 1000, 1);
    RunInUseOrder(calls, run, 2);
    FrontKept(calls, 2, [a, b], 1);
  }

  /** A new value for a stored key changes the memory in use by the difference: nothing is evicted for it. */
  lemma MemoryAfterUpdate(s: Items, c: Call, i: nat, v: Value, t: Items)
    requires c.Call? && Has(s, c.key) && i == IndexOf(s, c.key) && c.writable
             && c.proc.full(c.key, s[i].value) == Set(v)
    requires t == After(s, c)
    ensures |t| == |s|
    ensures MemoryUsage(c.numBuckets, |t|, BytesOf(t)) <= c.capMemSize <==>
              MemoryUsage(c.numBuckets, |s|, BytesOf(s)) + |v| - |s[i].value| <= c.capMemSize
  {
    BytesOfWithout(s, i);
    BytesOfAppend(Without(s, i), Entry(c.key, v));
  }

  /** So it can take a slot that is within its limits over them. */
  lemma UpdateExceeds() returns (s: Items, c: Call)
    ensures MemoryUsage(c.numBuckets, |s|, BytesOf(s)) <= c.capMemSize && |s| <= c.capRecNum
    ensures MemoryUsage(c.numBuckets, |After(s, c)|, BytesOf(After(s, c))) > c.capMemSize
  {
    s := [Entry("a", "")];
    assert BytesOf([] + s) == BytesOf([]) + 1 + 0 by { BytesOfAppend([], s[0]); }
    assert [] + s == s;
    c := Call("a", Processor((k, v) => Set("b"), k => Noop), true, 1, MemoryUsage(1, 1, 1), 1);
    MemoryAfterUpdate(s, c, 0, "b", After(s, c));
  }
}
