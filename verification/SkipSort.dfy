/**
 The external sort that feeds a new skip database: records are gathered in memory, flushed to sorted
 files when there are too many, and merged from all files in the order of key and source.
 */
module SkipSort {
  import opened Basics
  import opened StringOrder
  import opened HashFormat
  import opened SkipFile

  /** The values of a key, in order. */
  ghost function OfKey(s: seq<Pair>, k: Key): seq<Value> {
    if |s| == 0 then [] else (if s[0].key == k then [s[0].value] else []) + OfKey(s[1..], k)
  }

  ghost predicate Ascending(s: seq<Pair>) {
    forall i, j :: 0 <= i < j < |s| ==> AtMost(s[i].key, s[j].key)
  }

  /** Sorted by key, with the values of each key in their order. */
  ghost predicate StableSortOf(out: seq<Pair>, all: seq<Pair>) {
    Ascending(out) && forall k :: OfKey(out, k) == OfKey(all, k)
  }

  lemma {:induction false} OfKeyConcat(a: seq<Pair>, b: seq<Pair>, k: Key)
    ensures OfKey(a + b, k) == OfKey(a, k) + OfKey(b, k)
  {
    if |a| == 0 {
      assert a + b == b;
    } else {
      OfKeyConcat(a[1..], b, k);
      assert (a + b)[0] == a[0] && (a + b)[1..] == a[1..] + b;
      var first := if a[0].key == k then [a[0].value] else [];
      assert first + (OfKey(a[1..], k) + OfKey(b, k)) == (first + OfKey(a[1..], k)) + OfKey(b, k);
    }
  }

  lemma OfKeyOne(p: Pair, k: Key)
    ensures OfKey([p], k) == if p.key == k then [p.value] else []
  {
    assert [p][1..] == [];
  }

  lemma {:induction false} OfKeyNone(s: seq<Pair>, k: Key)
    ensures OfKey(s, k) == [] <==> forall i :: 0 <= i < |s| ==> s[i].key != k
  {
    if |s| > 0 {
      OfKeyNone(s[1..], k);
      if forall i :: 0 <= i < |s[1..]| ==> s[1..][i].key != k {
        forall i | 1 <= i < |s| ensures s[i].key != k { assert s[i] == s[1..][i - 1]; }
      }
    }
  }

  /** They are the values of all pairs of the key, each once and in the order of the pairs. */
  lemma {:induction false} OfKeyIs(s: seq<Pair>, k: Key) returns (at: seq<nat>)
    ensures |at| == |OfKey(s, k)| && forall i, j :: 0 <= i < j < |at| ==> at[i] < at[j]
    ensures forall i :: 0 <= i < |at| ==> at[i] < |s| && s[at[i]] == Pair(k, OfKey(s, k)[i])
    ensures forall n: nat :: n < |s| && s[n].key == k ==> n in at
  {
    at := [];
    if |s| > 0 {
      var e := |s| - 1;
      at := OfKeyIs(s[..e], k);
      assert s == s[..e] + [s[e]];
      OfKeyConcat(s[..e], [s[e]], k);
      OfKeyOne(s[e], k);
      if s[e].key == k { at := at + [e]; }
    }
  }

  lemma ValueIsThere(s: seq<Pair>, i: nat)
    requires i < |s|
    ensures s[i].value in OfKey(s, s[i].key)
  {
    var at := OfKeyIs(s, s[i].key);
    assert i in at;
    var x :| 0 <= x < |at| && at[x] == i;
    assert OfKey(s, s[i].key)[x] == s[i].value;
  }

  /** The last pair of its key has the last value. */
  lemma LastOfKey(s: seq<Pair>, i: nat)
    requires i < |s| && forall j :: i < j < |s| ==> s[j].key != s[i].key
    ensures var values := OfKey(s, s[i].key); |values| > 0 && values[|values| - 1] == s[i].value
  {
    var k := s[i].key;
    assert s == s[..i] + ([s[i]] + s[i + 1..]);
    OfKeyConcat(s[..i], [s[i]] + s[i + 1..], k);
    OfKeyConcat([s[i]], s[i + 1..], k);
    OfKeyOne(s[i], k);
    OfKeyNone(s[i + 1..], k);
  }

  lemma AscendingTail(s: seq<Pair>)
    requires Ascending(s) && |s| > 0
    ensures Ascending(s[1..]) && forall i :: 0 <= i < |s[1..]| ==> AtMost(s[0].key, s[1..][i].key)
  {
  }

  /** The keys of two such sequences begin alike. */
  lemma LeastFirst(a: seq<Pair>, b: seq<Pair>)
    requires Ascending(b) && |a| > 0 && forall k :: OfKey(a, k) == OfKey(b, k)
    ensures |b| > 0 && AtMost(b[0].key, a[0].key)
  {
    OfKeyNone(a, a[0].key);
    OfKeyNone(b, a[0].key);
    var i :| 0 <= i < |b| && b[i].key == a[0].key;
    if i == 0 { LessIrreflexive(a[0].key); }
  }

  /** There is one stable sort only: order and contents say it all. */
  lemma {:induction false} StableSortUnique(a: seq<Pair>, b: seq<Pair>)
    requires Ascending(a) && Ascending(b) && forall k :: OfKey(a, k) == OfKey(b, k)
    ensures a == b
    decreases |a|
  {
    if |a| == 0 {
      if |b| > 0 { LeastFirst(b, a); assert false; }
    } else {
      LeastFirst(a, b);
      LeastFirst(b, a);
      LessTotal(a[0].key, b[0].key);
      var k := a[0].key;
      assert OfKey(a, k)[0] == a[0].value && OfKey(b, k)[0] == b[0].value;
      forall q ensures OfKey(a[1..], q) == OfKey(b[1..], q) {
        assert OfKey(a, q) == OfKey(b, q);
        if q == k {
          assert OfKey(a[1..], q) == OfKey(a, q)[1..];
          assert OfKey(b[1..], q) == OfKey(b, q)[1..];
        } else {
          assert [] + OfKey(a[1..], q) == OfKey(a[1..], q);
          assert [] + OfKey(b[1..], q) == OfKey(b[1..], q);
        }
      }
      AscendingTail(a);
      AscendingTail(b);
      StableSortUnique(a[1..], b[1..]);
      assert a == [a[0]] + a[1..] && b == [b[0]] + b[1..];
    }
  }

  // ---------------------------------------------------------------- the library's stable sort

  /** A pair goes behind every one whose key is not greater. */
  function Inserted(s: seq<Pair>, p: Pair): seq<Pair> {
    if |s| == 0 then [p]
    else if Less(p.key, s[0].key) then [p] + s
    else [s[0]] + Inserted(s[1..], p)
  }

  function StableSorted(s: seq<Pair>): seq<Pair> {
    if |s| == 0 then [] else Inserted(StableSorted(s[..|s| - 1]), s[|s| - 1])
  }

  lemma {:induction false} InsertedOfKey(s: seq<Pair>, p: Pair, k: Key)
    requires Ascending(s)
    ensures OfKey(Inserted(s, p), k) == OfKey(s, k) + OfKey([p], k)
  {
    OfKeyOne(p, k);
    if |s| == 0 {
    } else if Less(p.key, s[0].key) {
      OfKeyConcat([p], s, k);
      if k == p.key {
        OfKeyNone(s, k);
        forall i | 0 <= i < |s| ensures s[i].key != k {
          if i > 0 { LessAtMost(k, s[0].key, s[i].key); }
          LessIrreflexive(k);
        }
      }
    } else {
      AscendingTail(s);
      InsertedOfKey(s[1..], p, k);
      OfKeyConcat([s[0]], Inserted(s[1..], p), k);
      OfKeyOne(s[0], k);
    }
  }

  lemma {:induction false} InsertedAscends(s: seq<Pair>, p: Pair)
    requires Ascending(s)
    ensures Ascending(Inserted(s, p))
    ensures forall i :: 0 <= i < |Inserted(s, p)| ==> Inserted(s, p)[i] == p || Inserted(s, p)[i] in s
  {
    var t := Inserted(s, p);
    if |s| == 0 {
    } else if Less(p.key, s[0].key) {
      forall i, j | 0 <= i < j < |t| ensures AtMost(t[i].key, t[j].key) {
        if i == 0 {
          if j > 1 { LessAtMost(p.key, s[0].key, s[j - 1].key); }
          LessAsymmetric(p.key, t[j].key);
        }
      }
    } else {
      AscendingTail(s);
      InsertedAscends(s[1..], p);
      forall i, j | 0 <= i < j < |t| ensures AtMost(t[i].key, t[j].key) {
        if i == 0 {
          assert t[j] == Inserted(s[1..], p)[j - 1];
          if t[j] != p {
            var x :| 0 <= x < |s[1..]| && s[1..][x] == t[j];
          }
        }
      }
    }
  }

  lemma {:induction false} StableSortedIs(s: seq<Pair>)
    ensures StableSortOf(StableSorted(s), s)
  {
    if |s| > 0 {
      var e := |s| - 1;
      StableSortedIs(s[..e]);
      InsertedAscends(StableSorted(s[..e]), s[e]);
      forall k ensures OfKey(StableSorted(s), k) == OfKey(s, k) {
        InsertedOfKey(StableSorted(s[..e]), s[e], k);
        assert s == s[..e] + [s[e]];
        OfKeyConcat(s[..e], [s[e]], k);
      }
    }
  }

  // ---------------------------------------------------------------- the sorter

  /** The values of a key in all sources, source by source. */
  ghost function AllOfKey(sources: seq<seq<Pair>>, k: Key): seq<Value> {
    if |sources| == 0 then [] else AllOfKey(sources[..|sources| - 1], k) + OfKey(sources[|sources| - 1], k)
  }

  ghost predicate AllAscending(sources: seq<seq<Pair>>) {
    forall j :: 0 <= j < |sources| ==> Ascending(sources[j])
  }

  lemma AllOfKeyAppend(sources: seq<seq<Pair>>, s: seq<Pair>, k: Key)
    ensures AllOfKey(sources + [s], k) == AllOfKey(sources, k) + OfKey(s, k)
  {
    assert (sources + [s])[..|sources|] == sources;
  }

  lemma {:induction false} AllOfKeyConcat(a: seq<seq<Pair>>, b: seq<seq<Pair>>, k: Key)
    ensures AllOfKey(a + b, k) == AllOfKey(a, k) + AllOfKey(b, k)
  {
    if |b| == 0 {
      assert a + b == a;
    } else {
      var rest, last := b[..|b| - 1], b[|b| - 1];
      assert b == rest + [last] && a + b == (a + rest) + [last];
      AllOfKeyConcat(a, rest, k);
      AllOfKeyAppend(a + rest, last, k);
      AllOfKeyAppend(rest, last, k);
      assert AllOfKey(a, k) + AllOfKey(rest, k) + OfKey(last, k)
          == AllOfKey(a, k) + (AllOfKey(rest, k) + OfKey(last, k));
    }
  }

  /** The source whose first pair is the least by key and then by source. */
  ghost predicate Least(sources: seq<seq<Pair>>, j: nat) {
    && j < |sources| && |sources[j]| > 0
    && forall i :: 0 <= i < |sources| && |sources[i]| > 0 ==>
         if i < j then Less(sources[j][0].key, sources[i][0].key) else AtMost(sources[j][0].key, sources[i][0].key)
  }

  /** Taking the first pair of that source takes the first value of its key among all sources. */
  lemma {:induction false} TakeLeast(sources: seq<seq<Pair>>, j: nat, rest: seq<seq<Pair>>, n: nat, k: Key)
    requires Least(sources, j) && AllAscending(sources) && n <= |sources| && rest == sources[j := sources[j][1..]]
    ensures AllOfKey(sources[..n], k) == Taken(sources[j][0], k, j < n) + AllOfKey(rest[..n], k)
  {
    if n > 0 {
      var e := n - 1;
      TakeLeast(sources, j, rest, e, k);
      PrefixStep(sources, e, n, k);
      PrefixStep(rest, e, n, k);
      var p := sources[j][0];
      if e == j {
        if k == p.key { EarlierHaveNone(sources, j, e); }
        TakenHere(AllOfKey(sources[..e], k), AllOfKey(rest[..e], k), Taken(p, k, true), OfKey(rest[j], k));
      } else {
        TakenElsewhere(AllOfKey(sources[..e], k), AllOfKey(rest[..e], k), Taken(p, k, e >= j), OfKey(rest[e], k));
      }
    }
  }

  lemma PrefixStep(sources: seq<seq<Pair>>, e: nat, n: nat, k: Key)
    requires n == e + 1 <= |sources|
    ensures AllOfKey(sources[..n], k) == AllOfKey(sources[..e], k) + OfKey(sources[e], k)
  {
    assert sources[..n][..e] == sources[..e];
  }

  lemma TakenHere(a: seq<Value>, b: seq<Value>, t: seq<Value>, r: seq<Value>)
    requires a == b && (a == [] || t == [])
    ensures a + (t + r) == t + (b + r)
  {
  }

  lemma TakenElsewhere(a: seq<Value>, b: seq<Value>, t: seq<Value>, r: seq<Value>)
    requires a == t + b
    ensures a + r == t + (b + r)
  {
  }

  ghost function Taken(p: Pair, k: Key, taken: bool): seq<Value> {
    if taken && k == p.key then [p.value] else []
  }

  lemma {:induction false} EarlierHaveNone(sources: seq<seq<Pair>>, j: nat, n: nat)
    requires Least(sources, j) && AllAscending(sources) && n <= j
    ensures AllOfKey(sources[..n], sources[j][0].key) == []
  {
    if n > 0 {
      var k, s := sources[j][0].key, sources[n - 1];
      EarlierHaveNone(sources, j, n - 1);
      assert sources[..n][..n - 1] == sources[..n - 1];
      forall i | 0 <= i < |s| ensures s[i].key != k {
        if i > 0 { LessAtMost(k, s[0].key, s[i].key); }
        LessIrreflexive(k);
      }
      OfKeyNone(s, k);
    }
  }

  ghost function Flat(sources: seq<seq<Pair>>): seq<Pair> {
    if |sources| == 0 then [] else Flat(sources[..|sources| - 1]) + sources[|sources| - 1]
  }

  lemma {:induction false} FlatOfKey(sources: seq<seq<Pair>>, k: Key)
    ensures OfKey(Flat(sources), k) == AllOfKey(sources, k)
  {
    if |sources| > 0 {
      var e := |sources| - 1;
      FlatOfKey(sources[..e], k);
      OfKeyConcat(Flat(sources[..e]), sources[e], k);
    }
  }

  lemma {:induction false} LeastOfKey(sources: seq<seq<Pair>>, j: nat, rest: seq<seq<Pair>>, before: seq<Pair>,
                                      after: seq<Pair>,
                   whole: seq<Pair>, k: Key)
    requires Least(sources, j) && AllAscending(sources) && rest == sources[j := sources[j][1..]]
    requires StableSortOf(before, Flat(sources)) && StableSortOf(after, Flat(rest)) && whole == [sources[j][0]] + after
    ensures OfKey(before, k) == OfKey(whole, k)
    ensures OfKey(after, k) != [] ==> AtMost(sources[j][0].key, k)
  {
    LeastOfAll(sources, j, rest, k);
    FlatOfKey(sources, k);
    FlatOfKey(rest, k);
    HeadOfKey(sources[j][0], after, whole, k);
  }

  lemma {:induction false} LeastOfAll(sources: seq<seq<Pair>>, j: nat, rest: seq<seq<Pair>>, k: Key)
    requires Least(sources, j) && AllAscending(sources) && rest == sources[j := sources[j][1..]]
    ensures AllOfKey(sources, k) == Taken(sources[j][0], k, true) + AllOfKey(rest, k)
    ensures AllOfKey(rest, k) != [] ==> AtMost(sources[j][0].key, k)
  {
    TakeLeast(sources, j, rest, |sources|, k);
    NothingBelow(sources, j, |sources|, k);
    assert sources[..|sources|] == sources && rest[..|rest|] == rest;
  }

  lemma HeadOfKey(p: Pair, after: seq<Pair>, whole: seq<Pair>, k: Key)
    requires whole == [p] + after
    ensures OfKey(whole, k) == Taken(p, k, true) + OfKey(after, k)
  {
    OfKeyConcat([p], after, k);
    OfKeyOne(p, k);
  }

  /** The sort of all sources begins with the first pair of the least one. */
  lemma LeastIsNext(sources: seq<seq<Pair>>, j: nat, rest: seq<seq<Pair>>)
    requires Least(sources, j) && AllAscending(sources) && rest == sources[j := sources[j][1..]]
    ensures AllAscending(rest)
    ensures StableSorted(Flat(sources)) == [sources[j][0]] + StableSorted(Flat(rest))
  {
    var before, after := StableSorted(Flat(sources)), StableSorted(Flat(rest));
    StableSortedIs(Flat(sources));
    StableSortedIs(Flat(rest));
    var p := sources[j][0];
    var whole := [p] + after;
    forall k ensures OfKey(before, k) == OfKey(whole, k) {
      LeastOfKey(sources, j, rest, before, after, whole, k);
    }
    forall i | 0 <= i < |after| ensures AtMost(p.key, after[i].key) {
      LeastOfKey(sources, j, rest, before, after, whole, after[i].key);
      OfKeyNone(after, after[i].key);
    }
    StableSortUnique(before, whole);
  }

  /** The slots hold what was given. */
  lemma SourcesSort(skipRecords: seq<seq<Pair>>, tmpFiles: seq<seq<Pair>>, current: seq<Pair>, added: seq<Pair>)
    requires Gathered(tmpFiles, current, added) && current == []
    ensures StableSorted(Flat(skipRecords + tmpFiles)) == StableSorted(Flat(skipRecords) + added)
  {
    var a, b := Flat(skipRecords + tmpFiles), Flat(skipRecords) + added;
    StableSortedIs(a);
    StableSortedIs(b);
    forall k ensures OfKey(a, k) == OfKey(b, k) {
      FlatOfKey(skipRecords + tmpFiles, k);
      AllOfKeyConcat(skipRecords, tmpFiles, k);
      FlatOfKey(skipRecords, k);
      OfKeyConcat(Flat(skipRecords), added, k);
      assert AllOfKey(tmpFiles, k) + OfKey(current, k) == OfKey(added, k);
    }
    StableSortUnique(StableSorted(a), StableSorted(b));
  }

  /** What is gathered before the merge: sorted temporary files, and the records in memory after them. */
  ghost predicate Gathered(tmpFiles: seq<seq<Pair>>, current: seq<Pair>, added: seq<Pair>) {
    AllAscending(tmpFiles) && forall k :: AllOfKey(tmpFiles, k) + OfKey(current, k) == OfKey(added, k)
  }

  lemma GatherOne(tmpFiles: seq<seq<Pair>>, current: seq<Pair>, added: seq<Pair>, p: Pair)
    requires Gathered(tmpFiles, current, added)
    ensures Gathered(tmpFiles, current + [p], added + [p])
  {
    forall k ensures AllOfKey(tmpFiles, k) + OfKey(current + [p], k) == OfKey(added + [p], k) {
      OfKeyConcat(current, [p], k);
      OfKeyConcat(added, [p], k);
      assert AllOfKey(tmpFiles, k) + (OfKey(current, k) + OfKey([p], k))
          == (AllOfKey(tmpFiles, k) + OfKey(current, k)) + OfKey([p], k);
    }
  }

  lemma GatherFlushed(tmpFiles: seq<seq<Pair>>, current: seq<Pair>, added: seq<Pair>)
    requires Gathered(tmpFiles, current, added)
    ensures Gathered(tmpFiles + [StableSorted(current)], [], added)
  {
    StableSortedIs(current);
    forall k ensures AllOfKey(tmpFiles + [StableSorted(current)], k) + OfKey([], k) == OfKey(added, k) {
      AllOfKeyAppend(tmpFiles, StableSorted(current), k);
    }
  }

  const REC_MEM_FOOT := 8

  class RecordSorter {
    const maxMemSize: int
    var currentMemSize: int
    var currentRecords: seq<Pair>
    var tmpFiles: seq<seq<Pair>>
    var skipRecords: seq<seq<Pair>>
    var slots: seq<seq<Pair>>
    var finished: bool
    ghost var added: seq<Pair>

    /** The sources given: the skip database files as they are, and the records added one by one. */
    ghost predicate Valid()
      reads this
    {
      if finished then AllAscending(slots) else AllAscending(skipRecords) && Gathered(tmpFiles, currentRecords, added)
    }

    /** All that is given, in the order of the sources. */
    ghost function Given(): seq<Pair>
      reads this
    {
      Flat(skipRecords) + added
    }

    /** What is still to come out. */
    ghost function Remaining(): seq<Pair>
      reads this
    {
      StableSorted(Flat(slots))
    }

    constructor (maxMemSize: int)
      ensures Valid() && !finished && added == [] && skipRecords == []
    {
      this.maxMemSize, currentMemSize, currentRecords, tmpFiles := maxMemSize, 0, [], [];
      skipRecords, slots, finished, added := [], [], false, [];
    }

    method Add(key: Key, value: Value)
      requires Valid() && !finished
      modifies this
      ensures Valid() && !finished && added == old(added) + [Pair(key, value)] && skipRecords == old(skipRecords)
    {
      GatherOne(tmpFiles, currentRecords, added, Pair(key, value));
      currentMemSize := currentMemSize + SizeVarNum(|key|) + |key| + SizeVarNum(|value|) + |value| + REC_MEM_FOOT;
      currentRecords := currentRecords + [Pair(key, value)];
      added := added + [Pair(key, value)];
      if |currentRecords| > 0 && currentMemSize >= maxMemSize {
        Flush();
      }
    }

    method AddSkipRecord(contents: seq<Pair>)
      requires Valid() && !finished && Ascending(contents)
      modifies this`skipRecords
      ensures Valid() && skipRecords == old(skipRecords) + [contents]
    {
      skipRecords := skipRecords + [contents];
    }

    /** The records in memory go to a file of their own, sorted. */
    method Flush()
      requires Valid() && !finished
      modifies this`currentMemSize, this`currentRecords, this`tmpFiles
      ensures Valid() && currentRecords == []
    {
      GatherFlushed(tmpFiles, currentRecords, added);
      tmpFiles := tmpFiles + [StableSorted(currentRecords)];
      currentRecords, currentMemSize := [], 0;
    }

    /** The sources become slots: the skip database files first, then the temporary files. */
    method Finish()
      requires Valid() && !finished
      modifies this
      ensures Valid() && finished && Remaining() == StableSorted(old(Given()))
    {
      if |currentRecords| > 0 {
        Flush();
      }
      SourcesSort(skipRecords, tmpFiles, currentRecords, added);
      slots := skipRecords + tmpFiles;
      finished := true;
    }

    /** The least pair of all slots, or none if they are exhausted. */
    method Get() returns (res: Option<Pair>)
      requires Valid() && finished
      modifies this`slots
      ensures Valid()
      ensures res == if |old(Remaining())| == 0 then None else Some(old(Remaining())[0])
      ensures Remaining() == if |old(Remaining())| == 0 then [] else old(Remaining())[1..]
    {
      var j := PopHeap();
      if j == |slots| {
        Exhausted(slots);
        return None;
      }
      LeastIsNext(slots, j, slots[j := slots[j][1..]]);
      res := Some(slots[j][0]);
      slots := slots[j := slots[j][1..]];
    }

    /** The slot with the least key, the first of them if there are several: the top of the heap. */
    method PopHeap() returns (j: nat)
      requires finished
      ensures j <= |slots|
      ensures j == |slots| ==> forall i :: 0 <= i < |slots| ==> slots[i] == []
      ensures j < |slots| ==> Least(slots, j)
    {
      j := |slots|;
      for i := 0 to |slots|
        invariant j < i || j == |slots|
        invariant j == |slots| ==> forall x :: 0 <= x < i ==> slots[x] == []
        invariant j < |slots| ==> |slots[j]| > 0 && Least(slots[..i], j)
      {
        if |slots[i]| > 0 {
          if j == |slots| {
            LessIrreflexive(slots[i][0].key);
            j := i;
          } else if Less(slots[i][0].key, slots[j][0].key) {
            forall x | 0 <= x < i && |slots[x]| > 0
              ensures Less(slots[i][0].key, slots[x][0].key)
            {
              assert slots[..i][x] == slots[x];
              LessAtMost(slots[i][0].key, slots[j][0].key, slots[x][0].key);
              if x < j { LessTransitive(slots[i][0].key, slots[j][0].key, slots[x][0].key); }
            }
            LessIrreflexive(slots[i][0].key);
            j := i;
          } else {
            forall x | 0 <= x < i ensures slots[..i][x] == slots[..i + 1][x] { }
          }
        } else {
          forall x | 0 <= x < i ensures slots[..i][x] == slots[..i + 1][x] { }
        }
      }
      assert slots[..|slots|] == slots;
    }
  }

  lemma {:induction false} Exhausted(sources: seq<seq<Pair>>)
    requires forall j :: 0 <= j < |sources| ==> sources[j] == []
    ensures Flat(sources) == [] && StableSorted(Flat(sources)) == []
  {
    if |sources| > 0 { Exhausted(sources[..|sources| - 1]); }
  }

  /** No source has a key below the least one. */
  lemma {:induction false} NothingBelow(sources: seq<seq<Pair>>, j: nat, n: nat, k: Key)
    requires Least(sources, j) && AllAscending(sources) && n <= |sources|
    ensures AllOfKey(sources[..n], k) != [] ==> AtMost(sources[j][0].key, k)
  {
    if n > 0 {
      var e, least := n - 1, sources[j][0].key;
      NothingBelow(sources, j, e, k);
      assert sources[..n][..e] == sources[..e];
      OfKeyNone(sources[e], k);
      if OfKey(sources[e], k) != [] {
        var i :| 0 <= i < |sources[e]| && sources[e][i].key == k;
        LessIrreflexive(k);
        LessAtMost(least, sources[e][0].key, k);
        if e < j { LessAsymmetric(least, sources[e][0].key); }
      }
    }
  }
}
