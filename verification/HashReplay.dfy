/**
 The record section read as a log: replaying it forward gives the map seen through the index, and
 so does reading it backward with a set of dead keys.
 */
module HashReplay {
  import opened Basics
  import opened HashFormat
  import opened HashStore
  import opened HashUpdate

  ghost predicate InFile(order: seq<Offset>, records: Records) {
    forall i :: 0 <= i < |order| ==> order[i] in records
  }

  /** The records of the section in file order. */
  ghost function Log(order: seq<Offset>, records: Records): (log: seq<HashRecord>)
    requires InFile(order, records)
    ensures |log| == |order| && forall i {:trigger log[i]} :: 0 <= i < |order| ==> log[i] == records[order[i]]
  {
    if |order| == 0 then [] else Log(order[..|order| - 1], records) + [records[order[|order| - 1]]]
  }

  ghost function Replayed(m: map<Key, Value>, log: seq<HashRecord>): map<Key, Value> {
    if |log| == 0 then m else Applied(Replayed(m, log[..|log| - 1]), log[|log| - 1])
  }

  /** Some record of the log is about the key. */
  ghost predicate Mentions(log: seq<HashRecord>, k: Key) {
    exists i :: 0 <= i < |log| && log[i].op != OpVoid && log[i].key == k
  }

  lemma {:induction false} ReplayedGet(order: seq<Offset>, records: Records, k: Key)
    requires InFile(order, records)
    requires 0 !in records
    ensures Get(Replayed(map[], Log(order, records)), k) == Told(records, LastOf(order, records, k))
  {
    if |order| > 0 {
      var e := |order| - 1;
      ReplayedGet(order[..e], records, k);
      assert Log(order, records)[..e] == Log(order[..e], records);
    }
  }

  /** The index and the log agree: replaying the section forward rebuilds the map seen through the chains. */
  lemma IndexAndLogAgree(f: Format, base: Offset, order: seq<Offset>, records: Records, end: Offset,
                         buckets: seq<Offset>, chains: seq<seq<Offset>>, hash: Key -> nat, live: map<Key, Value>,
                         inPlace: bool)
    requires Consistent(f, base, order, records, end, buckets, chains, hash, live, inPlace)
    ensures InFile(order, records)
    ensures Replayed(map[], Log(order, records)) == live
  {
    OffsetsPositive(order, records, base, end, f);
    forall i | 0 <= i < |order| ensures order[i] in records { assert TileOK(order, records, end, f, i); }
    var m := Replayed(map[], Log(order, records));
    forall k ensures Get(m, k) == Get(live, k) {
      assert Agree(order, records, chains, hash, live, k);
      ReplayedGet(order, records, k);
    }
    SameMap(m, live);
  }

  lemma SameMap(m: map<Key, Value>, n: map<Key, Value>)
    requires forall k :: Get(m, k) == Get(n, k)
    ensures m == n
  {
    forall k ensures k in m <==> k in n { assert Get(m, k) == Get(n, k); }
    forall k | k in m ensures m[k] == n[k] { assert Get(m, k) == Get(n, k); }
  }

  lemma {:induction false} ReplayedConcat(m: map<Key, Value>, a: seq<HashRecord>, b: seq<HashRecord>)
    ensures Replayed(m, a + b) == Replayed(Replayed(m, a), b)
  {
    if |b| == 0 {
      assert a + b == a;
    } else {
      var e := |b| - 1;
      ReplayedConcat(m, a, b[..e]);
      assert (a + b)[..|a| + e] == a + b[..e];
    }
  }

  /** Later records decide; what came before counts for the keys they do not mention. */
  lemma {:induction false} ReplayedAfter(m: map<Key, Value>, log: seq<HashRecord>, k: Key)
    ensures Get(Replayed(m, log), k) == if Mentions(log, k) then Get(Replayed(map[], log), k) else Get(m, k)
  {
    if |log| > 0 {
      var e := |log| - 1;
      ReplayedAfter(m, log[..e], k);
      MentionsLast(log, k);
    }
  }

  lemma MentionsLast(log: seq<HashRecord>, k: Key)
    requires |log| > 0
    ensures Mentions(log, k) <==>
              Mentions(log[..|log| - 1], k) || (log[|log| - 1].op != OpVoid && log[|log| - 1].key == k)
  {
    var e := |log| - 1;
    if Mentions(log, k) {
      var i :| 0 <= i < |log| && log[i].op != OpVoid && log[i].key == k;
      if i < e { assert log[..e][i] == log[i]; }
    }
    if Mentions(log[..e], k) {
      var i :| 0 <= i < e && log[..e][i].op != OpVoid && log[..e][i].key == k;
      assert log[i] == log[..e][i];
    }
  }

  lemma MentionsFront(r: HashRecord, log: seq<HashRecord>, k: Key)
    ensures Mentions([r] + log, k) <==> Mentions(log, k) || (r.op != OpVoid && r.key == k)
  {
    var s := [r] + log;
    if Mentions(s, k) {
      var i :| 0 <= i < |s| && s[i].op != OpVoid && s[i].key == k;
      if i > 0 { assert log[i - 1] == s[i]; }
    }
    if Mentions(log, k) {
      var i :| 0 <= i < |log| && log[i].op != OpVoid && log[i].key == k;
      assert s[i + 1] == log[i];
    }
    if r.op != OpVoid && r.key == k { assert s[0] == r; }
  }

  // ---------------------------------------------------------------- backward

  /** The stored map and the dead keys after the records of `suffix` have been read, last one first. */
  ghost predicate ReadBack(suffix: seq<HashRecord>, live: map<Key, Value>, dead: set<Key>) {
    && live == Replayed(map[], suffix)
    && forall k :: k in dead <==> Mentions(suffix, k) && k !in live
  }

  /** What one more record does, going backward. */
  ghost function BackLive(live: map<Key, Value>, dead: set<Key>, r: HashRecord): map<Key, Value> {
    if (r.op == OpSet || r.op == OpAdd) && r.key !in dead && r.key !in live then live[r.key := r.value] else live
  }

  ghost function BackDead(live: map<Key, Value>, dead: set<Key>, r: HashRecord): set<Key> {
    if r.op == OpRemove && r.key !in live then dead + {r.key} else dead
  }

  lemma ReadBackStep(r: HashRecord, suffix: seq<HashRecord>, live: map<Key, Value>, dead: set<Key>)
    requires ReadBack(suffix, live, dead)
    ensures ReadBack([r] + suffix, BackLive(live, dead, r), BackDead(live, dead, r))
  {
    var live', dead' := BackLive(live, dead, r), BackDead(live, dead, r);
    var all := [r] + suffix;
    ReplayedConcat(map[], [r], suffix);
    assert Replayed(map[], [r]) == Applied(map[], r) by { assert [r][..0] == []; }
    forall k
      ensures Get(live', k) == Get(Replayed(map[], all), k)
      ensures k in dead' <==> Mentions(all, k) && k !in live'
    {
      ReplayedAfter(Applied(map[], r), suffix, k);
      MentionsFront(r, suffix, k);
      NotMentioned(suffix, k);
    }
    SameMap(live', Replayed(map[], all));
  }

  lemma NotMentioned(log: seq<HashRecord>, k: Key)
    ensures !Mentions(log, k) ==> k !in Replayed(map[], log)
  {
    ReplayedAfter(map[], log, k);
    assert Get(map[], k) == None;
  }
}
