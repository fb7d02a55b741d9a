/**
 The record section of the hash database and its index, as values: the tiling of the section by
 records, the bucket chains through it, and what replaying it as a log of operations yields.
 */
module HashStore {
  import opened Basics
  import opened Multiples
  import opened HashFormat

  type Records = map<Offset, HashRecord>

  // ---------------------------------------------------------------- tiling

  /** Where the record after the i-th one begins: at the next one, or at the end of the file. */
  ghost function Behind(order: seq<Offset>, end: Offset, i: nat): Offset
    requires i < |order|
  {
    if i + 1 < |order| then order[i + 1] else end
  }

  ghost predicate TileOK(order: seq<Offset>, records: Records, end: Offset, f: Format, i: nat)
    requires i < |order| && f.align >= 1
  {
    && order[i] in records && order[i] > 0
    && var r := records[order[i]];
       && r.size > 0 && Aligned(r.size, f.align) && r.size >= BaseSize(f, |r.key|, |r.value|)
       && order[i] + r.size == Behind(order, end, i)
  }

  /** The records at the offsets of `order` fill the section from `base` to `end` without gap or overlap. */
  ghost predicate Tiled(order: seq<Offset>, records: Records, base: Offset, end: Offset, f: Format)
    requires f.align >= 1
  {
    && 0 < base <= end
    && (if |order| == 0 then end == base else order[0] == base)
    && (forall i {:trigger TileOK(order, records, end, f, i)} :: 0 <= i < |order| ==> TileOK(order, records, end, f, i))
    && (forall o :: o in records <==> o in order)
  }

  lemma {:induction false} OrderAscends(order: seq<Offset>, records: Records, base: Offset, end: Offset, f: Format,
                                        i: nat, j: nat)
    requires f.align >= 1 && Tiled(order, records, base, end, f) && i < j < |order|
    ensures order[i] in records && order[i] + records[order[i]].size <= order[j]
  {
    assert TileOK(order, records, end, f, i) && TileOK(order, records, end, f, j - 1);
    if i + 1 < j {
      OrderAscends(order, records, base, end, f, i, j - 1);
    }
  }

  lemma OffsetBelowEnd(order: seq<Offset>, records: Records, base: Offset, end: Offset, f: Format, i: nat)
    requires f.align >= 1 && Tiled(order, records, base, end, f) && i < |order|
    ensures base <= order[i] && order[i] + records[order[i]].size <= end
  {
    var e := |order| - 1;
    assert TileOK(order, records, end, f, e) && TileOK(order, records, end, f, i);
    if i < e { OrderAscends(order, records, base, end, f, i, e); }
    if 0 < i { OrderAscends(order, records, base, end, f, 0, i); }
    assert TileOK(order, records, end, f, 0);
  }

  /** No two records of the section share a byte. */
  lemma RecordsDisjoint(order: seq<Offset>, records: Records, base: Offset, end: Offset, f: Format, a: Offset,
                        b: Offset)
    requires f.align >= 1 && Tiled(order, records, base, end, f) && a in records && b in records && a != b
    ensures a + records[a].size <= b || b + records[b].size <= a
    ensures base <= a && a + records[a].size <= end
  {
    assert a in order && b in order;
    var i :| 0 <= i < |order| && order[i] == a;
    var j :| 0 <= j < |order| && order[j] == b;
    OffsetBelowEnd(order, records, base, end, f, i);
    if i < j { OrderAscends(order, records, base, end, f, i, j); }
        else { OrderAscends(order, records, base, end, f, j, i); }
  }

  /** And no byte of the section belongs to none of them. */
  lemma RecordsCover(order: seq<Offset>, records: Records, base: Offset, end: Offset, f: Format, p: Offset)
    requires f.align >= 1 && Tiled(order, records, base, end, f) && base <= p < end
    ensures exists o :: o in records && o <= p < o + records[o].size
  {
    var i := TileAt(order, records, base, end, f, p, 0);
    assert order[i] in records;
  }

  lemma {:induction false} TileAt(order: seq<Offset>, records: Records, base: Offset, end: Offset, f: Format,
                                  p: Offset, i: nat)
    returns (j: nat)
    requires f.align >= 1 && Tiled(order, records, base, end, f) && p < end
    requires i < |order| && order[i] <= p
    ensures j < |order| && order[j] in records && order[j] <= p < order[j] + records[order[j]].size
    decreases |order| - i
  {
    assert TileOK(order, records, end, f, i);
    if p < order[i] + records[order[i]].size {
      j := i;
    } else {
      j := TileAt(order, records, base, end, f, p, i + 1);
    }
  }

  /** A record that takes the place of one of the same size leaves the tiling in place. */
  lemma TiledReplace(order: seq<Offset>, records: Records, base: Offset, end: Offset, f: Format, o: Offset,
                     r: HashRecord)
    requires f.align >= 1 && Tiled(order, records, base, end, f) && o in records && r.size == records[o].size
    requires r.size >= BaseSize(f, |r.key|, |r.value|)
    ensures Tiled(order, records[o := r], base, end, f)
  {
    var records' := records[o := r];
    forall i | 0 <= i < |order|
      ensures TileOK(order, records', end, f, i)
    {
      assert TileOK(order, records, end, f, i);
    }
  }

  /** A record appended at the end of the file extends the tiling by one. */
  lemma TiledAppend(order: seq<Offset>, records: Records, base: Offset, end: Offset, f: Format, r: HashRecord)
    requires f.align >= 1 && Tiled(order, records, base, end, f)
    requires r.size > 0 && Aligned(r.size, f.align) && r.size >= BaseSize(f, |r.key|, |r.value|)
    ensures end !in records
    ensures Tiled(order + [end], records[end := r], base, end + r.size, f)
  {
    var order', records' := order + [end], records[end := r];
    forall i {:trigger order[i]} | 0 <= i < |order|
      ensures order[i] < end
    {
      OffsetBelowEnd(order, records, base, end, f, i);
      assert TileOK(order, records, end, f, i);
    }
    forall i {:trigger TileOK(order', records', end + r.size, f, i)} | 0 <= i < |order'|
      ensures TileOK(order', records', end + r.size, f, i)
    {
      if i < |order| {
        assert TileOK(order, records, end, f, i);
      }
    }
  }

  // ---------------------------------------------------------------- chains

  ghost predicate LinkOK(chain: seq<Offset>, records: Records, i: nat)
    requires i < |chain|
  {
    && chain[i] in records && chain[i] > 0
    && records[chain[i]].op != OpVoid
    && records[chain[i]].child == (if i + 1 < |chain| then chain[i + 1] else 0)
  }

  /** From a bucket's value, following child offsets passes through `chain` and ends. */
  ghost predicate ChainLinked(chain: seq<Offset>, records: Records, head: Offset) {
    && head == (if |chain| > 0 then chain[0] else 0)
    && forall i {:trigger LinkOK(chain, records, i)} :: 0 <= i < |chain| ==> LinkOK(chain, records, i)
  }

  /** Every key in the chain of a bucket belongs to that bucket. */
  ghost predicate ChainHome(chain: seq<Offset>, records: Records, hash: Key -> nat, n: nat, b: nat)
    requires n > 0
  {
    forall i :: 0 <= i < |chain| ==> chain[i] in records && Slot(hash(records[chain[i]].key), n) == b
  }

  ghost predicate ChainOK(chain: seq<Offset>, records: Records, head: Offset, hash: Key -> nat, n: nat, b: nat)
    requires n > 0
  {
    ChainLinked(chain, records, head) && ChainHome(chain, records, hash, n, b)
  }

  ghost predicate ChainsOK(chains: seq<seq<Offset>>, records: Records, buckets: seq<Offset>, hash: Key -> nat) {
    && |chains| == |buckets| > 0
    && forall b {:trigger ChainOK(chains[b], records, buckets[b], hash, |buckets|, b)} ::
         0 <= b < |buckets| ==> ChainOK(chains[b], records, buckets[b], hash, |buckets|, b)
  }

  /** The first record of a chain with a key, 0 if there is none. */
  ghost function First(chain: seq<Offset>, records: Records, k: Key): Offset {
    if |chain| == 0 then 0
    else if chain[0] in records && records[chain[0]].key == k then chain[0]
    else First(chain[1..], records, k)
  }

  ghost predicate About(records: Records, o: Offset, k: Key) {
    o in records && records[o].op != OpVoid && records[o].key == k
  }

  /** The one record about a key is at `w`; with 0 there is none. */
  ghost predicate Sole(records: Records, k: Key, w: Offset) {
    (w != 0 ==> About(records, w, k)) && forall o {:trigger About(records, o, k)} :: About(records, o, k) ==> o == w
  }

  /** The last record of the log that is about a key, 0 if there is none. */
  ghost function LastOf(order: seq<Offset>, records: Records, k: Key): Offset {
    if |order| == 0 then 0
    else if About(records, order[|order| - 1], k) then order[|order| - 1]
    else LastOf(order[..|order| - 1], records, k)
  }

  /** What a record says about its key. */
  ghost function Told(records: Records, o: Offset): Option<Value> {
    if o in records && (records[o].op == OpSet || records[o].op == OpAdd) then Some(records[o].value) else None
  }

  ghost function Get(m: map<Key, Value>, k: Key): Option<Value> {
    if k in m then Some(m[k]) else None
  }

  lemma {:induction false} FirstAt(chain: seq<Offset>, records: Records, k: Key, i: nat)
    requires i <= |chain| && forall j :: 0 <= j < |chain| ==> chain[j] in records
    requires forall j :: 0 <= j < i ==> records[chain[j]].key != k
    requires i < |chain| ==> records[chain[i]].key == k
    ensures First(chain, records, k) == if i < |chain| then chain[i] else 0
  {
    if i > 0 {
      FirstAt(chain[1..], records, k, i - 1);
    }
  }

  lemma {:induction false} FirstFrame(chain: seq<Offset>, records: Records, records': Records, k: Key)
    requires forall j :: 0 <= j < |chain| ==>
               chain[j] in records && chain[j] in records' && records'[chain[j]].key == records[chain[j]].key
    ensures First(chain, records', k) == First(chain, records, k)
  {
    if |chain| > 0 {
      FirstFrame(chain[1..], records, records', k);
    }
  }

  lemma {:induction false} FirstMember(chain: seq<Offset>, records: Records, k: Key)
    ensures First(chain, records, k) == 0 ||
            (First(chain, records, k) in chain && First(chain, records, k) in records
             && records[First(chain, records, k)].key == k)
  {
    if |chain| > 0 && !(chain[0] in records && records[chain[0]].key == k) {
      FirstMember(chain[1..], records, k);
    }
  }

  lemma {:induction false} LastFrame(order: seq<Offset>, records: Records, records': Records, k: Key)
    requires forall o :: o in order ==> o in records && o in records' && records'[o] == records[o]
    ensures LastOf(order, records', k) == LastOf(order, records, k)
  {
    if |order| > 0 {
      var e := |order| - 1;
      assert order[e] in order;
      forall o | o in order[..e] ensures o in order { }
      LastFrame(order[..e], records, records', k);
    }
  }

  /** If one record at most is about a key, it is the last one about it. */
  lemma {:induction false} LastUnique(order: seq<Offset>, records: Records, k: Key, w: Offset)
    requires Sole(records, k, w) && 0 !in order && (w != 0 ==> w in order)
    ensures LastOf(order, records, k) == w
  {
    if |order| > 0 {
      var e := |order| - 1;
      if !About(records, order[e], k) {
        assert w != 0 ==> w in order[..e];
        LastUnique(order[..e], records, k, w);
      }
    }
  }

  // ---------------------------------------------------------------- index and log

  ghost predicate KeysDistinct(chain: seq<Offset>, records: Records) {
    forall i, j :: 0 <= i < j < |chain| && chain[i] in records && chain[j] in records ==>
      records[chain[i]].key != records[chain[j]].key
  }

  /** Updating in place, every record but the void ones is reachable, and no key has two. */
  ghost predicate InPlaceOK(records: Records, chains: seq<seq<Offset>>, hash: Key -> nat) {
    && |chains| > 0
    && (forall o {:trigger Reached(o, records, chains, hash)} :: o in records ==> Reached(o, records, chains, hash))
    && (forall b {:trigger KeysDistinct(chains[b], records)} :: 0 <= b < |chains| ==> KeysDistinct(chains[b], records))
  }

  ghost predicate Reached(o: Offset, records: Records, chains: seq<seq<Offset>>, hash: Key -> nat)
    requires o in records && |chains| > 0
  {
    records[o].op != OpVoid ==>
      records[o].op != OpRemove && o in chains[Slot(hash(records[o].key), |chains|)]
  }

  /** The index, the log and the stored map agree about a key. */
  ghost predicate Agree(order: seq<Offset>, records: Records, chains: seq<seq<Offset>>, hash: Key -> nat,
                        live: map<Key, Value>, k: Key)
    requires |chains| > 0
  {
    var found := First(chains[Slot(hash(k), |chains|)], records, k);
    found == LastOf(order, records, k) && Told(records, found) == Get(live, k)
  }

  /** For every key the first match in its bucket's chain is the last record about it in the log. */
  ghost predicate IndexOK(order: seq<Offset>, records: Records, chains: seq<seq<Offset>>, hash: Key -> nat,
                          live: map<Key, Value>)
  {
    |chains| > 0 && forall k {:trigger Agree(order, records, chains, hash, live, k)} ::
        Agree(order, records, chains, hash, live, k)
  }

  /** With one record a key and all of them reachable, a chain finds the one record about a key. */
  lemma FirstIsSole(records: Records, chains: seq<seq<Offset>>, buckets: seq<Offset>, hash: Key -> nat, k: Key)
    requires ChainsOK(chains, records, buckets, hash) && InPlaceOK(records, chains, hash)
    ensures Sole(records, k, First(chains[Slot(hash(k), |chains|)], records, k))
  {
    var b := Slot(hash(k), |chains|);
    var c := chains[b];
    var w := First(c, records, k);
    assert ChainOK(c, records, buckets[b], hash, |buckets|, b) && KeysDistinct(c, records);
    FirstMember(c, records, k);
    forall i | 0 <= i < |c| ensures c[i] in records && records[c[i]].op != OpVoid { assert LinkOK(c, records, i); }
    if w != 0 {
      var j :| 0 <= j < |c| && c[j] == w;
      assert LinkOK(c, records, j);
    }
    forall o {:trigger About(records, o, k)} | About(records, o, k)
      ensures o == w
    {
      assert Reached(o, records, chains, hash);
      var i :| 0 <= i < |c| && c[i] == o;
      FirstAt(c, records, k, i);
    }
  }

  /** Updating in place, the chains find what the log tells. */
  lemma InPlaceFinds(order: seq<Offset>, records: Records, chains: seq<seq<Offset>>, buckets: seq<Offset>,
                     base: Offset, end: Offset, f: Format, hash: Key -> nat, k: Key, w: Offset)
    requires f.align >= 1 && Tiled(order, records, base, end, f)
    requires ChainsOK(chains, records, buckets, hash) && InPlaceOK(records, chains, hash)
    requires Sole(records, k, w)
    ensures First(chains[Slot(hash(k), |chains|)], records, k) == w
    ensures LastOf(order, records, k) == w
  {
    FirstIsSole(records, chains, buckets, hash, k);
    ZeroNotInOrder(order, records, base, end, f);
    var v := First(chains[Slot(hash(k), |chains|)], records, k);
    assert v != 0 ==> About(records, v, k);
    LastUnique(order, records, k, w);
  }

  lemma ZeroNotInOrder(order: seq<Offset>, records: Records, base: Offset, end: Offset, f: Format)
    requires f.align >= 1 && Tiled(order, records, base, end, f)
    ensures 0 !in order
  {
    forall i | 0 <= i < |order| ensures order[i] != 0 { assert TileOK(order, records, end, f, i); }
  }

  /** A change of one bucket's chain leaves the others in order. */
  lemma OtherChains(chains: seq<seq<Offset>>, records: Records, buckets: seq<Offset>, hash: Key -> nat,
                    b: nat, c: seq<Offset>, records': Records, head: Offset)
    requires ChainsOK(chains, records, buckets, hash) && b < |buckets| && 0 !in records && 0 !in records'
    requires ChainOK(c, records', head, hash, |buckets|, b)
    requires forall o :: o in records && records[o].op != OpVoid && Slot(hash(records[o].key), |buckets|) != b ==>
               o in records' && records'[o] == records[o]
    ensures ChainsOK(chains[b := c], records', buckets[b := head], hash)
    ensures forall k :: Slot(hash(k), |buckets|) != b ==>
              First(chains[Slot(hash(k), |buckets|)], records', k)
                  == First(chains[Slot(hash(k), |buckets|)], records, k)
              && Told(records', First(chains[Slot(hash(k), |buckets|)], records, k))
                 == Told(records, First(chains[Slot(hash(k), |buckets|)], records, k))
    ensures forall a :: 0 <= a < |chains| && a != b ==> forall i :: 0 <= i < |chains[a]| ==>
              chains[a][i] in records && chains[a][i] in records' && records'[chains[a][i]] == records[chains[a][i]]
  {
    var chains', buckets', n := chains[b := c], buckets[b := head], |buckets|;
    forall a | 0 <= a < n && a != b
      ensures ChainOK(chains[a], records', buckets[a], hash, n, a)
      ensures forall i :: 0 <= i < |chains[a]| ==>
                chains[a][i] in records && chains[a][i] in records' && records'[chains[a][i]] == records[chains[a][i]]
    {
      assert ChainOK(chains[a], records, buckets[a], hash, n, a);
      forall i | 0 <= i < |chains[a]|
        ensures LinkOK(chains[a], records', i)
        ensures chains[a][i] in records && chains[a][i] in records' && records'[chains[a][i]] == records[chains[a][i]]
      {
        assert LinkOK(chains[a], records, i);
      }
    }
    forall a | 0 <= a < n
      ensures ChainOK(chains'[a], records', buckets'[a], hash, n, a)
    {
    }
    forall k | Slot(hash(k), n) != b
      ensures First(chains[Slot(hash(k), n)], records', k) == First(chains[Slot(hash(k), n)], records, k)
      ensures Told(records', First(chains[Slot(hash(k), n)], records, k))
              == Told(records, First(chains[Slot(hash(k), n)], records, k))
    {
      var a := Slot(hash(k), n);
      FirstFrame(chains[a], records, records', k);
      FirstMember(chains[a], records, k);
      ZeroToldNothing(chains, records, records', buckets, hash, a, k);
    }
  }

  lemma ZeroToldNothing(chains: seq<seq<Offset>>, records: Records, records': Records, buckets: seq<Offset>,
                        hash: Key -> nat, a: nat, k: Key)
    requires |chains| == |buckets| && a < |buckets|
    requires forall i :: 0 <= i < |chains[a]| ==>
               chains[a][i] in records && chains[a][i] in records' && records'[chains[a][i]] == records[chains[a][i]]
    requires 0 !in records && 0 !in records'
    ensures Told(records', First(chains[a], records, k)) == Told(records, First(chains[a], records, k))
  {
    FirstMember(chains[a], records, k);
  }

  // ---------------------------------------------------------------- collecting the keys of a bucket

  /** Among the first `i` records of the chain is one of the key. */
  ghost predicate Seen(chain: seq<Offset>, records: Records, i: nat, k: Key)
    requires i <= |chain| && forall j :: 0 <= j < |chain| ==> chain[j] in records
  {
    exists j :: 0 <= j < i && records[chain[j]].key == k
  }

  /** The keys collected and the ones found dead, after the first `i` records of a chain. */
  ghost predicate Collected(chain: seq<Offset>, records: Records, i: nat, keys: set<Key>, dead: set<Key>)
    requires i <= |chain| && forall j :: 0 <= j < |chain| ==> chain[j] in records
  {
    && (forall k {:trigger Seen(chain, records, i, k)} :: Seen(chain, records, i, k) <==> k in keys || k in dead)
    && (forall k :: k in keys ==> Told(records, First(chain, records, k)).Some?)
    && (forall k :: k in dead && k !in keys ==> Told(records, First(chain, records, k)) == None)
  }

  lemma CollectStep(chain: seq<Offset>, records: Records, i: nat, m: nat, keys: set<Key>, dead: set<Key>,
                    keys': set<Key>, dead': set<Key>)
    requires i < m == i + 1 <= |chain| && forall j :: 0 <= j < |chain| ==> chain[j] in records
    requires Collected(chain, records, i, keys, dead)
    requires var r := records[chain[i]];
             && r.op != OpVoid
             && keys' == (if r.key !in dead && (r.op == OpSet || r.op == OpAdd) then keys + {r.key} else keys)
             && dead' == (if r.key !in dead && r.op == OpRemove then dead + {r.key} else dead)
    ensures Collected(chain, records, m, keys', dead')
  {
    var key := records[chain[i]].key;
    if !Seen(chain, records, i, key) {
      FirstAt(chain, records, key, i);
    }
    forall k {:trigger Seen(chain, records, m, k)}
      ensures Seen(chain, records, m, k) <==> k in keys' || k in dead'
    {
      assert Seen(chain, records, m, k) <==> Seen(chain, records, i, k) || k == key by {
        if k == key { assert records[chain[i]].key == k; }
      }
    }
  }

  lemma CollectEnd(chain: seq<Offset>, records: Records, keys: set<Key>, dead: set<Key>, k: Key)
    requires forall j :: 0 <= j < |chain| ==> chain[j] in records
    requires Collected(chain, records, |chain|, keys, dead) && 0 !in records
    ensures k in keys <==> Told(records, First(chain, records, k)).Some?
  {
    if !Seen(chain, records, |chain|, k) { FirstAt(chain, records, k, |chain|); }
  }
}
