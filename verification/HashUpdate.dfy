/**
 Updates of the hash database as changes of values: a record is spliced in or out of its bucket's
 chain in place, or a new one is put in front of the chain. Each change keeps the record section
 tiled, the chains in order, and the index in agreement with the log and the stored map.
 */
module HashUpdate {
  import opened Multiples
  import opened Basics
  import opened HashFormat
  import opened HashStore

  /** Everything the record section, the index and the stored map owe each other. */
  ghost predicate Consistent(f: Format, base: Offset, order: seq<Offset>, records: Records, end: Offset,
                             buckets: seq<Offset>, chains: seq<seq<Offset>>, hash: Key -> nat,
                             live: map<Key, Value>, inPlace: bool)
  {
    && f.align >= 1
    && Tiled(order, records, base, end, f)
    && ChainsOK(chains, records, buckets, hash)
    && IndexOK(order, records, chains, hash, live)
    && (inPlace ==> InPlaceOK(records, chains, hash))
  }

  ghost predicate Fits(r: HashRecord, f: Format)
    requires f.align >= 1
  {
    r.size > 0 && Aligned(r.size, f.align) && r.size >= BaseSize(f, |r.key|, |r.value|)
  }

  /**
   Updating in place, no record is a removal, no two are about the same key, and each one about a key is
   in the chain of its bucket and has the stored value.
   */
  lemma InPlaceExact(f: Format, base: Offset, order: seq<Offset>, records: Records, end: Offset,
                     buckets: seq<Offset>, chains: seq<seq<Offset>>, hash: Key -> nat, live: map<Key, Value>, k: Key)
    requires Consistent(f, base, order, records, end, buckets, chains, hash, live, true)
    ensures forall o :: o in records ==> records[o].op != OpRemove
    ensures k in live <==> exists o :: o in records && records[o].op != OpVoid && records[o].key == k
    ensures forall o :: o in records && records[o].op != OpVoid && records[o].key == k ==>
              && k in live && records[o].value == live[k] && o in chains[Slot(hash(k), |chains|)]
              && forall p :: p in records && records[p].op != OpVoid && records[p].key == k ==> p == o
  {
    forall o | o in records
      ensures records[o].op != OpRemove
      ensures records[o].op != OpVoid && records[o].key == k ==> o in chains[Slot(hash(k), |chains|)]
    {
      assert Reached(o, records, chains, hash);
    }
    var w := First(chains[Slot(hash(k), |chains|)], records, k);
    FirstIsSole(records, chains, buckets, hash, k);
    assert Agree(order, records, chains, hash, live, k);
    OffsetsPositive(order, records, base, end, f);
    forall o | o in records && records[o].op != OpVoid && records[o].key == k
      ensures o == w
    {
      assert About(records, o, k);
    }
  }

  /** A record is written at the end of the file, or over a void record of exactly its size. */
  ghost predicate Placed(order: seq<Offset>, records: Records, end: Offset, p: Offset, r: HashRecord,
                         order': seq<Offset>, end': Offset)
  {
    || (p == end && order' == order + [p] && end' == end + r.size)
    || (p in records && records[p].op == OpVoid && records[p].size == r.size && order' == order && end' == end)
  }

  lemma PlacedTiled(order: seq<Offset>, records: Records, base: Offset, end: Offset, f: Format, p: Offset,
                    r: HashRecord,
                    order': seq<Offset>, end': Offset)
    requires f.align >= 1 && Tiled(order, records, base, end, f) && Fits(r, f)
    requires Placed(order, records, end, p, r, order', end')
    ensures Tiled(order', records[p := r], base, end', f)
    ensures p > 0 && (p in records ==> records[p].op == OpVoid)
  {
    if p in records && records[p].op == OpVoid && records[p].size == r.size && order' == order && end' == end {
      TiledReplace(order, records, base, end, f, p, r);
      OffsetsPositive(order, records, base, end, f);
    } else {
      TiledAppend(order, records, base, end, f, r);
    }
  }

  lemma OffsetsPositive(order: seq<Offset>, records: Records, base: Offset, end: Offset, f: Format)
    requires f.align >= 1 && Tiled(order, records, base, end, f)
    ensures forall o :: o in records ==> o > 0 && o in order && Fits(records[o], f)
    ensures 0 !in records && end !in records
  {
    forall o | o in records
      ensures 0 < o < end && o in order && Fits(records[o], f)
    {
      var i :| 0 <= i < |order| && order[i] == o;
      assert TileOK(order, records, end, f, i);
      OffsetBelowEnd(order, records, base, end, f, i);
    }
  }

  // ---------------------------------------------------------------- splicing in place

  ghost function Link(chain: seq<Offset>): Offset {
    if |chain| > 0 then chain[0] else 0
  }

  /** The record at `chain[i]` gives way to the one at `mid`, if any, and the one before it is relinked. */
  ghost predicate Spliced(records: Records, records': Records, c: seq<Offset>, i: nat, mid: seq<Offset>)
    requires i < |c| && forall j :: 0 <= j < |c| ==> c[j] in records
  {
    var o := c[i];
    && |mid| <= 1
    && (i > 0 ==> c[i - 1] in records'
                  && records'[c[i - 1]] == records[c[i - 1]].(child := Link(mid + c[i + 1..])))
    && (|mid| == 1 ==>
          && mid[0] in records' && mid[0] > 0
          && (mid[0] == o || (mid[0] in records ==> records[mid[0]].op == OpVoid))
          && (records'[mid[0]].op == OpSet || records'[mid[0]].op == OpAdd)
          && records'[mid[0]].key == records[o].key && records'[mid[0]].child == records[o].child)
    && (mid != [o] ==> o in records' && records'[o].op == OpVoid)
    && (forall x {:trigger x in records} {:trigger x in records'} ::
          x != o && (|mid| == 1 ==> x != mid[0]) && (i > 0 ==> x != c[i - 1]) ==>
            (x in records <==> x in records') && (x in records ==> records'[x] == records[x]))
  }

  ghost function SpliceOf(c: seq<Offset>, i: nat, mid: seq<Offset>): seq<Offset>
    requires i < |c|
  {
    c[..i] + mid + c[i + 1..]
  }

  /** The place in the old chain that place `j` of the spliced one corresponds to. */
  ghost function Before(i: nat, mid: seq<Offset>, j: nat): nat
    requires |mid| <= 1
  {
    if j < i + |mid| then j else j + 1 - |mid|
  }

  lemma SplicedLink(c: seq<Offset>, records: Records, i: nat, records': Records, mid: seq<Offset>, j: nat)
    requires ChainLinked(c, records, Link(c)) && KeysDistinct(c, records) && i < |c|
    requires forall j :: 0 <= j < |c| ==> c[j] in records
    requires Spliced(records, records', c, i, mid) && j < |SpliceOf(c, i, mid)|
    ensures LinkOK(SpliceOf(c, i, mid), records', j)
    ensures records'[SpliceOf(c, i, mid)[j]].key == records[c[Before(i, mid, j)]].key
  {
    var c' := SpliceOf(c, i, mid);
    var k := Before(i, mid, j);
    assert LinkOK(c, records, i) && LinkOK(c, records, k);
    if j < i {
      assert c'[j] == c[j] && c[j] != c[i];
      assert j + 1 < i ==> c'[j + 1] == c[j + 1] && c[j] != c[i - 1];
      assert j + 1 == i ==> Link(mid + c[i + 1..]) == (if j + 1 < |c'| then c'[j + 1] else 0);
    } else if j >= i + |mid| {
      assert c'[j] == c[k] && c[k] != c[i];
      assert i > 0 ==> c[k] != c[i - 1];
      assert j + 1 < |c'| ==> c'[j + 1] == c[k + 1];
    } else {
      assert c'[j] == mid[0];
      assert i + 1 < |c| ==> c'[j + 1] == c[i + 1];
    }
  }

  lemma SplicedChain(c: seq<Offset>, records: Records, hash: Key -> nat, n: nat, b: nat, i: nat, records': Records,
                     mid: seq<Offset>)
    requires n > 0 && ChainOK(c, records, Link(c), hash, n, b) && KeysDistinct(c, records) && i < |c|
    requires Spliced(records, records', c, i, mid)
    ensures ChainOK(SpliceOf(c, i, mid), records', Link(SpliceOf(c, i, mid)), hash, n, b)
    ensures KeysDistinct(SpliceOf(c, i, mid), records')
  {
    var c' := SpliceOf(c, i, mid);
    forall j {:trigger LinkOK(c', records', j)} {:trigger c'[j]} | 0 <= j < |c'|
      ensures LinkOK(c', records', j) && records'[c'[j]].key == records[c[Before(i, mid, j)]].key
    {
      SplicedLink(c, records, i, records', mid, j);
    }
    forall x, y | 0 <= x < y < |c'| && c'[x] in records' && c'[y] in records'
      ensures records'[c'[x]].key != records'[c'[y]].key
    {
      var x', y' := Before(i, mid, x), Before(i, mid, y);
      assert 0 <= x' < y' < |c| && c[x'] in records && c[y'] in records;
    }
  }

  /** What was reached through the index still is, the new record too. */
  lemma SplicedReached(chains: seq<seq<Offset>>, records: Records, hash: Key -> nat, b: nat, i: nat, records': Records,
                       mid: seq<Offset>, c: seq<Offset>, c': seq<Offset>, chains': seq<seq<Offset>>, o: Offset)
    requires InPlaceOK(records, chains, hash) && b < |chains| && c == chains[b] && i < |c|
    requires forall j :: 0 <= j < |c| ==> c[j] in records
    requires Spliced(records, records', c, i, mid) && o in records'
    requires c' == SpliceOf(c, i, mid) && chains' == chains[b := c']
    requires ChainOK(c', records', Link(c'), hash, |chains|, b)
    ensures Reached(o, records', chains', hash)
  {
    if o == c[i] || (|mid| == 1 && o == mid[0]) {
      if records'[o].op != OpVoid { assert c'[i] == o; }
    } else {
      assert Reached(o, records, chains, hash);
      if records[o].op != OpVoid && Slot(hash(records[o].key), |chains|) == b {
        var j :| 0 <= j < |c| && c[j] == o;
        assert c'[if j < i then j else j - 1 + |mid|] == o;
      }
    }
  }

  lemma SplicedInPlace(chains: seq<seq<Offset>>, records: Records, buckets: seq<Offset>, hash: Key -> nat, b: nat,
                       i: nat,
                       records': Records, mid: seq<Offset>)
    requires ChainsOK(chains, records, buckets, hash) && InPlaceOK(records, chains, hash)
    requires b < |chains| && i < |chains[b]|
    requires forall j :: 0 <= j < |chains[b]| ==> chains[b][j] in records
    requires Spliced(records, records', chains[b], i, mid) && 0 !in records && 0 !in records'
    ensures var c' := SpliceOf(chains[b], i, mid);
            ChainsOK(chains[b := c'], records', buckets[b := Link(c')], hash)
                && InPlaceOK(records', chains[b := c'], hash)
  {
    var c := chains[b];
    var c' := SpliceOf(c, i, mid);
    var chains' := chains[b := c'];
    assert ChainOK(c, records, buckets[b], hash, |buckets|, b) && KeysDistinct(c, records);
    SplicedChain(c, records, hash, |buckets|, b, i, records', mid);
    forall o | o in records && records[o].op != OpVoid && Slot(hash(records[o].key), |buckets|) != b
      ensures o in records' && records'[o] == records[o]
    {
      assert c[i] in records && (i > 0 ==> c[i - 1] in records);
    }
    OtherChains(chains, records, buckets, hash, b, c', records', Link(c'));
    forall o {:trigger Reached(o, records', chains', hash)} | o in records'
      ensures Reached(o, records', chains', hash)
    {
      SplicedReached(chains, records, hash, b, i, records', mid, c, c', chains', o);
    }
    forall a {:trigger KeysDistinct(chains'[a], records')} | 0 <= a < |chains'|
      ensures KeysDistinct(chains'[a], records')
    {
      if a != b { assert KeysDistinct(chains[a], records); }
    }
  }

  /** Splicing changes what the log tells about one key only. */
  lemma SplicedTells(chains: seq<seq<Offset>>, records: Records, buckets: seq<Offset>, hash: Key -> nat, b: nat, i: nat,
                     records': Records, mid: seq<Offset>, k: Key, w: Offset)
    requires ChainsOK(chains, records, buckets, hash) && InPlaceOK(records, chains, hash)
    requires b < |chains| && i < |chains[b]|
    requires forall j :: 0 <= j < |chains[b]| ==> chains[b][j] in records
    requires Spliced(records, records', chains[b], i, mid)
    requires Sole(records, k, w) && 0 !in records && 0 !in records'
    ensures k == records[chains[b][i]].key ==> Sole(records', k, Link(mid))
    ensures k != records[chains[b][i]].key ==> Sole(records', k, w) && Told(records', w) == Told(records, w)
  {
    var c := chains[b];
    assert ChainOK(c, records, buckets[b], hash, |buckets|, b) && KeysDistinct(c, records);
    assert LinkOK(c, records, i);
    assert About(records, c[i], records[c[i]].key);
    if i > 0 { assert LinkOK(c, records, i - 1); }
    forall x {:trigger About(records', x, k)}
      ensures x != c[i] && (|mid| == 1 ==> x != mid[0]) ==> About(records', x, k) == About(records, x, k)
    {
    }
    assert k == records[c[i]].key ==> w == c[i];
    if k != records[c[i]].key {
      forall x {:trigger About(records', x, k)} | About(records', x, k) ensures x == w { }
      assert w != 0 ==> About(records, w, k);
      assert w != 0 ==> w != c[i] && (|mid| == 1 ==> w != mid[0]);
    }
  }

  /** What a logged operation does to the stored map. */
  ghost function Applied(m: map<Key, Value>, r: HashRecord): map<Key, Value> {
    match r.op
    case OpVoid => m
    case OpSet => m[r.key := r.value]
    case OpAdd => m[r.key := r.value]
    case OpRemove => m - {r.key}
  }

  /** The stored map after a splice: its key is removed or given the new value. */
  ghost function AfterSplice(live: map<Key, Value>, key: Key, records': Records, mid: seq<Offset>): map<Key, Value>
    requires |mid| == 1 ==> mid[0] in records'
  {
    if |mid| == 1 then live[key := records'[mid[0]].value] else live - {key}
  }

  lemma SpliceAgrees(order: seq<Offset>, records: Records, buckets: seq<Offset>, chains: seq<seq<Offset>>,
                     hash: Key -> nat,
                     live: map<Key, Value>, b: nat, i: nat, mid: seq<Offset>, records': Records, k: Key)
    returns (w': Offset)
    requires ChainsOK(chains, records, buckets, hash) && InPlaceOK(records, chains, hash)
    requires b < |chains| && i < |chains[b]| && forall j :: 0 <= j < |chains[b]| ==> chains[b][j] in records
    requires Spliced(records, records', chains[b], i, mid) && 0 !in records && 0 !in records'
    requires Agree(order, records, chains, hash, live, k)
    ensures Sole(records', k, w')
    ensures Told(records', w') == Get(AfterSplice(live, records[chains[b][i]].key, records', mid), k)
    ensures k == records[chains[b][i]].key ==> k in live
  {
    var c := chains[b];
    var key := records[c[i]].key;
    var w := First(chains[Slot(hash(k), |chains|)], records, k);
    FirstIsSole(records, chains, buckets, hash, k);
    SplicedTells(chains, records, buckets, hash, b, i, records', mid, k, w);
    w' := if k == key then Link(mid) else w;
    if k == key {
      assert ChainOK(c, records, buckets[b], hash, |buckets|, b);
      assert LinkOK(c, records, i) && About(records, c[i], k) && Reached(c[i], records, chains, hash);
    }
  }

  /** A splice is one step on the stored map. */
  lemma SpliceKeeps(f: Format, base: Offset, order: seq<Offset>, records: Records, end: Offset, buckets: seq<Offset>,
                    chains: seq<seq<Offset>>, hash: Key -> nat, live: map<Key, Value>,
                    b: nat, i: nat, mid: seq<Offset>, order': seq<Offset>, records': Records, end': Offset)
    requires Consistent(f, base, order, records, end, buckets, chains, hash, live, true)
    requires b < |chains| && i < |chains[b]| && forall j :: 0 <= j < |chains[b]| ==> chains[b][j] in records
    requires Spliced(records, records', chains[b], i, mid) && Tiled(order', records', base, end', f)
    ensures records[chains[b][i]].key in live
    ensures var c' := SpliceOf(chains[b], i, mid);
            Consistent(f, base, order', records', end', buckets[b := Link(c')], chains[b := c'], hash,
                       AfterSplice(live, records[chains[b][i]].key, records', mid), true)
  {
    var key := records[chains[b][i]].key;
    var c' := SpliceOf(chains[b], i, mid);
    var chains', buckets' := chains[b := c'], buckets[b := Link(c')];
    var live' := AfterSplice(live, key, records', mid);
    OffsetsPositive(order, records, base, end, f);
    OffsetsPositive(order', records', base, end', f);
    SplicedInPlace(chains, records, buckets, hash, b, i, records', mid);
    forall k
      ensures Agree(order', records', chains', hash, live', k)
      ensures k == key ==> k in live
    {
      assert Agree(order, records, chains, hash, live, k);
      var w' := SpliceAgrees(order, records, buckets, chains, hash, live, b, i, mid, records', k);
      InPlaceFinds(order', records', chains', buckets', base, end', f, hash, k, w');
    }
  }

  // ---------------------------------------------------------------- erasing and moving in place

  function Relinked(records: Records, parent: Offset, child: Offset): Records
    requires parent > 0 ==> parent in records
  {
    if parent > 0 then records[parent := records[parent].(child := child)] else records
  }

  ghost function Parent(c: seq<Offset>, i: nat): Offset
    requires i < |c|
  {
    if i > 0 then c[i - 1] else 0
  }

  lemma VoidedTiled(order: seq<Offset>, records: Records, base: Offset, end: Offset, f: Format,
                    parent: Offset, child: Offset, o: Offset)
    requires f.align >= 1 && Tiled(order, records, base, end, f) && (parent > 0 ==> parent in records)
    requires o in records
    ensures VoidRecord(f, records[o].size).size == records[o].size
    ensures Tiled(order, Relinked(records, parent, child)[o := VoidRecord(f, records[o].size)], base, end, f)
  {
    OffsetsPositive(order, records, base, end, f);
    if parent > 0 {
      TiledReplace(order, records, base, end, f, parent, records[parent].(child := child));
    }
    var v := VoidRecord(f, records[o].size);
    assert Fits(records[o], f) && BaseSize(f, 0, 0) <= BaseSize(f, |records[o].key|, |records[o].value|);
    TiledReplace(order, Relinked(records, parent, child), base, end, f, o, v);
  }

  /** A record turned void, with the one before it relinked to the one behind it. */
  lemma ErasedSplice(records: Records, c: seq<Offset>, i: nat, records': Records, f: Format)
    requires ChainLinked(c, records, Link(c)) && KeysDistinct(c, records) && i < |c|
    requires f.align >= 1 && c[i] in records && (i > 0 ==> Parent(c, i) > 0 && Parent(c, i) in records)
    requires records' == Relinked(records, Parent(c, i), records[c[i]].child)[c[i] := VoidRecord(f, records[c[i]].size)]
    ensures forall j :: 0 <= j < |c| ==> c[j] in records
    ensures Spliced(records, records', c, i, [])
  {
    forall j | 0 <= j < |c| ensures c[j] in records { assert LinkOK(c, records, j); }
    assert LinkOK(c, records, i);
    if i > 0 {
      assert c[i - 1] != c[i];
      assert [] + c[i + 1..] == c[i + 1..];
    }
  }

  /** A new record elsewhere, with the one before relinked to it and the old one turned void. */
  lemma MovedSplice(records: Records, c: seq<Offset>, i: nat, p: Offset, r: HashRecord, records': Records, f: Format)
    requires ChainLinked(c, records, Link(c)) && KeysDistinct(c, records) && i < |c|
    requires f.align >= 1 && c[i] in records && (i > 0 ==> Parent(c, i) > 0 && Parent(c, i) in records)
    requires p > 0 && (p in records ==> records[p].op == OpVoid)
    requires (r.op == OpSet || r.op == OpAdd) && r.key == records[c[i]].key && r.child == records[c[i]].child
    requires records' == Relinked(records[p := r], Parent(c, i), p)[c[i] := VoidRecord(f, records[c[i]].size)]
    ensures forall j :: 0 <= j < |c| ==> c[j] in records
    ensures Spliced(records, records', c, i, [p])
  {
    forall j | 0 <= j < |c| ensures c[j] in records { assert LinkOK(c, records, j); }
    assert LinkOK(c, records, i);
    if i > 0 {
      assert LinkOK(c, records, i - 1);
      assert c[i - 1] != c[i] && c[i - 1] != p;
      assert Link([p] + c[i + 1..]) == p;
    }
  }

  lemma EraseKeeps(f: Format, base: Offset, order: seq<Offset>, records: Records, end: Offset, buckets: seq<Offset>,
                   chains: seq<seq<Offset>>, hash: Key -> nat, live: map<Key, Value>, b: nat, i: nat, records': Records)
    requires Consistent(f, base, order, records, end, buckets, chains, hash, live, true)
    requires b < |chains| && i < |chains[b]| && chains[b][i] in records
    requires i > 0 ==> Parent(chains[b], i) > 0 && Parent(chains[b], i) in records
    requires var o := chains[b][i];
             records' == Relinked(records, Parent(chains[b], i), records[o].child)[o := VoidRecord(f, records[o].size)]
    ensures var c' := SpliceOf(chains[b], i, []);
            Consistent(f, base, order, records', end, buckets[b := Link(c')], chains[b := c'], hash,
                       live - {records[chains[b][i]].key}, true)
  {
    var c := chains[b];
    assert ChainOK(c, records, buckets[b], hash, |buckets|, b) && KeysDistinct(c, records);
    ErasedSplice(records, c, i, records', f);
    VoidedTiled(order, records, base, end, f, Parent(c, i), records[c[i]].child, c[i]);
    SpliceKeeps(f, base, order, records, end, buckets, chains, hash, live, b, i, [], order, records', end);
  }

  lemma MoveKeeps(f: Format, base: Offset, order: seq<Offset>, records: Records, end: Offset, buckets: seq<Offset>,
                  chains: seq<seq<Offset>>, hash: Key -> nat, live: map<Key, Value>, b: nat, i: nat,
                  p: Offset, r: HashRecord, order': seq<Offset>, end': Offset, records': Records)
    requires Consistent(f, base, order, records, end, buckets, chains, hash, live, true)
    requires b < |chains| && i < |chains[b]| && chains[b][i] in records
    requires i > 0 ==> Parent(chains[b], i) > 0 && Parent(chains[b], i) in records
    requires Placed(order, records, end, p, r, order', end') && Fits(r, f) && (r.op == OpSet || r.op == OpAdd)
    requires var o := chains[b][i];
             && r.key == records[o].key && r.child == records[o].child
             && records' == Relinked(records[p := r], Parent(chains[b], i), p)[o := VoidRecord(f, records[o].size)]
    ensures var c' := SpliceOf(chains[b], i, [p]);
            Consistent(f, base, order', records', end', buckets[b := Link(c')], chains[b := c'], hash,
                       live[r.key := r.value], true)
  {
    var c := chains[b];
    assert ChainOK(c, records, buckets[b], hash, |buckets|, b) && KeysDistinct(c, records);
    PlacedTiled(order, records, base, end, f, p, r, order', end');
    MovedSplice(records, c, i, p, r, records', f);
    OffsetsPositive(order, records, base, end, f);
    assert LinkOK(c, records, i);
    VoidedTiled(order', records[p := r], base, end', f, Parent(c, i), p, c[i]);
    SpliceKeeps(f, base, order, records, end, buckets, chains, hash, live, b, i, [p], order', records', end');
  }

  /** A record overwritten by one of its own size. */
  lemma RewrittenSplice(order: seq<Offset>, records: Records, base: Offset, end: Offset, f: Format,
                        c: seq<Offset>, i: nat, r: HashRecord)
    requires f.align >= 1 && Tiled(order, records, base, end, f)
    requires ChainLinked(c, records, Link(c)) && i < |c| && c[i] in records
    requires Fits(r, f) && r.size == records[c[i]].size && (r.op == OpSet || r.op == OpAdd)
    requires r.key == records[c[i]].key && r.child == records[c[i]].child && KeysDistinct(c, records)
    ensures forall j :: 0 <= j < |c| ==> c[j] in records
    ensures Spliced(records, records[c[i] := r], c, i, [c[i]]) && Tiled(order, records[c[i] := r], base, end, f)
    ensures SpliceOf(c, i, [c[i]]) == c
  {
    TiledReplace(order, records, base, end, f, c[i], r);
    assert LinkOK(c, records, i);
    forall j | 0 <= j < |c| ensures c[j] in records { assert LinkOK(c, records, j); }
    assert SpliceOf(c, i, [c[i]]) == c;
    if i > 0 {
      assert LinkOK(c, records, i - 1);
      assert Link([c[i]] + c[i + 1..]) == c[i];
    }
  }

  // ---------------------------------------------------------------- a new record in front of its chain

  /** A new record goes before its chain, or before what follows an older record of its key at the front. */
  ghost predicate Prepended(records: Records, c: seq<Offset>, p: Offset, r: HashRecord, rest: seq<Offset>) {
    && p > 0 && (p in records ==> records[p].op == OpVoid)
    && r.op != OpVoid && r.child == Link(rest)
    && (rest == c || (|c| > 0 && c[0] in records && records[c[0]].key == r.key && rest == c[1..]))
  }

  lemma PrependedChain(chains: seq<seq<Offset>>, records: Records, buckets: seq<Offset>, hash: Key -> nat, b: nat,
                       p: Offset, r: HashRecord, rest: seq<Offset>)
    requires ChainsOK(chains, records, buckets, hash) && b < |chains| && 0 !in records
    requires Prepended(records, chains[b], p, r, rest) && Slot(hash(r.key), |chains|) == b
    ensures ChainsOK(chains[b := [p] + rest], records[p := r], buckets[b := p], hash)
  {
    var c, c', records' := chains[b], [p] + rest, records[p := r];
    assert ChainOK(c, records, buckets[b], hash, |buckets|, b);
    forall j | 0 <= j < |c'|
      ensures LinkOK(c', records', j) && Slot(hash(records'[c'[j]].key), |buckets|) == b
    {
      if j > 0 {
        var j' := if rest == c then j - 1 else j;
        assert c'[j] == c[j'] && LinkOK(c, records, j');
      }
    }
    OtherChains(chains, records, buckets, hash, b, c', records', p);
  }

  lemma PrependedFinds(chains: seq<seq<Offset>>, records: Records, buckets: seq<Offset>, hash: Key -> nat, b: nat,
                       p: Offset, r: HashRecord, rest: seq<Offset>, k: Key)
    requires ChainsOK(chains, records, buckets, hash) && b < |chains| && 0 !in records
    requires Prepended(records, chains[b], p, r, rest) && Slot(hash(r.key), |chains|) == b
    ensures var chain, chain' := chains[Slot(hash(k), |chains|)], chains[b := [p] + rest][Slot(hash(k), |chains|)];
            var w := First(chain, records, k);
            && First(chain', records[p := r], k) == (if k == r.key then p else w)
            && (k != r.key ==> w != p && Told(records[p := r], w) == Told(records, w))
  {
    var c, records', a := chains[b], records[p := r], Slot(hash(k), |chains|);
    assert ChainOK(chains[a], records, buckets[a], hash, |buckets|, a);
    forall j | 0 <= j < |chains[a]|
      ensures chains[a][j] in records && chains[a][j] != p
    {
      assert LinkOK(chains[a], records, j);
    }
    FirstMember(chains[a], records, k);
    if a == b {
      assert ([p] + rest)[1..] == rest;
      forall j | 0 <= j < |rest| ensures rest[j] in records && rest[j] != p {
        assert rest[j] == c[if rest == c then j else j + 1];
      }
      FirstFrame(rest, records, records', k);
    } else {
      FirstFrame(chains[a], records, records', k);
    }
  }

  /** Appending: the new record shadows every older one of its key. */
  lemma AppendKeeps(f: Format, base: Offset, order: seq<Offset>, records: Records, end: Offset, buckets: seq<Offset>,
                    chains: seq<seq<Offset>>, hash: Key -> nat, live: map<Key, Value>,
                    b: nat, r: HashRecord, rest: seq<Offset>)
    requires Consistent(f, base, order, records, end, buckets, chains, hash, live, false)
    requires b < |chains| && Slot(hash(r.key), |chains|) == b
    requires Prepended(records, chains[b], end, r, rest) && Fits(r, f)
    ensures Consistent(f, base, order + [end], records[end := r], end + r.size, buckets[b := end],
                       chains[b := [end] + rest], hash, Applied(live, r), false)
  {
    var order', records', chains', live' := order + [end], records[end := r], chains[b := [end] + rest],
        Applied(live, r);
    TiledAppend(order, records, base, end, f, r);
    OffsetsPositive(order, records, base, end, f);
    PrependedChain(chains, records, buckets, hash, b, end, r, rest);
    forall k
      ensures Agree(order', records', chains', hash, live', k)
    {
      assert Agree(order, records, chains, hash, live, k);
      PrependedFinds(chains, records, buckets, hash, b, end, r, rest, k);
      assert order'[..|order|] == order;
      LastFrame(order, records, records', k);
    }
  }

  /** In place: a new key gets the record in front of its chain, at the end of the file or over a void one. */
  lemma InsertKeeps(f: Format, base: Offset, order: seq<Offset>, records: Records, end: Offset, buckets: seq<Offset>,
                    chains: seq<seq<Offset>>, hash: Key -> nat, live: map<Key, Value>,
                    b: nat, p: Offset, r: HashRecord, order': seq<Offset>, end': Offset)
    requires Consistent(f, base, order, records, end, buckets, chains, hash, live, true)
    requires b < |chains| && Slot(hash(r.key), |chains|) == b && First(chains[b], records, r.key) == 0
    requires Prepended(records, chains[b], p, r, chains[b]) && r.op != OpRemove
    requires Fits(r, f) && Placed(order, records, end, p, r, order', end')
    ensures Consistent(f, base, order', records[p := r], end', buckets[b := p], chains[b := [p] + chains[b]], hash,
                       Applied(live, r), true)
  {
    var c, records', live' := chains[b], records[p := r], Applied(live, r);
    var chains' := chains[b := [p] + c];
    PlacedTiled(order, records, base, end, f, p, r, order', end');
    OffsetsPositive(order, records, base, end, f);
    OffsetsPositive(order', records', base, end', f);
    PrependedChain(chains, records, buckets, hash, b, p, r, c);
    FirstIsSole(records, chains, buckets, hash, r.key);
    InsertedInPlace(records, chains, buckets, hash, b, p, r);
    forall k
      ensures Agree(order', records', chains', hash, live', k)
    {
      assert Agree(order, records, chains, hash, live, k);
      var w := First(chains[Slot(hash(k), |chains|)], records, k);
      FirstIsSole(records, chains, buckets, hash, k);
      var w' := if k == r.key then p else w;
      forall o {:trigger About(records', o, k)} | About(records', o, k) ensures o == w' {
        assert o != p ==> About(records, o, k);
      }
      assert w != 0 ==> About(records, w, k);
      assert Sole(records', k, w');
      InPlaceFinds(order', records', chains', buckets[b := p], base, end', f, hash, k, w');
    }
  }

  lemma InsertedInPlace(records: Records, chains: seq<seq<Offset>>, buckets: seq<Offset>, hash: Key -> nat,
                        b: nat, p: Offset, r: HashRecord)
    requires ChainsOK(chains, records, buckets, hash) && InPlaceOK(records, chains, hash)
    requires b < |chains| && Slot(hash(r.key), |chains|) == b && Sole(records, r.key, 0) && 0 !in records
    requires Prepended(records, chains[b], p, r, chains[b]) && r.op != OpRemove
    ensures InPlaceOK(records[p := r], chains[b := [p] + chains[b]], hash)
  {
    var records', chains' := records[p := r], chains[b := [p] + chains[b]];
    forall o {:trigger Reached(o, records', chains', hash)} | o in records'
      ensures Reached(o, records', chains', hash)
    {
      if o == p {
        assert ([p] + chains[b])[0] == p;
      } else {
        assert Reached(o, records, chains, hash);
      }
    }
    forall a {:trigger KeysDistinct(chains'[a], records')} | 0 <= a < |chains'|
      ensures KeysDistinct(chains'[a], records')
    {
      var c := chains[a];
      assert ChainOK(c, records, buckets[a], hash, |buckets|, a) && KeysDistinct(c, records);
      forall j | 0 <= j < |c|
        ensures c[j] in records && c[j] != p && records[c[j]].key != r.key
      {
        assert LinkOK(c, records, j);
        if records[c[j]].key == r.key { assert About(records, c[j], r.key); }
      }
      if a == b {
        assert chains'[a] == [p] + c;
      }
    }
  }

  /** Either way a new key's record is written, the database stays consistent. */
  lemma AddKeeps(f: Format, base: Offset, order: seq<Offset>, records: Records, end: Offset, buckets: seq<Offset>,
                 chains: seq<seq<Offset>>, hash: Key -> nat, live: map<Key, Value>, inPlace: bool,
                 b: nat, p: Offset, r: HashRecord, order': seq<Offset>, end': Offset)
    requires Consistent(f, base, order, records, end, buckets, chains, hash, live, inPlace)
    requires b < |chains| && Slot(hash(r.key), |chains|) == b && First(chains[b], records, r.key) == 0
    requires r.op == OpAdd && r.child == buckets[b] && Fits(r, f)
    requires Placed(order, records, end, p, r, order', end')
    requires !inPlace ==> p == end && order' == order + [p] && end' == end + r.size
    ensures Consistent(f, base, order', records[p := r], end', buckets[b := p], chains[b := [p] + chains[b]], hash,
                       live[r.key := r.value], inPlace)
  {
    assert ChainOK(chains[b], records, buckets[b], hash, |buckets|, b);
    PlacedTiled(order, records, base, end, f, p, r, order', end');
    if inPlace {
      InsertKeeps(f, base, order, records, end, buckets, chains, hash, live, b, p, r, order', end');
    } else {
      AppendKeeps(f, base, order, records, end, buckets, chains, hash, live, b, r, chains[b]);
    }
  }
}
