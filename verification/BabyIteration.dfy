/**
 Iterators over the B+ tree: they remember a key and possibly the leaf it was seen in, and find
 their way to the neighbouring keys along the leaf chain.
 */
module BabyIteration {
  import opened Basics
  import opened BabyNodes
  import opened BabyTree
  import opened BabyDatabase
  import opened Processing

  // ---------------------------------------------------------------- what a position means

  predicate AtLeast(b: Bound, k: Key) {
    BLe(b, At(k))
  }

  predicate Below(k: Key, b: Bound) {
    BLt(At(k), b)
  }

  /** The least stored key from a bound on, or none if there is no such key. */
  ghost predicate LeastFrom(m: map<Key, Value>, b: Bound, r: Option<Key>) {
    match r
    case None => forall q :: q in m ==> !AtLeast(b, q)
    case Some(x) => x in m && AtLeast(b, x) && forall q :: q in m && AtLeast(b, q) ==> x <= q
  }

  /** The least stored key above a key (or equal to it, if inclusive). */
  ghost predicate LeastAbove(m: map<Key, Value>, k: Key, inclusive: bool, r: Option<Key>) {
    match r
    case None => forall q :: q in m ==> q < k || (!inclusive && q == k)
    case Some(x) =>
      && x in m && (k < x || (inclusive && k == x))
      && forall q :: q in m && (k < q || (inclusive && k == q)) ==> x <= q
  }

  /** The greatest stored key below a bound, or none if there is no such key. */
  ghost predicate GreatestBefore(m: map<Key, Value>, b: Bound, r: Option<Key>) {
    match r
    case None => forall q :: q in m ==> !Below(q, b)
    case Some(x) => x in m && Below(x, b) && forall q :: q in m && Below(q, b) ==> q <= x
  }

  /** The greatest stored key below a key (or equal to it, if inclusive). */
  ghost predicate GreatestBelow(m: map<Key, Value>, k: Key, inclusive: bool, r: Option<Key>) {
    match r
    case None => forall q :: q in m ==> k < q || (!inclusive && q == k)
    case Some(x) =>
      && x in m && (x < k || (inclusive && k == x))
      && forall q :: q in m && (q < k || (inclusive && k == q)) ==> q <= x
  }

  /** There is only one such key, the key itself if it counts and is stored. */
  lemma LeastAboveIs(m: map<Key, Value>, k: Key, inclusive: bool, r: Option<Key>)
    requires LeastAbove(m, k, inclusive, r)
    ensures r.Some? ==> r.value in m && k <= r.value && (r.value == k ==> inclusive)
    ensures inclusive && k in m ==> r == Some(k)
    ensures forall q :: q in m && k < q ==> r.Some? && r.value <= q
  {
  }

  lemma GreatestBelowIs(m: map<Key, Value>, k: Key, inclusive: bool, r: Option<Key>)
    requires GreatestBelow(m, k, inclusive, r)
    ensures r.Some? ==> r.value in m && r.value <= k && (r.value == k ==> inclusive)
    ensures inclusive && k in m ==> r == Some(k)
    ensures forall q :: q in m && q < k ==> r.Some? && q <= r.value
  {
  }

  lemma LeastFromIs(m: map<Key, Value>, r: Option<Key>)
    requires LeastFrom(m, NegInf, r)
    ensures r.Some? ==> r.value in m
    ensures forall q :: q in m ==> r.Some? && r.value <= q
  {
    forall q | q in m ensures AtLeast(NegInf, q) { }
  }

  lemma GreatestBeforeIs(m: map<Key, Value>, r: Option<Key>)
    requires GreatestBefore(m, PosInf, r)
    ensures r.Some? ==> r.value in m
    ensures forall q :: q in m ==> r.Some? && q <= r.value
  {
    forall q | q in m ensures Below(q, PosInf) { }
  }

  // ---------------------------------------------------------------- leaves and positions, on values

  /** The first record of a leaf has the least stored key from the leaf's lower bound on. */
  lemma FrontIsLeast(leaves: Leaves, span: Spans, first: Addr, last: Addr, m: map<Key, Value>, x: Addr)
    requires LeafSide(leaves, span, first, last, m) && Separate(span) && x in leaves && |leaves[x].records| > 0
    ensures LeastFrom(m, span[x].lo, Some(leaves[x].records[0].key)) && InSpan(leaves[x].records[0].key, span[x])
  {
    var rs := leaves[x].records;
    assert LeafOK(rs, span[x]) && Stored(rs, m);
    forall q | q in m && AtLeast(span[x].lo, q)
      ensures rs[0].key <= q
    {
      if InSpan(q, span[x]) {
        assert HasKey(leaves[x].records, q);
        var i :| 0 <= i < |rs| && rs[i].key == q;
      } else {
        assert InSpan(rs[0].key, span[x]);
      }
    }
  }

  /** The last record of a leaf has the greatest stored key before the leaf's upper bound. */
  lemma BackIsGreatest(leaves: Leaves, span: Spans, first: Addr, last: Addr, m: map<Key, Value>, x: Addr)
    requires LeafSide(leaves, span, first, last, m) && Separate(span) && x in leaves && |leaves[x].records| > 0
    ensures var k := leaves[x].records[|leaves[x].records| - 1].key;
            GreatestBefore(m, span[x].hi, Some(k)) && InSpan(k, span[x])
  {
    var rs := leaves[x].records;
    var e := |rs| - 1;
    assert LeafOK(rs, span[x]) && Stored(rs, m);
    forall q | q in m && Below(q, span[x].hi)
      ensures q <= rs[e].key
    {
      if InSpan(q, span[x]) {
        assert HasKey(leaves[x].records, q);
        var i :| 0 <= i < |rs| && rs[i].key == q;
      } else {
        assert InSpan(rs[e].key, span[x]);
      }
    }
  }

  /** Without a record in a leaf there is no stored key in its interval. */
  lemma EmptyLeaf(leaves: Leaves, span: Spans, first: Addr, last: Addr, m: map<Key, Value>, x: Addr, q: Key)
    requires LeafSide(leaves, span, first, last, m) && x in leaves && |leaves[x].records| == 0 && q in m
    ensures !InSpan(q, span[x])
  {
    assert InSpan(q, span[x]) ==> HasKey(leaves[x].records, q);
  }

  lemma SkipEmptyNext(leaves: Leaves, span: Spans, first: Addr, last: Addr, m: map<Key, Value>, x: Addr, r: Option<Key>)
    requires LeafSide(leaves, span, first, last, m) && Separate(span) && x in leaves && |leaves[x].records| == 0
    requires LeastFrom(m, span[x].hi, r)
    ensures LeastFrom(m, span[x].lo, r)
  {
    forall q | q in m && AtLeast(span[x].lo, q)
      ensures AtLeast(span[x].hi, q)
    {
      EmptyLeaf(leaves, span, first, last, m, x, q);
    }
  }

  lemma SkipEmptyPrev(leaves: Leaves, span: Spans, first: Addr, last: Addr, m: map<Key, Value>, x: Addr, r: Option<Key>)
    requires LeafSide(leaves, span, first, last, m) && Separate(span) && x in leaves && |leaves[x].records| == 0
    requires GreatestBefore(m, span[x].lo, r)
    ensures GreatestBefore(m, span[x].hi, r)
  {
    forall q | q in m && Below(q, span[x].hi)
      ensures Below(q, span[x].lo)
    {
      EmptyLeaf(leaves, span, first, last, m, x, q);
    }
  }

  /** From the key's own leaf: the next record there, or else the first one of the leaves behind. */
  lemma AboveInLeaf(leaves: Leaves, span: Spans, first: Addr, last: Addr, m: map<Key, Value>, x: Addr, k: Key,
                    inclusive: bool, r: Option<Key>)
    requires LeafSide(leaves, span, first, last, m) && x in leaves && InSpan(k, span[x])
    requires LeafOK(leaves[x].records, span[x])
    ensures var rs := leaves[x].records;
            var p := if inclusive then LowerBound(rs, k) else UpperBound(rs, k);
            && (p < |rs| ==> LeastAbove(m, k, inclusive, Some(rs[p].key)) && InSpan(rs[p].key, span[x]))
            && (p == |rs| && LeastFrom(m, span[x].hi, r) ==> LeastAbove(m, k, inclusive, r))
  {
    var rs := leaves[x].records;
    var p := if inclusive then LowerBound(rs, k) else UpperBound(rs, k);
    assert Stored(rs, m);
    forall q | q in m && (k < q || (inclusive && k == q))
      ensures (p < |rs| ==> rs[p].key <= q) && (p == |rs| ==> AtLeast(span[x].hi, q))
    {
      if InSpan(q, span[x]) {
        assert HasKey(leaves[x].records, q);
        var i :| 0 <= i < |rs| && rs[i].key == q;
        assert i >= p;
      }
      if p < |rs| { assert InSpan(rs[p].key, span[x]); }
    }
  }

  /** From the key's own leaf: the record before it there, or else the last one of the leaves in front. */
  lemma BelowInLeaf(leaves: Leaves, span: Spans, first: Addr, last: Addr, m: map<Key, Value>, x: Addr, k: Key,
                    r: Option<Key>)
    requires LeafSide(leaves, span, first, last, m) && x in leaves && InSpan(k, span[x])
    requires LeafOK(leaves[x].records, span[x])
    ensures var rs := leaves[x].records;
            var p := LowerBound(rs, k);
            && (p > 0 ==> GreatestBelow(m, k, false, Some(rs[p - 1].key)) && InSpan(rs[p - 1].key, span[x]))
            && (p == 0 && GreatestBefore(m, span[x].lo, r) ==> GreatestBelow(m, k, false, r))
  {
    var rs := leaves[x].records;
    var p := LowerBound(rs, k);
    assert Stored(rs, m);
    forall q | q in m && q < k
      ensures (p > 0 ==> q <= rs[p - 1].key) && (p == 0 ==> Below(q, span[x].lo))
    {
      if InSpan(q, span[x]) {
        assert HasKey(leaves[x].records, q);
        var i :| 0 <= i < |rs| && rs[i].key == q;
        assert i < p;
      }
      if p > 0 { assert InSpan(rs[p - 1].key, span[x]); }
    }
  }

  /** Going back within the leaf of the key misses its last record exactly when all its records lie below the key. */
  lemma PreviousExact(leaves: Leaves, span: Spans, first: Addr, last: Addr, m: map<Key, Value>, x: Addr, k: Key,
                      r: Option<Key>)
    requires LeafSide(leaves, span, first, last, m) && Separate(span) && x in leaves && InSpan(k, span[x])
    requires SortedRecords(leaves[x].records)
    requires var p := LowerBound(leaves[x].records, k);
             if 0 < p < |leaves[x].records| then r == Some(leaves[x].records[p - 1].key)
             else GreatestBefore(m, span[x].lo, r)
    ensures GreatestBelow(m, k, false, r)
            <==> !(|leaves[x].records| > 0 && leaves[x].records[|leaves[x].records| - 1].key < k)
    ensures |leaves[x].records| > 0 && leaves[x].records[|leaves[x].records| - 1].key < k ==>
              GreatestBefore(m, span[x].lo, r)
  {
    var rs := leaves[x].records;
    assert LeafOK(rs, span[x]) && Stored(rs, m);
    var p := LowerBound(rs, k);
    BelowInLeaf(leaves, span, first, last, m, x, k, r);
    if |rs| > 0 && rs[|rs| - 1].key < k {
      assert p == |rs|;
      var q := rs[p - 1].key;
      assert q in m && q < k && InSpan(q, span[x]);
    }
  }

  /**
   And it does miss it: two keys are stored in one leaf, an iterator is at the second, that one is
   removed. From its place going back finds nothing, although the first key is there.
   */
  lemma PreviousMisses()
    ensures var leaves := map[1 := LeafNode(0, 0, [Record(1.0, "a")])];
            var span, m := map[1 := Span(NegInf, PosInf, 0)], map[1.0 := "a"];
            && Indexed(leaves, map[], span, 1) && Separate(span) && TreeSide(map[], span, 1, 1)
            && LeafSide(leaves, span, 1, 1, m) && InSpan(2.0, span[1])
            && LowerBound(leaves[1].records, 2.0) == |leaves[1].records|
            && GreatestBefore(m, span[1].lo, None) && !GreatestBelow(m, 2.0, false, None)
  {
    var leaves := map[1 := LeafNode(0, 0, [Record(1.0, "a")])];
    var span: Spans, m := map[1 := Span(NegInf, PosInf, 0)], map[1.0 := "a"];
    assert LeafOK(leaves[1].records, span[1]) && NextOK(leaves, span, 1) && PrevOK(leaves, span, 1);
    assert leaves[1].records[0].key == 1.0 && HasKey(leaves[1].records, 1.0);
    assert 1.0 in m && 1.0 < 2.0;
  }

  /** Going back from the leaf of the least key not below `k` finds the greatest key below `k`. */
  lemma StepBelow(leaves: Leaves, span: Spans, first: Addr, last: Addr, m: map<Key, Value>, x: Addr, k: Key, c: Key,
                  r: Option<Key>)
    requires LeafSide(leaves, span, first, last, m) && Separate(span) && x in leaves && InSpan(c, span[x])
    requires SortedRecords(leaves[x].records) && LeastAbove(m, k, true, Some(c))
    requires var p := LowerBound(leaves[x].records, k);
             if 0 < p < |leaves[x].records| then r == Some(leaves[x].records[p - 1].key)
             else GreatestBefore(m, span[x].lo, r)
    ensures GreatestBelow(m, k, false, r)
    ensures k != c ==> GreatestBelow(m, k, true, r)
  {
    var rs := leaves[x].records;
    assert LeafOK(rs, span[x]) && Stored(rs, m) && HasKey(leaves[x].records, c);
    var j :| 0 <= j < |rs| && rs[j].key == c;
    var p := LowerBound(rs, k);
    assert p <= j;
    forall q | q in m && q < k
      ensures (p > 0 ==> q <= rs[p - 1].key) && (p == 0 ==> Below(q, span[x].lo))
    {
      if InSpan(q, span[x]) {
        assert HasKey(leaves[x].records, q);
        var i :| 0 <= i < |rs| && rs[i].key == q;
        assert i < p;
      }
      if p > 0 { assert InSpan(rs[p - 1].key, span[x]); }
    }
    forall q | q in m && Below(q, span[x].lo)
      ensures q < k
    {
      assert q < c;
    }
  }

  /** The leaves from a given one on, in the order of the chain. */
  ghost function LeavesFrom(leaves: Leaves, span: Spans, x: Addr): set<Addr>
    requires forall a :: a in leaves ==> a in span
  {
    if x in leaves then set a | a in leaves && BLe(span[x].lo, span[a].lo) else {}
  }

  ghost function LeavesUpTo(leaves: Leaves, span: Spans, x: Addr): set<Addr>
    requires forall a :: a in leaves ==> a in span
  {
    if x in leaves then set a | a in leaves && BLe(span[a].lo, span[x].lo) else {}
  }

  lemma ChainAdvances(leaves: Leaves, span: Spans, first: Addr, last: Addr, m: map<Key, Value>, x: Addr)
    requires LeafSide(leaves, span, first, last, m) && Separate(span) && 0 !in leaves && x in leaves
    ensures var n := leaves[x].next;
            && |LeavesFrom(leaves, span, n)| < |LeavesFrom(leaves, span, x)|
            && (if n == 0 then span[x].hi == PosInf else n in leaves && span[n].lo == span[x].hi)
    ensures var p := leaves[x].prev;
            && |LeavesUpTo(leaves, span, p)| < |LeavesUpTo(leaves, span, x)|
            && (if p == 0 then span[x].lo == NegInf else p in leaves && span[p].hi == span[x].lo)
  {
    assert NextOK(leaves, span, x) && PrevOK(leaves, span, x);
    var n, p := leaves[x].next, leaves[x].prev;
    if p != 0 { assert NextOK(leaves, span, p); }
    var f, fn := LeavesFrom(leaves, span, x), LeavesFrom(leaves, span, n);
    forall a | a in fn
      ensures a in f && a != x
    {
      assert BLe(span[n].lo, span[a].lo) && BLt(span[x].lo, span[n].lo);
    }
    assert fn <= f - {x} && |f - {x}| == |f| - 1;
    SubsetSize(fn, f - {x});
    var u, up := LeavesUpTo(leaves, span, x), LeavesUpTo(leaves, span, p);
    forall a | a in up
      ensures a in u && a != x
    {
      assert BLe(span[a].lo, span[p].lo) && BLt(span[p].lo, span[x].lo);
    }
    assert up <= u - {x} && |u - {x}| == |u| - 1;
    SubsetSize(up, u - {x});
  }

  // ---------------------------------------------------------------- the iterator object

  class BabyIterator {
    const dbm: BabyDBM
    const id: nat

    /** A new iterator is registered with its database, without a position. */
    constructor (dbm: BabyDBM)
      requires dbm.Consistent()
      modifies dbm`iterators
      ensures this.dbm == dbm && Registered() && dbm.Consistent() && Position().None?
    {
      this.dbm := dbm;
      id := |dbm.iterators|;
      new;
      dbm.iterators := dbm.iterators + [IterPos(None, 0)];
    }

    ghost predicate Registered()
      reads this, dbm
    {
      id < |dbm.iterators|
    }

    /** The key the iterator is at. */
    ghost function Position(): Option<Key>
      requires Registered()
      reads this, dbm
    {
      dbm.iterators[id].key
    }

    method ClearPosition()
      requires dbm.Consistent() && Registered()
      modifies dbm`iterators
      ensures dbm.Consistent() && dbm.iterators == old(dbm.iterators)[id := IterPos(None, 0)]
    {
      dbm.iterators := dbm.iterators[id := IterPos(None, 0)];
    }

    method SetPositionWithKey(leaf: Addr, key: Key)
      requires dbm.Consistent() && Registered()
      requires leaf != 0 ==> leaf in dbm.leaves && InSpan(key, dbm.span[leaf])
      modifies dbm`iterators
      ensures dbm.Consistent() && dbm.iterators == old(dbm.iterators)[id := IterPos(Some(key), leaf)]
    {
      dbm.iterators := dbm.iterators[id := IterPos(Some(key), leaf)];
    }

    /** Goes to the first record of the chain from a leaf on; `b` is where the keys of that part begin. */
    method SetPositionFirst(start: Addr, ghost b: Bound) returns (hit: bool)
      requires dbm.Consistent() && Registered()
      requires if start == 0 then b == PosInf else start in dbm.leaves && dbm.span[start].lo == b
      modifies dbm`iterators
      ensures dbm.Consistent() && Registered()
      ensures hit ==> Position().Some? && LeastFrom(dbm.contents, b, Position()) && dbm.iterators[id].leaf != 0
      ensures !hit ==> dbm.iterators == old(dbm.iterators) && LeastFrom(dbm.contents, b, None)
    {
      var leaf := start;
      while leaf != 0
        invariant dbm.Consistent() && dbm.iterators == old(dbm.iterators)
        invariant leaf != 0 ==> leaf in dbm.leaves
        invariant forall r :: LeastFrom(dbm.contents, if leaf == 0 then PosInf else dbm.span[leaf].lo, r)
                              ==> LeastFrom(dbm.contents, b, r)
        decreases |LeavesFrom(dbm.leaves, dbm.span, leaf)|
      {
        var records := dbm.leaves[leaf].records;
        if |records| > 0 {
          FrontIsLeast(dbm.leaves, dbm.span, dbm.first, dbm.last, dbm.contents, leaf);
          SetPositionWithKey(leaf, records[0].key);
          return true;
        }
        ChainAdvances(dbm.leaves, dbm.span, dbm.first, dbm.last, dbm.contents, leaf);
        forall r | LeastFrom(dbm.contents, dbm.span[leaf].hi, r)
          ensures LeastFrom(dbm.contents, b, r)
        {
          SkipEmptyNext(dbm.leaves, dbm.span, dbm.first, dbm.last, dbm.contents, leaf, r);
        }
        leaf := dbm.leaves[leaf].next;
      }
      assert LeastFrom(dbm.contents, PosInf, None);
      return false;
    }

    /** Goes to the last record of the chain up to a leaf; `b` is where the keys of that part end. */
    method SetPositionLast(start: Addr, ghost b: Bound) returns (hit: bool)
      requires dbm.Consistent() && Registered()
      requires if start == 0 then b == NegInf else start in dbm.leaves && dbm.span[start].hi == b
      modifies dbm`iterators
      ensures dbm.Consistent() && Registered()
      ensures hit ==> Position().Some? && GreatestBefore(dbm.contents, b, Position())
      ensures !hit ==> dbm.iterators == old(dbm.iterators) && GreatestBefore(dbm.contents, b, None)
    {
      var leaf := start;
      while leaf != 0
        invariant dbm.Consistent() && dbm.iterators == old(dbm.iterators)
        invariant leaf != 0 ==> leaf in dbm.leaves
        invariant forall r :: GreatestBefore(dbm.contents, if leaf == 0 then NegInf else dbm.span[leaf].hi, r)
                              ==> GreatestBefore(dbm.contents, b, r)
        decreases |LeavesUpTo(dbm.leaves, dbm.span, leaf)|
      {
        var records := dbm.leaves[leaf].records;
        if |records| > 0 {
          BackIsGreatest(dbm.leaves, dbm.span, dbm.first, dbm.last, dbm.contents, leaf);
          SetPositionWithKey(leaf, records[|records| - 1].key);
          return true;
        }
        ChainAdvances(dbm.leaves, dbm.span, dbm.first, dbm.last, dbm.contents, leaf);
        forall r | GreatestBefore(dbm.contents, dbm.span[leaf].lo, r)
          ensures GreatestBefore(dbm.contents, b, r)
        {
          SkipEmptyPrev(dbm.leaves, dbm.span, dbm.first, dbm.last, dbm.contents, leaf, r);
        }
        leaf := dbm.leaves[leaf].prev;
      }
      assert GreatestBefore(dbm.contents, NegInf, None);
      return false;
    }

    /** The leaf to look for a key in: the remembered one, or else the one a search finds. */
    method CurrentLeaf(key: Key) returns (leaf: Addr)
      requires dbm.Consistent() && Registered()
      ensures leaf in dbm.leaves
      ensures leaf == dbm.iterators[id].leaf || (dbm.iterators[id].leaf == 0 && InSpan(key, dbm.span[leaf]))
    {
      leaf := dbm.iterators[id].leaf;
      if leaf == 0 {
        leaf := dbm.SearchTree(key);
      }
    }

    /** From the position of a key to the next stored key. */
    method NextImpl(key: Key)
      requires dbm.Consistent() && Registered()
      requires dbm.iterators[id].leaf == 0 || InSpan(key, dbm.span[dbm.iterators[id].leaf])
      modifies dbm`iterators
      ensures dbm.Consistent() && Registered()
      ensures LeastAbove(dbm.contents, key, false, Position())
    {
      var leaf := CurrentLeaf(key);
      LookupInLeaf(dbm.leaves, dbm.span, dbm.first, dbm.last, dbm.contents, leaf, key);
      var records := dbm.leaves[leaf].records;
      var it := UpperBound(records, key);
      AboveInLeaf(dbm.leaves, dbm.span, dbm.first, dbm.last, dbm.contents, leaf, key, false, None);
      if it < |records| {
        SetPositionWithKey(leaf, records[it].key);
        return;
      }
      ChainAdvances(dbm.leaves, dbm.span, dbm.first, dbm.last, dbm.contents, leaf);
      var hit := SetPositionFirst(dbm.leaves[leaf].next, dbm.span[leaf].hi);
      if !hit {
        ClearPosition();
      }
      AboveInLeaf(dbm.leaves, dbm.span, dbm.first, dbm.last, dbm.contents, leaf, key, false, Position());
    }

    method First()
      requires dbm.Consistent() && Registered()
      modifies dbm`iterators
      ensures dbm.Consistent() && Registered()
      ensures LeastFrom(dbm.contents, NegInf, Position())
    {
      ClearPosition();
      var _ := SetPositionFirst(dbm.first, NegInf);
    }

    method Last()
      requires dbm.Consistent() && Registered()
      modifies dbm`iterators
      ensures dbm.Consistent() && Registered()
      ensures GreatestBefore(dbm.contents, PosInf, Position())
    {
      ClearPosition();
      var _ := SetPositionLast(dbm.last, PosInf);
    }

    method Jump(key: Key)
      requires dbm.Consistent() && Registered()
      modifies dbm`iterators
      ensures dbm.Consistent() && dbm.iterators == old(dbm.iterators)[id := IterPos(Some(key), 0)]
    {
      ClearPosition();
      SetPositionWithKey(0, key);
    }

    method Next() returns (found: bool)
      requires dbm.Consistent() && Registered()
      modifies dbm`iterators
      ensures dbm.Consistent() && Registered()
      ensures found == old(Position()).Some?
      ensures found ==> LeastAbove(dbm.contents, old(Position()).value, false, Position())
      ensures !found ==> Position().None?
    {
      var key := dbm.iterators[id].key;
      if key.None? {
        return false;
      }
      NextImpl(key.value);
      return true;
    }

    /** Goes to the first stored key not below the given one. */
    method SyncPosition(key: Key) returns (found: bool)
      requires dbm.Consistent() && Registered()
      requires dbm.iterators[id].leaf == 0 || InSpan(key, dbm.span[dbm.iterators[id].leaf])
      modifies dbm`iterators
      ensures dbm.Consistent() && Registered()
      ensures found == Position().Some? && LeastAbove(dbm.contents, key, true, Position())
      ensures found ==> dbm.iterators[id].leaf != 0
    {
      var leaf := CurrentLeaf(key);
      LookupInLeaf(dbm.leaves, dbm.span, dbm.first, dbm.last, dbm.contents, leaf, key);
      var records := dbm.leaves[leaf].records;
      var it := LowerBound(records, key);
      AboveInLeaf(dbm.leaves, dbm.span, dbm.first, dbm.last, dbm.contents, leaf, key, true, None);
      if it < |records| {
        SetPositionWithKey(leaf, records[it].key);
        return true;
      }
      ChainAdvances(dbm.leaves, dbm.span, dbm.first, dbm.last, dbm.contents, leaf);
      found := SetPositionFirst(dbm.leaves[leaf].next, dbm.span[leaf].hi);
      if !found {
        ClearPosition();
      }
      AboveInLeaf(dbm.leaves, dbm.span, dbm.first, dbm.last, dbm.contents, leaf, key, true, Position());
    }

    /** From the position of some stored key not below `key` to the greatest one below it. */
    method PreviousImpl(key: Key) returns (ghost leaf: Addr)
      requires dbm.Consistent() && Registered()
      modifies dbm`iterators
      ensures dbm.Consistent() && Registered()
      ensures leaf in dbm.leaves && SortedRecords(dbm.leaves[leaf].records)
      ensures leaf == old(dbm.iterators)[id].leaf || (old(dbm.iterators)[id].leaf == 0 && InSpan(key, dbm.span[leaf]))
      ensures var p := LowerBound(dbm.leaves[leaf].records, key);
              if 0 < p < |dbm.leaves[leaf].records|
              then Position() == Some(dbm.leaves[leaf].records[p - 1].key)
              else GreatestBefore(dbm.contents, dbm.span[leaf].lo, Position())
    {
      var x := CurrentLeaf(key);
      leaf := x;
      var records := dbm.leaves[x].records;
      assert LeafOK(records, dbm.span[x]);
      var it := LowerBound(records, key);
      if it < |records| {
        if it != 0 {
          assert InSpan(records[it - 1].key, dbm.span[x]);
          SetPositionWithKey(x, records[it - 1].key);
          return;
        }
      }
      ChainAdvances(dbm.leaves, dbm.span, dbm.first, dbm.last, dbm.contents, x);
      var hit := SetPositionLast(dbm.leaves[x].prev, dbm.span[x].lo);
      if !hit {
        ClearPosition();
      }
    }

    /** The leaf has records, and all of them lie below the key: it used to hold the key as its last one. */
    ghost predicate PastTheEnd(leaf: Addr, key: Key)
      requires leaf in dbm.leaves
      reads dbm
    {
      var rs := dbm.leaves[leaf].records;
      |rs| > 0 && rs[|rs| - 1].key < key
    }

    /** Goes back by one key, exactly unless the current key is gone from the end of its leaf. */
    method Previous() returns (found: bool, ghost leaf: Addr)
      requires dbm.Consistent() && Registered()
      modifies dbm`iterators
      ensures dbm.Consistent() && Registered()
      ensures found == old(Position()).Some?
      ensures !found ==> Position().None?
      ensures found ==>
                && leaf in dbm.leaves && InSpan(old(Position()).value, dbm.span[leaf])
                && (GreatestBelow(dbm.contents, old(Position()).value, false, Position())
                    <==> !PastTheEnd(leaf, old(Position()).value))
                && (PastTheEnd(leaf, old(Position()).value) ==>
                      GreatestBefore(dbm.contents, dbm.span[leaf].lo, Position()))
    {
      var key := dbm.iterators[id].key;
      if key.None? {
        return false, 0;
      }
      leaf := PreviousImpl(key.value);
      PreviousExact(dbm.leaves, dbm.span, dbm.first, dbm.last, dbm.contents, leaf, key.value, Position());
      return true, leaf;
    }

    method JumpUpper(key: Key, inclusive: bool)
      requires dbm.Consistent() && Registered()
      modifies dbm`iterators
      ensures dbm.Consistent() && Registered()
      ensures LeastAbove(dbm.contents, key, inclusive, Position())
    {
      ClearPosition();
      SetPositionWithKey(0, key);
      var found := SyncPosition(key);
      if !found {
        return;
      }
      ghost var moved := false;
      while dbm.iterators[id].key.Some?
        invariant dbm.Consistent() && Registered()
        invariant LeastAbove(dbm.contents, key, !moved, Position()) && (moved ==> !inclusive)
        invariant !moved && Position().Some? ==> dbm.iterators[id].leaf != 0
        decreases if moved then 0 else 1
      {
        var recKey := dbm.iterators[id].key.value;
        if recKey > key || (inclusive && recKey == key) {
          return;
        }
        NextImpl(key);
        moved := true;
      }
    }

    method JumpLower(key: Key, inclusive: bool)
      requires dbm.Consistent() && Registered()
      modifies dbm`iterators
      ensures dbm.Consistent() && Registered()
      ensures GreatestBelow(dbm.contents, key, inclusive, Position())
    {
      ClearPosition();
      SetPositionWithKey(0, key);
      var found := SyncPosition(key);
      ghost var moved := !found;
      if !found {
        var hit := SetPositionLast(dbm.last, PosInf);
        if !hit {
          return;
        }
      }
      while dbm.iterators[id].key.Some?
        invariant dbm.Consistent() && Registered()
        invariant LowerState(key, inclusive, moved)
        decreases if moved then 0 else 1
      {
        var recKey := dbm.iterators[id].key.value;
        if recKey < key || (inclusive && recKey == key) {
          return;
        }
        StepDown(key, inclusive);
        moved := true;
      }
    }

    /** Before its step down a lower jump is at the least key not below the goal, afterwards at its goal. */
    ghost predicate LowerState(key: Key, inclusive: bool, moved: bool)
      requires Registered()
      reads this, dbm
    {
      if moved then
        GreatestBelow(dbm.contents, key, false, Position()) && GreatestBelow(dbm.contents, key, inclusive, Position())
      else
        Position().Some? && LeastAbove(dbm.contents, key, true, Position()) && dbm.iterators[id].leaf != 0
    }

    method StepDown(key: Key, ghost inclusive: bool)
      requires dbm.Consistent() && Registered() && LowerState(key, inclusive, false)
      requires !(inclusive && Position() == Some(key))
      modifies dbm`iterators
      ensures dbm.Consistent() && Registered()
      ensures LowerState(key, inclusive, true)
    {
      ghost var recKey := dbm.iterators[id].key.value;
      ghost var leaf := PreviousImpl(key);
      StepBelow(dbm.leaves, dbm.span, dbm.first, dbm.last, dbm.contents, leaf, key, recKey, Position());
    }

    /** Runs a processor on the first stored key not below the current one. */
    method Process(proc: Processor<Key, Value>, writable: bool) returns (found: bool, told: Option<Value>)
      requires dbm.Consistent() && Registered()
      modifies dbm
      ensures dbm.Consistent() && Registered()
      ensures !found ==> dbm.contents == old(dbm.contents) && Position().None?
      ensures old(Position()).None? ==> !found
      ensures found ==>
                && Position().Some?
                && LeastAbove(old(dbm.contents), old(Position()).value, true, Position())
                && dbm.contents == Processed(old(dbm.contents), Position().value, proc, writable)
                && Position().value in old(dbm.contents) && told == Some(old(dbm.contents)[Position().value])
      ensures found ==>
                dbm.contents == if !writable then old(dbm.contents) else
                                  match proc.full(Position().value, told.value)
                                  case Noop => old(dbm.contents)
                                  case Remove => old(dbm.contents) - {Position().value}
                                  case Set(v) => old(dbm.contents)[Position().value := v]
    {
      told := None;
      if writable {
        dbm.ReorganizeIfQueued();
      }
      if dbm.iterators[id].key.None? {
        return false, None;
      }
      var key := dbm.iterators[id].key.value;
      found := SyncPosition(key);
      if found {
        var leaf := dbm.iterators[id].leaf;
        told := dbm.ProcessImpl(leaf, dbm.iterators[id].key.value, proc, writable);
      }
    }
  }

  // ---------------------------------------------------------------- a step back that misses a key

  function Setting(value: Value): Processor<Key, Value> {
    Processor((k, v) => Set(value), k => Set(value))
  }

  function Removing(): Processor<Key, Value> {
    Processor((k, v) => Remove, k => Noop)
  }

  /** A key is stored in a database that is a single leaf with room for more. */
  method StoreKey(it: BabyIterator, key: Key, value: Value)
    requires it.dbm.Consistent() && it.dbm.IsLeaf() && it.Registered()
    requires |it.dbm.contents| < MAX_LEAF_NODE_RECORDS
    modifies it.dbm
    ensures it.dbm.Consistent() && it.dbm.IsLeaf() && it.Registered()
    ensures it.dbm.contents == old(it.dbm.contents)[key := value]
  {
    var _ := it.dbm.Process(key, Setting(value), true);
  }

  /** Two keys are stored, and the iterator goes to the last one. */
  method StoreTwoKeys(it: BabyIterator)
    requires it.dbm.Consistent() && it.dbm.IsLeaf() && it.Registered() && it.dbm.contents == map[]
    modifies it.dbm
    ensures it.dbm.Consistent() && it.dbm.IsLeaf() && it.Registered()
    ensures it.dbm.contents == map[1.0 := "a", 2.0 := "b"] && it.Position() == Some(2.0)
  {
    StoreKey(it, 1.0, "a");
    assert it.dbm.contents == map[1.0 := "a"] && |it.dbm.contents| == 1;
    StoreKey(it, 2.0, "b");
    assert it.dbm.contents == map[1.0 := "a", 2.0 := "b"];
    it.Last();
    GreatestOfTwo(it.Position());
  }

  lemma GreatestOfTwo(r: Option<Key>)
    requires GreatestBefore(map[1.0 := "a", 2.0 := "b"], PosInf, r)
    ensures r == Some(2.0)
  {
    var m: map<Key, Value> := map[1.0 := "a", 2.0 := "b"];
    assert 2.0 in m && Below(2.0, PosInf);
  }

  /** The last one is removed. */
  method RemoveSecond(it: BabyIterator)
    requires it.dbm.Consistent() && it.dbm.IsLeaf() && it.Registered()
    requires it.dbm.contents == map[1.0 := "a", 2.0 := "b"]
    modifies it.dbm
    ensures it.dbm.Consistent() && it.dbm.IsLeaf() && it.Registered() && it.Position() == old(it.Position())
    ensures it.dbm.contents == map[1.0 := "a"]
  {
    assert |it.dbm.contents| == 2;
    var _ := it.dbm.Process(2.0, Removing(), true);
  }

  /** In a single leaf, all of whose records are below the position, going back finds nothing. */
  method StepBack(it: BabyIterator)
    requires it.dbm.Consistent() && it.dbm.IsLeaf() && it.Registered()
    requires it.dbm.contents == map[1.0 := "a"] && it.Position() == Some(2.0)
    modifies it.dbm`iterators
    ensures it.dbm.Consistent() && it.Registered() && it.Position() == None
  {
    ghost var db := it.dbm;
    var found; ghost var leaf;
    found, leaf := it.Previous();
    db.OnlyLeaf(leaf);
    LeafHolds(db.leaves, db.span, db.first, db.last, db.contents, leaf, 1.0, 2.0);
    assert db.span[leaf].lo == NegInf;
    NothingBefore(db.contents, it.Position());
  }

  lemma NothingBefore(m: map<Key, Value>, r: Option<Key>)
    requires GreatestBefore(m, NegInf, r)
    ensures r == None
  {
  }

  /** A leaf whose keys are all below one holds those of its interval, and the last of them is below it too. */
  lemma LeafHolds(leaves: Leaves, span: Spans, first: Addr, last: Addr, m: map<Key, Value>, x: Addr, q: Key, k: Key)
    requires LeafSide(leaves, span, first, last, m) && x in leaves && q in m && InSpan(q, span[x])
    requires forall p :: p in m ==> p < k
    ensures |leaves[x].records| > 0 && leaves[x].records[|leaves[x].records| - 1].key < k
  {
    var rs := leaves[x].records;
    assert LeafOK(rs, span[x]) && Stored(rs, m) && HasKey(leaves[x].records, q);
    assert rs[|rs| - 1].key in m;
  }

  method EmptyDatabase() returns (it: BabyIterator)
    ensures fresh(it) && fresh(it.dbm) && it.Registered()
    ensures it.dbm.Consistent() && it.dbm.IsLeaf() && it.dbm.contents == map[]
  {
    var dbm := new BabyDBM();
    it := new BabyIterator(dbm);
  }

  /** Stored, removed and stepped back from: a key is missed although it is stored. */
  method StepBackFromRemoved() returns (it: BabyIterator, ghost before: Option<Key>)
    ensures fresh(it) && fresh(it.dbm) && it.dbm.Consistent() && it.Registered()
    ensures it.dbm.contents == map[1.0 := "a"] && before == Some(2.0) && it.Position() == None
  {
    it := EmptyDatabase();
    StoreTwoKeys(it);
    RemoveSecond(it);
    before := it.Position();
    StepBack(it);
  }
}
