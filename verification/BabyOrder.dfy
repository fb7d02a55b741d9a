/**
 What the invariant of the B+ tree means for the whole tree: the leaf chain is the in-order sequence
 of the leaves, the nodes determine the stored map, and the tree is never too high for the path
 buffers of the restructuring code.
 */
module BabyOrder {
  import opened Basics
  import opened BabyNodes
  import opened BabyTree

  // ---------------------------------------------------------------- the chain is the in-order sequence

  /** The leaves below a node of a given height, from left to right. */
  ghost function InOrder(inners: Inners, node: Addr, height: nat): seq<Addr>
    decreases height, 0
  {
    if height == 0 then [node]
    else if node in inners then InOrderChildren(inners, node, height, |inners[node].links| + 1)
    else []
  }

  /** The leaves below the first `n` children of an inner node. */
  ghost function InOrderChildren(inners: Inners, node: Addr, height: nat, n: nat): seq<Addr>
    requires height >= 1 && node in inners && n <= |inners[node].links| + 1
    decreases height - 1, n + 1
  {
    if n == 0 then []
    else InOrderChildren(inners, node, height, n - 1)
         + InOrder(inners, ChildAt(inners[node].heir, inners[node].links, n - 1), height - 1)
  }

  /** Leaves side by side that fill an interval. */
  ghost predicate Tiles(ls: seq<Addr>, leaves: Leaves, span: Spans, lo: Bound, hi: Bound) {
    && |ls| > 0
    && (forall i :: 0 <= i < |ls| ==> ls[i] in leaves && ls[i] in span)
    && span[ls[0]].lo == lo && span[ls[|ls| - 1]].hi == hi
    && (forall i, j :: 0 <= i && j == i + 1 && j < |ls| ==> span[ls[i]].hi == span[ls[j]].lo)
  }

  lemma TilesConcat(a: seq<Addr>, b: seq<Addr>, leaves: Leaves, span: Spans, lo: Bound, mid: Bound, hi: Bound)
    requires Tiles(a, leaves, span, lo, mid) && Tiles(b, leaves, span, mid, hi)
    ensures Tiles(a + b, leaves, span, lo, hi)
  {
    var c := a + b;
    forall i, j | 0 <= i && j == i + 1 && j < |c|
      ensures span[c[i]].hi == span[c[j]].lo
    {
      assert c[i] == if i < |a| then a[i] else b[i - |a|];
      assert c[j] == if j < |a| then a[j] else b[j - |a|];
    }
  }

  lemma {:induction false} InOrderTiles(leaves: Leaves, inners: Inners, span: Spans, level: nat, node: Addr,
                                        height: nat)
    requires Indexed(leaves, inners, span, level) && InnersOK(inners, span)
    requires node in span && span[node].height == height
    ensures Tiles(InOrder(inners, node, height), leaves, span, span[node].lo, span[node].hi)
    decreases height, 0
  {
    if height > 0 {
      assert InnerOK(inners, node, span);
      ChildrenTile(leaves, inners, span, level, node, height, |inners[node].links| + 1);
    }
  }

  lemma {:induction false} ChildrenTile(leaves: Leaves, inners: Inners, span: Spans, level: nat, node: Addr,
                                        height: nat, n: nat)
    requires Indexed(leaves, inners, span, level) && InnersOK(inners, span)
    requires node in inners && InnerOK(inners, node, span) && span[node].height == height >= 1
    requires 1 <= n <= |inners[node].links| + 1
    ensures Tiles(InOrderChildren(inners, node, height, n), leaves, span, span[node].lo,
                  Sep(inners[node].links, span[node], n))
    decreases height - 1, n + 1
  {
    var nd := inners[node];
    var c := ChildAt(nd.heir, nd.links, n - 1);
    assert c in span && span[c] == Span(Sep(nd.links, span[node], n - 1), Sep(nd.links, span[node], n), height - 1);
    InOrderTiles(leaves, inners, span, level, c, height - 1);
    if n == 1 {
      assert InOrderChildren(inners, node, height, 0) == [];
      assert InOrderChildren(inners, node, height, 1) == InOrder(inners, c, height - 1);
    } else {
      ChildrenTile(leaves, inners, span, level, node, height, n - 1);
      TilesConcat(InOrderChildren(inners, node, height, n - 1), InOrder(inners, c, height - 1), leaves, span,
                  span[node].lo, Sep(nd.links, span[node], n - 1), Sep(nd.links, span[node], n));
    }
  }

  /** A leaf that misses every tile lies behind them all. */
  lemma {:induction false} BehindTiles(ls: seq<Addr>, leaves: Leaves, span: Spans, hi: Bound, a: Addr, i: nat)
    requires Tiles(ls, leaves, span, NegInf, hi) && Separate(span) && a in span && i < |ls|
    requires forall j :: 0 <= j < |ls| ==> ls[j] != a && span[ls[j]].height == span[a].height
    ensures BLe(span[ls[i]].hi, span[a].lo)
  {
    assert Apart(span[ls[i]], span[a]);
    if i > 0 {
      BehindTiles(ls, leaves, span, hi, a, i - 1);
      assert span[ls[i - 1]].hi == span[ls[i]].lo;
    }
  }

  /** A leaf is linked to its neighbours in a sequence of leaves. */
  ghost predicate Linked(leaves: Leaves, ls: seq<Addr>, i: nat)
    requires i < |ls|
  {
    && ls[i] in leaves
    && leaves[ls[i]].next == (if i + 1 < |ls| then ls[i + 1] else 0)
    && leaves[ls[i]].prev == (if i > 0 then ls[i - 1] else 0)
  }

  /**
   Following `next` from `first` visits exactly the leaves of the tree, in the order of an
   in-order traversal from the root, and ends at `last`.
   */
  lemma ChainIsInOrder(leaves: Leaves, inners: Inners, span: Spans, level: nat, root: Addr, first: Addr, last: Addr,
                       m: map<Key, Value>)
    requires Indexed(leaves, inners, span, level) && Separate(span)
    requires TreeSide(inners, span, level, root) && LeafSide(leaves, span, first, last, m)
    ensures var ls := InOrder(inners, root, level - 1);
            && |ls| > 0 && ls[0] == first && ls[|ls| - 1] == last
            && (forall i :: 0 <= i < |ls| ==> Linked(leaves, ls, i))
            && (forall a :: a in leaves ==> a in ls)
            && (forall i, j :: 0 <= i < j < |ls| ==> ls[i] != ls[j])
  {
    var ls := InOrder(inners, root, level - 1);
    InOrderTiles(leaves, inners, span, level, root, level - 1);
    assert ls[0] != first ==> Apart(span[ls[0]], span[first]);
    assert ls[|ls| - 1] != last ==> Apart(span[ls[|ls| - 1]], span[last]);
    forall i | 0 <= i < |ls|
      ensures Linked(leaves, ls, i)
    {
      assert NextOK(leaves, span, ls[i]) && PrevOK(leaves, span, ls[i]);
      var n, p := leaves[ls[i]].next, leaves[ls[i]].prev;
      if i + 1 < |ls| {
        assert span[ls[i]].hi == span[ls[i + 1]].lo;
        assert n != 0;
        assert n != ls[i + 1] ==> Apart(span[n], span[ls[i + 1]]);
      }
      if i > 0 {
        assert span[ls[i - 1]].hi == span[ls[i]].lo;
        assert p != 0 && NextOK(leaves, span, p);
        assert p != ls[i - 1] ==> Apart(span[p], span[ls[i - 1]]);
      }
    }
    forall a | a in leaves
      ensures a in ls
    {
      if a !in ls {
        assert forall j :: 0 <= j < |ls| ==> ls[j] in ls && ls[j] in leaves;
        BehindTiles(ls, leaves, span, PosInf, a, |ls| - 1);
      }
    }
    forall i, j | 0 <= i < j < |ls|
      ensures ls[i] != ls[j]
    {
      TilesAscend(ls, leaves, span, NegInf, PosInf, i, j);
    }
  }

  /** Where `n` steps to the next leaf lead to. */
  ghost function Follow(leaves: Leaves, a: Addr, n: nat): Addr {
    if n == 0 then a
    else
      var b := Follow(leaves, a, n - 1);
      if b in leaves then leaves[b].next else 0
  }

  /** The `n`-th leaf of the traversal is `n` steps from the first, and behind the last there is none. */
  lemma {:induction false} FollowInOrder(leaves: Leaves, inners: Inners, span: Spans, level: nat, root: Addr,
                                         first: Addr, last: Addr, m: map<Key, Value>, n: nat)
    requires Indexed(leaves, inners, span, level) && Separate(span)
    requires TreeSide(inners, span, level, root) && LeafSide(leaves, span, first, last, m)
    requires n <= |InOrder(inners, root, level - 1)|
    ensures Follow(leaves, first, n)
            == if n == |InOrder(inners, root, level - 1)| then 0 else InOrder(inners, root, level - 1)[n]
  {
    ChainIsInOrder(leaves, inners, span, level, root, first, last, m);
    if n > 0 {
      FollowInOrder(leaves, inners, span, level, root, first, last, m, n - 1);
      assert Linked(leaves, InOrder(inners, root, level - 1), n - 1);
    }
  }

  lemma {:induction false} TilesAscend(ls: seq<Addr>, leaves: Leaves, span: Spans, lo: Bound, hi: Bound, i: nat, j: nat)
    requires Tiles(ls, leaves, span, lo, hi) && Separate(span) && i < j < |ls|
    ensures BLt(span[ls[i]].lo, span[ls[j]].lo)
  {
    if i + 1 < j { TilesAscend(ls, leaves, span, lo, hi, i, j - 1); }
    assert span[ls[j - 1]].hi == span[ls[j]].lo;
  }

  /** Some tile of a full tiling holds any given key. */
  lemma {:induction false} TileOf(ls: seq<Addr>, leaves: Leaves, span: Spans, lo: Bound, hi: Bound, k: Key, i: nat)
    requires Tiles(ls, leaves, span, lo, hi) && BLe(lo, At(k)) && i < |ls|
    ensures (exists j :: 0 <= j <= i && InSpan(k, span[ls[j]])) || BLe(span[ls[i]].hi, At(k))
  {
    if i > 0 {
      TileOf(ls, leaves, span, lo, hi, k, i - 1);
      assert span[ls[i - 1]].hi == span[ls[i]].lo;
    }
    assert InSpan(k, span[ls[i]]) || !InSpan(k, span[ls[i]]);
  }

  /** The nodes determine the stored map: no two different maps fit the same tree. */
  lemma ContentsDetermined(leaves: Leaves, inners: Inners, span: Spans, level: nat, root: Addr, first: Addr, last: Addr,
                           m: map<Key, Value>, m': map<Key, Value>)
    requires Indexed(leaves, inners, span, level) && TreeSide(inners, span, level, root)
    requires LeafSide(leaves, span, first, last, m) && LeafSide(leaves, span, first, last, m')
    ensures m == m'
  {
    forall k | k in m || k in m'
      ensures k in m && k in m' && m[k] == m'[k]
    {
      var ls := InOrder(inners, root, level - 1);
      InOrderTiles(leaves, inners, span, level, root, level - 1);
      TileOf(ls, leaves, span, NegInf, PosInf, k, |ls| - 1);
      var j :| 0 <= j < |ls| && InSpan(k, span[ls[j]]);
      var a := ls[j];
      assert Stored(leaves[a].records, m) && Stored(leaves[a].records, m');
      assert HasKey(leaves[a].records, k);
      var i :| 0 <= i < |leaves[a].records| && leaves[a].records[i].key == k;
    }
  }

  // ---------------------------------------------------------------- the height of the tree

  function Pow(b: nat, n: nat): nat {
    if n == 0 then 1 else b * Pow(b, n - 1)
  }

  lemma MulMono(a: nat, b: nat, c: nat)
    requires a <= b
    ensures a * c <= b * c
  {
  }

  lemma {:induction false} PowMono(b: nat, i: nat, j: nat)
    requires b >= 1 && i <= j
    ensures 1 <= Pow(b, i) <= Pow(b, j)
  {
    if i < j {
      PowMono(b, i, j - 1);
      MulMono(1, b, Pow(b, j - 1));
    } else if i > 0 {
      PowMono(b, i - 1, i - 1);
      MulMono(1, b, Pow(b, i - 1));
    }
  }

  /** Below the root every node of some height has at least that many leaves, whatever is in them. */
  lemma {:induction false} NodeCount(leaves: Leaves, inners: Inners, span: Spans, level: nat, root: Addr, x: Addr,
                                     height: nat)
    requires Indexed(leaves, inners, span, level) && TreeSide(inners, span, level, root)
    requires x in span && x != root && span[x].height == height
    ensures |InOrder(inners, x, height)| >= Pow(MAX_INNER_NODE_BRANCHES / 2 + 1, height)
    decreases height, 0
  {
    if height > 0 {
      assert InnerOK(inners, x, span) && Occupied(inners, x, root);
      var n := |inners[x].links| + 1;
      ChildrenCount(leaves, inners, span, level, root, x, height, n);
      MulMono(MAX_INNER_NODE_BRANCHES / 2 + 1, n, Pow(MAX_INNER_NODE_BRANCHES / 2 + 1, height - 1));
    }
  }

  lemma {:induction false} ChildrenCount(leaves: Leaves, inners: Inners, span: Spans, level: nat, root: Addr,
                                         x: Addr, height: nat, n: nat)
    requires Indexed(leaves, inners, span, level) && TreeSide(inners, span, level, root)
    requires x in inners && InnerOK(inners, x, span) && span[x].height == height >= 1
    requires n <= |inners[x].links| + 1
    ensures |InOrderChildren(inners, x, height, n)| >= n * Pow(MAX_INNER_NODE_BRANCHES / 2 + 1, height - 1)
    decreases height - 1, n + 1
  {
    var nd, p := inners[x], Pow(MAX_INNER_NODE_BRANCHES / 2 + 1, height - 1);
    if n > 0 {
      var c := ChildAt(nd.heir, nd.links, n - 1);
      ChildrenCount(leaves, inners, span, level, root, x, height, n - 1);
      assert c in span && span[c] == Span(Sep(nd.links, span[x], n - 1), Sep(nd.links, span[x], n), height - 1);
      assert span[c].height != span[root].height;
      NodeCount(leaves, inners, span, level, root, c, height - 1);
      assert n * p == (n - 1) * p + p;
    }
  }

  /** A tree with inner nodes has twice that many leaves at least. */
  lemma TreeCount(leaves: Leaves, inners: Inners, span: Spans, level: nat, root: Addr)
    requires Indexed(leaves, inners, span, level) && Separate(span) && TreeSide(inners, span, level, root) && level >= 2
    ensures |leaves| >= 2 * Pow(MAX_INNER_NODE_BRANCHES / 2 + 1, level - 2)
  {
    assert root in inners && InnerOK(inners, root, span) && Occupied(inners, root, root);
    var n, ls := |inners[root].links| + 1, InOrder(inners, root, level - 1);
    ChildrenCount(leaves, inners, span, level, root, root, level - 1, n);
    MulMono(2, n, Pow(MAX_INNER_NODE_BRANCHES / 2 + 1, level - 2));
    InOrderTiles(leaves, inners, span, level, root, level - 1);
    forall i, j | 0 <= i < j < |ls|
      ensures ls[i] != ls[j]
    {
      TilesAscend(ls, leaves, span, NegInf, PosInf, i, j);
    }
    DistinctSize(ls, leaves.Keys);
  }

  lemma {:induction false} DistinctSize(ls: seq<Addr>, s: set<Addr>)
    requires (forall i, j :: 0 <= i < j < |ls| ==> ls[i] != ls[j]) && forall i :: 0 <= i < |ls| ==> ls[i] in s
    ensures |ls| <= |s|
  {
    if |ls| > 0 {
      var e := |ls| - 1;
      DistinctSize(ls[..e], s - {ls[e]});
    }
  }

  /**
   With fewer than 2^63 leaves a tree has at most ten levels, however little is in the leaves: the
   path from the root to a leaf's parent fits the buffers of the restructuring code.
   */
  lemma PathFits(leaves: Leaves, inners: Inners, span: Spans, level: nat, root: Addr)
    requires Indexed(leaves, inners, span, level) && Separate(span) && TreeSide(inners, span, level, root)
    ensures |leaves| < 0x8000_0000_0000_0000 ==> level <= 10 && level - 1 <= TREE_LEVEL_MAX
  {
    if level > 10 {
      TreeCount(leaves, inners, span, level, root);
      TooManyLeaves(level);
    }
  }

  lemma TooManyLeaves(level: nat)
    requires level > 10
    ensures 2 * Pow(MAX_INNER_NODE_BRANCHES / 2 + 1, level - 2) >= 0x8000_0000_0000_0000
  {
    PowMono(129, 9, level - 2);
    PowNine();
  }

  lemma PowNine()
    ensures 2 * Pow(129, 9) >= 0x8000_0000_0000_0000
  {
    assert Pow(129, 1) == 129 * Pow(129, 0) == 129;
    assert Pow(129, 2) == 129 * Pow(129, 1) == 16641;
    assert Pow(129, 3) == 129 * Pow(129, 2) == 2146689;
    assert Pow(129, 4) == 129 * Pow(129, 3) == 276922881;
    assert Pow(129, 5) == 129 * Pow(129, 4) == 35723051649;
    assert Pow(129, 6) == 129 * Pow(129, 5) == 4608273662721;
    assert Pow(129, 7) == 129 * Pow(129, 6) == 594467302491009;
    assert Pow(129, 8) == 129 * Pow(129, 7) == 76686282021340161;
    assert Pow(129, 9) == 129 * Pow(129, 8) == 9892530380752880769;
  }
}
