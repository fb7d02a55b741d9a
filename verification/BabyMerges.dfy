/**
 What reorganising leaves undone: a leaf with too few records is merged into a neighbour whatever the
 neighbour's size, and the merged leaf is not queued to be divided.
 */
module BabyMerges {
  import opened Basics
  import opened BabyNodes
  import opened BabyTree
  import opened BabyDatabase

  function Whole(i: nat): Key {
    i as real
  }

  /** The whole numbers from one on up to another, as records. */
  function Row(i: nat, j: nat): (rs: seq<Record>)
    requires i <= j
    ensures |rs| == j - i && forall x {:trigger rs[x]} :: 0 <= x < |rs| ==> rs[x] == Record(Whole(i + x), "")
  {
    if i == j then [] else Row(i, j - 1) + [Record(Whole(j - 1), "")]
  }

  ghost function RowMap(n: nat): map<Key, Value> {
    if n == 0 then map[] else RowMap(n - 1)[Whole(n - 1) := ""]
  }

  lemma {:induction false} RowMapHas(n: nat, i: nat)
    requires i < n
    ensures Whole(i) in RowMap(n) && RowMap(n)[Whole(i)] == ""
  {
    if i < n - 1 { RowMapHas(n - 1, i); }
  }

  lemma {:induction false} RowMapOnly(n: nat, k: Key) returns (i: nat)
    requires k in RowMap(n)
    ensures i < n && k == Whole(i)
  {
    if k == Whole(n - 1) { i := n - 1; } else { i := RowMapOnly(n - 1, k); }
  }

  /** Two leaves of `n` and `p` records under one root. */
  function TwoLeaves(n: nat, p: nat): Leaves {
    map[1 := LeafNode(0, 2, Row(0, n)), 2 := LeafNode(1, 0, Row(n, n + p))]
  }

  function OneInner(n: nat): Inners {
    map[3 := InnerNode(1, [Link(Whole(n), 2)])]
  }

  function TheirSpans(n: nat): Spans {
    map[1 := Span(NegInf, At(Whole(n)), 0), 2 := Span(At(Whole(n)), PosInf, 0), 3 := Span(NegInf, PosInf, 1)]
  }

  /** The interval of the whole numbers from `i` up to `j`, out of those up to `n`. */
  ghost predicate Around(s: Span, i: nat, j: nat, n: nat) {
    s.lo == (if i == 0 then NegInf else At(Whole(i))) && s.hi == (if j == n then PosInf else At(Whole(j)))
  }

  lemma AroundIs(s: Span, i: nat, j: nat, n: nat, k: nat)
    requires Around(s, i, j, n) && k < n
    ensures InSpan(Whole(k), s) <==> i <= k < j || (j == n && i <= k)
  {
  }

  lemma RowHolds(i: nat, j: nat, n: nat, s: Span, rs: seq<Record>, m: map<Key, Value>)
    requires i <= j <= n && Around(s, i, j, n) && rs == Row(i, j) && m == RowMap(n)
    ensures LeafOK(rs, s) && Stored(rs, m) && Covers(rs, m, s)
  {
    forall x | 0 <= x < |rs|
      ensures InSpan(rs[x].key, s) && rs[x].key in m && m[rs[x].key] == rs[x].value
    {
      AroundIs(s, i, j, n, i + x);
      RowMapHas(n, i + x);
    }
    forall k | k in m && InSpan(k, s)
      ensures HasKey(rs, k)
    {
      var x := RowMapOnly(n, k);
      AroundIs(s, i, j, n, x);
      assert rs[x - i].key == k;
    }
  }

  lemma RecordsInLeaves(n: nat, p: nat, leaves: Leaves, span: Spans, m: map<Key, Value>)
    requires n > 0 && p > 0 && leaves == TwoLeaves(n, p) && span == TheirSpans(n) && m == RowMap(n + p)
    ensures LeavesOK(leaves, span) && Holds(m, leaves, span)
  {
    RowHolds(0, n, n + p, span[1], leaves[1].records, m);
    RowHolds(n, n + p, n + p, span[2], leaves[2].records, m);
    TwoHold(leaves, span, m);
  }

  lemma TwoHold(leaves: Leaves, span: Spans, m: map<Key, Value>)
    requires leaves.Keys == {1, 2} && 1 in span && 2 in span
    requires LeafOK(leaves[1].records, span[1]) && LeafOK(leaves[2].records, span[2])
    requires Stored(leaves[1].records, m) && Stored(leaves[2].records, m)
    requires Covers(leaves[1].records, m, span[1]) && Covers(leaves[2].records, m, span[2])
    ensures LeavesOK(leaves, span) && Holds(m, leaves, span)
  {
  }

  lemma LeavesLinked(n: nat, p: nat)
    ensures ChainOK(TwoLeaves(n, p), TheirSpans(n), 1, 2)
  {
    var leaves, span := TwoLeaves(n, p), TheirSpans(n);
    assert NextOK(leaves, span, 1) && NextOK(leaves, span, 2) && PrevOK(leaves, span, 1) && PrevOK(leaves, span, 2);
  }

  lemma InnerOverLeaves(n: nat, p: nat)
    ensures Indexed(TwoLeaves(n, p), OneInner(n), TheirSpans(n), 2) && Separate(TheirSpans(n))
    ensures TreeSide(OneInner(n), TheirSpans(n), 2, 3)
  {
    var links := [Link(Whole(n), 2)];
    assert ChildAt(1, links, 0) == 1 && ChildAt(1, links, 1) == 2;
    assert InnerOK(OneInner(n), 3, TheirSpans(n));
  }

  lemma FirstIsQueued(n: nat, p: nat)
    requires 0 < n && p >= MAX_LEAF_NODE_RECORDS / 2
    ensures QueueOK({(1, Whole(0))}, {}, TwoLeaves(n, p), TheirSpans(n))
    ensures LeavesTidy({(1, Whole(0))}, {}, TwoLeaves(n, p), 3)
  {
    assert Queued({(1, Whole(0))}, 1);
  }

  /**
   A state that meets the invariants, with the first leaf waiting to be merged. What it is merged
   into has all the records, 127 and 256 of them for instance, and is in no queue.
   */
  lemma MergeOverfills(n: nat, p: nat, leaves: Leaves, inners: Inners, span: Spans)
    requires 0 < n < MAX_LEAF_NODE_RECORDS / 2 <= p
    requires leaves == TwoLeaves(n, p) && inners == OneInner(n) && span == TheirSpans(n)
    ensures Indexed(leaves, inners, span, 2) && Separate(span) && TreeSide(inners, span, 2, 3)
    ensures LeafSide(leaves, span, 1, 2, RowMap(n + p))
    ensures QueueOK({(1, Whole(0))}, {}, leaves, span) && LeavesTidy({(1, Whole(0))}, {}, leaves, 3)
    ensures Neighbours(leaves, span, 1, 2, 2)
    ensures |leaves[1].records| < MAX_LEAF_NODE_RECORDS / 2 && |FuseLeaves(leaves, 1, 2, 2)[2].records| == n + p
  {
    RecordsInLeaves(n, p, leaves, span, RowMap(n + p));
    LeavesLinked(n, p);
    InnerOverLeaves(n, p);
    FirstIsQueued(n, p);
  }
}
