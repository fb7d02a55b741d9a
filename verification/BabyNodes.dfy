/**
 Value-level vocabulary of the on-memory B+ tree: keys, records, links, the key interval
 every node is responsible for, and the shape an inner node must have.

 Keys are points of a dense total order. Only comparisons are ever made on them, and every
 countable total order (byte strings under any key comparator) embeds into the reals.
 */
module BabyNodes {
  import opened Basics

  type Key = real
  type Value = string

  const MAX_LEAF_NODE_RECORDS: nat := 256
  const MAX_INNER_NODE_BRANCHES: nat := 256
  const TREE_LEVEL_MAX: nat := 20

  datatype Record = Record(key: Key, value: Value)

  // ---------------------------------------------------------------- key intervals

  datatype Bound = NegInf | At(key: Key) | PosInf

  predicate BLt(a: Bound, b: Bound) {
    (a.NegInf? && !b.NegInf?) || (b.PosInf? && !a.PosInf?) || (a.At? && b.At? && a.key < b.key)
  }

  predicate BLe(a: Bound, b: Bound) {
    a == b || BLt(a, b)
  }

  /** The half-open interval of keys a node answers for, and its distance from the leaves. */
  datatype Span = Span(lo: Bound, hi: Bound, height: nat)

  predicate InSpan(k: Key, s: Span) {
    BLe(s.lo, At(k)) && BLt(At(k), s.hi)
  }

  predicate Apart(a: Span, b: Span) {
    BLe(a.hi, b.lo) || BLe(b.hi, a.lo)
  }

  // ---------------------------------------------------------------- records in a leaf

  ghost predicate SortedRecords(rs: seq<Record>) {
    forall i, j :: 0 <= i < j < |rs| ==> rs[i].key < rs[j].key
  }

  ghost predicate HasKey(rs: seq<Record>, k: Key) {
    exists i :: 0 <= i < |rs| && rs[i].key == k
  }

  /** The position std::lower_bound finds among sorted records. */
  function LowerBound(rs: seq<Record>, k: Key): (p: nat)
    requires SortedRecords(rs)
    ensures p <= |rs|
    ensures forall i :: 0 <= i < p ==> rs[i].key < k
    ensures forall i :: p <= i < |rs| ==> k <= rs[i].key
  {
    if |rs| == 0 then 0
    else if rs[|rs| - 1].key < k then |rs|
    else
      assert forall i :: 0 <= i < |rs| - 1 ==> rs[..|rs| - 1][i] == rs[i];
      LowerBound(rs[..|rs| - 1], k)
  }

  /** The position std::upper_bound finds among sorted records. */
  function UpperBound(rs: seq<Record>, k: Key): (p: nat)
    requires SortedRecords(rs)
    ensures p <= |rs|
    ensures forall i :: 0 <= i < p ==> rs[i].key <= k
    ensures forall i :: p <= i < |rs| ==> k < rs[i].key
  {
    var p := LowerBound(rs, k);
    if p < |rs| && rs[p].key == k then p + 1 else p
  }

  // ---------------------------------------------------------------- links in an inner node

  datatype Link<+N> = Link(key: Key, child: N)

  ghost predicate SortedLinks<N>(ls: seq<Link<N>>) {
    forall i, j :: 0 <= i < j < |ls| ==> ls[i].key < ls[j].key
  }

  /** The position std::upper_bound finds among sorted links. */
  function LinkUpper<N>(ls: seq<Link<N>>, k: Key): (p: nat)
    requires SortedLinks(ls)
    ensures p <= |ls|
    ensures forall i :: 0 <= i < p ==> ls[i].key <= k
    ensures forall i :: p <= i < |ls| ==> k < ls[i].key
  {
    if |ls| == 0 then 0
    else if ls[|ls| - 1].key <= k then |ls|
    else
      assert forall i :: 0 <= i < |ls| - 1 ==> ls[..|ls| - 1][i] == ls[i];
      LinkUpper(ls[..|ls| - 1], k)
  }

  /** Child 0 is the heir; child i is what link i-1 points to. */
  function ChildAt<N>(heir: N, ls: seq<Link<N>>, i: nat): N
    requires i <= |ls|
  {
    if i == 0 then heir else ls[i - 1].child
  }

  /** Child i answers for the keys between separator i and separator i+1. */
  function Sep<N>(ls: seq<Link<N>>, s: Span, i: nat): Bound
    requires i <= |ls| + 1
  {
    if i == 0 then s.lo else if i == |ls| + 1 then s.hi else At(ls[i - 1].key)
  }

  /** Every node answers for at least one key, and two nodes of one level never for the same. */
  ghost predicate Separate<N>(span: map<N, Span>) {
    && (forall a :: a in span ==> BLt(span[a].lo, span[a].hi))
    && (forall a, b {:trigger Apart(span[a], span[b])} ::
          a in span && b in span && a != b && span[a].height == span[b].height ==> Apart(span[a], span[b]))
  }

  /** The links of an inner node cut its interval exactly into its children's intervals. */
  ghost predicate Shape<N>(heir: N, ls: seq<Link<N>>, s: Span, span: map<N, Span>) {
    && s.height >= 1
    && SortedLinks(ls)
    && (forall i :: 0 <= i < |ls| ==> BLt(s.lo, At(ls[i].key)) && BLt(At(ls[i].key), s.hi))
    && (forall i {:trigger ChildAt(heir, ls, i)} :: 0 <= i <= |ls| ==>
          ChildAt(heir, ls, i) in span &&
          span[ChildAt(heir, ls, i)] == Span(Sep(ls, s, i), Sep(ls, s, i + 1), s.height - 1))
  }

  lemma SepOrder<N>(ls: seq<Link<N>>, s: Span, i: nat, j: nat)
    requires SortedLinks(ls) && i < j <= |ls| + 1
    requires BLt(s.lo, s.hi)
    requires forall i :: 0 <= i < |ls| ==> BLt(s.lo, At(ls[i].key)) && BLt(At(ls[i].key), s.hi)
    ensures BLt(Sep(ls, s, i), Sep(ls, s, j))
  {
  }

  /** Descending by upper_bound stays inside the interval of the key. */
  lemma RouteInSpan<N>(heir: N, ls: seq<Link<N>>, s: Span, span: map<N, Span>, k: Key)
    requires Shape(heir, ls, s, span) && InSpan(k, s)
    ensures var c := ChildAt(heir, ls, LinkUpper(ls, k));
            c in span && span[c].height == s.height - 1 && InSpan(k, span[c])
  {
    var i := LinkUpper(ls, k);
    assert ChildAt(heir, ls, i) in span;
  }

  /** A child is uniquely placed in its node, and lies inside the node's interval. */
  lemma ChildPlace<N>(heir: N, ls: seq<Link<N>>, s: Span, span: map<N, Span>, i: nat, j: nat)
    requires Shape(heir, ls, s, span) && BLt(s.lo, s.hi) && i <= |ls| && j <= |ls|
    ensures i != j ==> ChildAt(heir, ls, i) != ChildAt(heir, ls, j)
    ensures BLe(s.lo, span[ChildAt(heir, ls, i)].lo) && BLe(span[ChildAt(heir, ls, i)].hi, s.hi)
  {
    if i < j {
      SepOrder(ls, s, i, j);
    } else if j < i {
      SepOrder(ls, s, j, i);
    }
    assert ChildAt(heir, ls, i) in span && ChildAt(heir, ls, j) in span;
  }

  /** Two different inner nodes never share a child. */
  lemma ParentUnique<N>(h1: N, l1: seq<Link<N>>, s1: Span, i: nat,
                        h2: N, l2: seq<Link<N>>, s2: Span, j: nat, span: map<N, Span>)
    requires Shape(h1, l1, s1, span) && BLt(s1.lo, s1.hi) && i <= |l1|
    requires Shape(h2, l2, s2, span) && BLt(s2.lo, s2.hi) && j <= |l2|
    requires s1.height == s2.height ==> Apart(s1, s2)
    ensures ChildAt(h1, l1, i) != ChildAt(h2, l2, j)
  {
    ChildPlace(h1, l1, s1, span, i, i);
    ChildPlace(h2, l2, s2, span, j, j);
    SepOrder(l1, s1, i, i + 1);
    SepOrder(l2, s2, j, j + 1);
    assert ChildAt(h1, l1, i) in span && ChildAt(h2, l2, j) in span;
  }

  /** What a node's shape depends on: the intervals of its own children. */
  lemma ShapeFrame<N>(heir: N, ls: seq<Link<N>>, s: Span, span: map<N, Span>, span': map<N, Span>)
    requires Shape(heir, ls, s, span)
    requires forall i :: 0 <= i <= |ls| ==>
               var c := ChildAt(heir, ls, i); c in span' && (c in span ==> span'[c] == span[c])
    ensures Shape(heir, ls, s, span')
  {
    forall i {:trigger ChildAt(heir, ls, i)} | 0 <= i <= |ls|
      ensures ChildAt(heir, ls, i) in span' &&
              span'[ChildAt(heir, ls, i)] == Span(Sep(ls, s, i), Sep(ls, s, i + 1), s.height - 1)
    {
      assert ChildAt(heir, ls, i) in span;
    }
  }

  // ---------------------------------------------------------------- edits of an inner node

  function Inserted<T>(xs: seq<T>, i: nat, x: T): seq<T>
    requires i <= |xs|
  {
    xs[..i] + [x] + xs[i..]
  }

  lemma InsertedAt<T>(xs: seq<T>, i: nat, x: T, j: nat)
    requires i <= |xs| && j <= |xs|
    ensures |Inserted(xs, i, x)| == |xs| + 1
    ensures Inserted(xs, i, x)[j] == if j < i then xs[j] else if j == i then x else xs[j - 1]
  {
  }

  /** A key strictly between separators i and i+1 is inserted at position i, and stays in order. */
  lemma InsertionPoint<N>(ls: seq<Link<N>>, s: Span, i: nat, k: Key, child: N)
    requires SortedLinks(ls) && i <= |ls|
    requires i > 0 ==> ls[i - 1].key < k
    requires i < |ls| ==> k < ls[i].key
    ensures LinkUpper(ls, k) == i
    ensures SortedLinks(Inserted(ls, i, Link(k, child)))
  {
    assert forall j :: 0 <= j < i ==> ls[j].key <= ls[i - 1].key;
    assert forall j :: i <= j < |ls| ==> ls[i].key <= ls[j].key;
    var ls' := Inserted(ls, i, Link(k, child));
    forall a, b | 0 <= a < b < |ls'|
      ensures ls'[a].key < ls'[b].key
    {
      InsertedAt(ls, i, Link(k, child), a);
      InsertedAt(ls, i, Link(k, child), b);
    }
  }

  /** Child i was cut at key k; linking the upper part under k restores the node. */
  lemma ShapeAddLink<N>(heir: N, ls: seq<Link<N>>, s: Span, before: map<N, Span>, after: map<N, Span>,
                        i: nat, k: Key, child: N)
    requires Shape(heir, ls, s, before) && BLt(s.lo, s.hi) && i <= |ls|
    requires child !in before && child in after
    requires var c := ChildAt(heir, ls, i);
             var b := before[c];
             && BLt(b.lo, At(k)) && BLt(At(k), b.hi)
             && c in after && after[c] == Span(b.lo, At(k), b.height)
             && after[child] == Span(At(k), b.hi, b.height)
    requires forall n :: n in before && n != ChildAt(heir, ls, i) ==> n in after && after[n] == before[n]
    ensures LinkUpper(ls, k) == i
    ensures Shape(heir, Inserted(ls, i, Link(k, child)), s, after)
  {
    var ls' := Inserted(ls, i, Link(k, child));
    assert before[ChildAt(heir, ls, i)] == Span(Sep(ls, s, i), Sep(ls, s, i + 1), s.height - 1);
    InsertionPoint(ls, s, i, k, child);
    forall j | 0 <= j < |ls'|
      ensures BLt(s.lo, At(ls'[j].key)) && BLt(At(ls'[j].key), s.hi)
    {
      assert ls'[j] == if j < i then ls[j] else if j == i then Link(k, child) else ls[j - 1];
    }
    forall j {:trigger ChildAt(heir, ls', j)} | 0 <= j <= |ls'|
      ensures ChildAt(heir, ls', j) in after &&
              after[ChildAt(heir, ls', j)] == Span(Sep(ls', s, j), Sep(ls', s, j + 1), s.height - 1)
    {
      AddedChild(heir, ls, s, before, i, k, child, j);
    }
  }

  lemma AddedChild<N>(heir: N, ls: seq<Link<N>>, s: Span, before: map<N, Span>, i: nat, k: Key, child: N, j: nat)
    requires Shape(heir, ls, s, before) && BLt(s.lo, s.hi) && i <= |ls| && j <= |ls| + 1
    ensures var ls' := Inserted(ls, i, Link(k, child));
            var c := ChildAt(heir, ls', j);
            && Sep(ls', s, j) == (if j <= i then Sep(ls, s, j) else if j == i + 1 then At(k) else Sep(ls, s, j - 1))
            && Sep(ls', s, j + 1) == (if j < i then Sep(ls, s, j + 1) else if j == i then At(k) else Sep(ls, s, j))
            && (j == i + 1 ==> c == child)
            && (j != i + 1 ==>
                  var j0 := if j <= i then j else j - 1;
                  && c == ChildAt(heir, ls, j0) && c in before
                  && before[c] == Span(Sep(ls, s, j0), Sep(ls, s, j0 + 1), s.height - 1)
                  && (j0 != i ==> c != ChildAt(heir, ls, i)))
  {
    if j != i + 1 {
      var j0 := if j <= i then j else j - 1;
      ChildPlace(heir, ls, s, before, j0, i);
      assert ChildAt(heir, ls, j0) in before;
    }
  }

  /** Cutting a node at link `mid` gives two nodes; the middle child becomes the new heir. */
  lemma ShapeCut<N>(heir: N, ls: seq<Link<N>>, s: Span, span: map<N, Span>, mid: nat)
    requires Shape(heir, ls, s, span) && BLt(s.lo, s.hi) && mid < |ls|
    ensures Shape(heir, ls[..mid], Span(s.lo, At(ls[mid].key), s.height), span)
    ensures Shape(ls[mid].child, ls[mid + 1..], Span(At(ls[mid].key), s.hi, s.height), span)
  {
    var l, r := ls[..mid], ls[mid + 1..];
    var sl, sr := Span(s.lo, At(ls[mid].key), s.height), Span(At(ls[mid].key), s.hi, s.height);
    forall j {:trigger ChildAt(heir, l, j)} | 0 <= j <= |l|
      ensures ChildAt(heir, l, j) in span &&
              span[ChildAt(heir, l, j)] == Span(Sep(l, sl, j), Sep(l, sl, j + 1), s.height - 1)
    {
      assert ChildAt(heir, l, j) == ChildAt(heir, ls, j);
    }
    forall j {:trigger ChildAt(ls[mid].child, r, j)} | 0 <= j <= |r|
      ensures ChildAt(ls[mid].child, r, j) in span &&
              span[ChildAt(ls[mid].child, r, j)] == Span(Sep(r, sr, j), Sep(r, sr, j + 1), s.height - 1)
    {
      assert ChildAt(ls[mid].child, r, j) == ChildAt(heir, ls, mid + 1 + j);
    }
  }

  /** Two neighbours joined by the separator between them form one node. */
  lemma ShapeJoin<N>(h1: N, l1: seq<Link<N>>, s1: Span, h2: N, l2: seq<Link<N>>, s2: Span,
                     k: Key, span: map<N, Span>)
    requires Shape(h1, l1, s1, span) && Shape(h2, l2, s2, span)
    requires s1.hi == At(k) == s2.lo && s1.height == s2.height
    requires BLt(s1.lo, s1.hi) && BLt(s2.lo, s2.hi)
    ensures Shape(h1, l1 + [Link(k, h2)] + l2, Span(s1.lo, s2.hi, s1.height), span)
  {
    var s := Span(s1.lo, s2.hi, s1.height);
    var ls := l1 + [Link(k, h2)] + l2;
    forall j {:trigger ChildAt(h1, ls, j)} | 0 <= j <= |ls|
      ensures ChildAt(h1, ls, j) in span &&
              span[ChildAt(h1, ls, j)] == Span(Sep(ls, s, j), Sep(ls, s, j + 1), s.height - 1)
    {
      if j <= |l1| {
        assert ChildAt(h1, ls, j) == ChildAt(h1, l1, j);
      } else {
        assert ChildAt(h1, ls, j) == ChildAt(h2, l2, j - |l1| - 1);
      }
    }
  }

  /** Where children and separators are once child i+1 has been dropped. */
  lemma DroppedFacts<N>(heir: N, ls: seq<Link<N>>, s: Span, i: nat, j: nat)
    requires i < |ls| && j < |ls|
    ensures |Without(ls, i)| == |ls| - 1
    ensures ChildAt(heir, Without(ls, i), j) == ChildAt(heir, ls, if j <= i then j else j + 1)
    ensures Sep(Without(ls, i), s, j) == Sep(ls, s, if j <= i then j else j + 1)
    ensures Sep(Without(ls, i), s, j + 1) == Sep(ls, s, if j < i then j + 1 else j + 2)
  {
  }

  /** Children i and i+1 became one node, kept under the name of the left one. */
  lemma ShapeDropNext<N>(heir: N, ls: seq<Link<N>>, s: Span, before: map<N, Span>, after: map<N, Span>, i: nat)
    requires Shape(heir, ls, s, before) && BLt(s.lo, s.hi) && i < |ls|
    requires var c, d := ChildAt(heir, ls, i), ChildAt(heir, ls, i + 1);
             && c in after && after[c] == Span(before[c].lo, before[d].hi, before[c].height)
             && forall n :: n in before && n != c && n != d ==> n in after && after[n] == before[n]
    ensures Shape(heir, Without(ls, i), s, after)
  {
    var ls' := Without(ls, i);
    assert ChildAt(heir, ls, i) in before && ChildAt(heir, ls, i + 1) in before;
    forall j {:trigger ChildAt(heir, ls', j)} | 0 <= j <= |ls'|
      ensures ChildAt(heir, ls', j) in after &&
              after[ChildAt(heir, ls', j)] == Span(Sep(ls', s, j), Sep(ls', s, j + 1), s.height - 1)
    {
      var j0 := if j <= i then j else j + 1;
      DroppedFacts(heir, ls, s, i, j);
      ChildPlace(heir, ls, s, before, j0, i);
      ChildPlace(heir, ls, s, before, j0, i + 1);
    }
  }

  /** The heir and links after child i has been absorbed by child i+1. */
  function AbsorbedHeir<N>(heir: N, ls: seq<Link<N>>, i: nat): N
    requires i < |ls|
  {
    if i == 0 then ls[0].child else heir
  }

  function AbsorbedLinks<N>(ls: seq<Link<N>>, i: nat): seq<Link<N>>
    requires i < |ls|
  {
    if i == 0 then ls[1..] else Without(ls[i - 1 := Link(ls[i - 1].key, ls[i].child)], i)
  }

  lemma AbsorbedFacts<N>(heir: N, ls: seq<Link<N>>, s: Span, i: nat, j: nat)
    requires i < |ls| && j < |ls|
    ensures |AbsorbedLinks(ls, i)| == |ls| - 1
    ensures ChildAt(AbsorbedHeir(heir, ls, i), AbsorbedLinks(ls, i), j)
            == ChildAt(heir, ls, if j < i then j else j + 1)
    ensures Sep(AbsorbedLinks(ls, i), s, j) == Sep(ls, s, if j <= i then j else j + 1)
    ensures Sep(AbsorbedLinks(ls, i), s, j + 1) == Sep(ls, s, if j < i then j + 1 else j + 2)
    ensures j < |ls| - 1 ==> AbsorbedLinks(ls, i)[j].key == ls[if j < i then j else j + 1].key
  {
  }

  /** Children i and i+1 became one node, kept under the name of the right one. */
  lemma ShapeDropPrev<N>(heir: N, ls: seq<Link<N>>, s: Span, before: map<N, Span>, after: map<N, Span>, i: nat)
    requires Shape(heir, ls, s, before) && BLt(s.lo, s.hi) && i < |ls|
    requires var c, d := ChildAt(heir, ls, i), ChildAt(heir, ls, i + 1);
             && d in after && after[d] == Span(before[c].lo, before[d].hi, before[c].height)
             && forall n :: n in before && n != c && n != d ==> n in after && after[n] == before[n]
    ensures Shape(AbsorbedHeir(heir, ls, i), AbsorbedLinks(ls, i), s, after)
  {
    var heir', ls' := AbsorbedHeir(heir, ls, i), AbsorbedLinks(ls, i);
    assert ChildAt(heir, ls, i) in before && ChildAt(heir, ls, i + 1) in before;
    forall a, b | 0 <= a < b < |ls'|
      ensures ls'[a].key < ls'[b].key
    {
      AbsorbedFacts(heir, ls, s, i, a);
      AbsorbedFacts(heir, ls, s, i, b);
    }
    forall a | 0 <= a < |ls'|
      ensures BLt(s.lo, At(ls'[a].key)) && BLt(At(ls'[a].key), s.hi)
    {
      AbsorbedFacts(heir, ls, s, i, a);
    }
    forall j {:trigger ChildAt(heir', ls', j)} | 0 <= j <= |ls'|
      ensures ChildAt(heir', ls', j) in after &&
              after[ChildAt(heir', ls', j)] == Span(Sep(ls', s, j), Sep(ls', s, j + 1), s.height - 1)
    {
      AbsorbedFacts(heir, ls, s, i, j);
      AbsorbedChild(heir, ls, s, before, i, if j < i then j else j + 1);
    }
  }

  lemma AbsorbedChild<N>(heir: N, ls: seq<Link<N>>, s: Span, before: map<N, Span>, i: nat, j: nat)
    requires Shape(heir, ls, s, before) && BLt(s.lo, s.hi) && i < |ls| && j <= |ls|
    ensures ChildAt(heir, ls, j) in before
    ensures before[ChildAt(heir, ls, j)] == Span(Sep(ls, s, j), Sep(ls, s, j + 1), s.height - 1)
    ensures j != i ==> ChildAt(heir, ls, j) != ChildAt(heir, ls, i)
    ensures j != i + 1 ==> ChildAt(heir, ls, j) != ChildAt(heir, ls, i + 1)
  {
    ChildPlace(heir, ls, s, before, j, i);
    ChildPlace(heir, ls, s, before, j, i + 1);
    assert ChildAt(heir, ls, j) in before;
  }

  // ---------------------------------------------------------------- edits of the interval map

  /** The interval of `x` cut at `k`, the upper part going to the new node `y`. */
  ghost function CutSpan<N>(span: map<N, Span>, x: N, y: N, k: Key): map<N, Span>
    requires x in span
  {
    span[x := Span(span[x].lo, At(k), span[x].height)][y := Span(At(k), span[x].hi, span[x].height)]
  }

  lemma CutSeparate<N>(span: map<N, Span>, x: N, y: N, k: Key)
    requires Separate(span) && x in span && y !in span
    requires BLt(span[x].lo, At(k)) && BLt(At(k), span[x].hi)
    ensures Separate(CutSpan(span, x, y, k))
  {
    var span' := CutSpan(span, x, y, k);
    forall a, b | a in span' && b in span' && a != b && span'[a].height == span'[b].height
      ensures Apart(span'[a], span'[b])
    {
      var a0, b0 := if a == y then x else a, if b == y then x else b;
      assert a0 != b0 ==> Apart(span[a0], span[b0]);
    }
  }

  /** The nodes `x` and `y` made one, with the interval of both, under the name `kept`. */
  ghost function FuseSpan<N>(span: map<N, Span>, x: N, y: N, kept: N): map<N, Span>
    requires x in span && y in span
  {
    (span - {x, y})[kept := Span(span[x].lo, span[y].hi, span[x].height)]
  }

  lemma FuseSeparate<N>(span: map<N, Span>, x: N, y: N, kept: N)
    requires Separate(span) && x in span && y in span && x != y && (kept == x || kept == y)
    requires span[x].hi == span[y].lo && span[x].height == span[y].height
    ensures Separate(FuseSpan(span, x, y, kept))
  {
    var span' := FuseSpan(span, x, y, kept);
    forall a, b | a in span' && b in span' && a != b && span'[a].height == span'[b].height
      ensures Apart(span'[a], span'[b])
    {
      if a == kept {
        assert Apart(span[x], span[b]) && Apart(span[y], span[b]);
      } else if b == kept {
        assert Apart(span[x], span[a]) && Apart(span[y], span[a]);
      } else {
        assert Apart(span[a], span[b]);
      }
    }
  }
}
