/**
 The on-memory B+ tree: leaf and inner nodes linked by pointers, restructured in place.

 Pointers are addresses into the maps of live nodes, 0 being null: creating a node adds an
 address that is not live, deleting one removes it, and following a pointer is only allowed to
 a live node of the right kind. Every live node carries (in the ghost map `span`) the half-open
 key interval it answers for and its height. The tree, the leaf chain, the iterators and the
 queue of leaves to reorganise are all tied to these intervals, so each step stays local.
 */
module BabyTree {
  import opened Basics
  import opened BabyNodes

  datatype LeafNode = LeafNode(prev: Addr, next: Addr, records: seq<Record>)

  datatype InnerNode = InnerNode(heir: Addr, links: seq<Link<Addr>>)

  /** A registered iterator: a key, and possibly the leaf that key was last seen in. */
  datatype IterPos = IterPos(key: Option<Key>, leaf: Addr)

  type Leaves = map<Addr, LeafNode>
  type Inners = map<Addr, InnerNode>
  type Spans = map<Addr, Span>

  // ---------------------------------------------------------------- invariants

  /** The nodes with an interval are exactly the live ones; leaves are those of height 0. */
  ghost predicate Indexed(leaves: Leaves, inners: Inners, span: Spans, level: nat) {
    && 0 !in span
    && (forall a :: a in leaves ==> a in span && span[a].height == 0)
    && (forall a :: a in inners ==> a in span && 1 <= span[a].height < level)
    && (forall a :: a in span ==> a in leaves || a in inners)
    && level >= 1
  }

  ghost predicate LeafOK(rs: seq<Record>, s: Span) {
    SortedRecords(rs) && forall i :: 0 <= i < |rs| ==> InSpan(rs[i].key, s)
  }

  ghost predicate LeavesOK(leaves: Leaves, span: Spans)
    requires forall a :: a in leaves ==> a in span
  {
    forall a {:trigger LeafOK(leaves[a].records, span[a])} :: a in leaves ==> LeafOK(leaves[a].records, span[a])
  }

  /** The leaf chain passes through the leaves in the order of their intervals, with no gap. */
  ghost predicate ChainOK(leaves: Leaves, span: Spans, first: Addr, last: Addr)
    requires forall a :: a in leaves ==> a in span
  {
    && first in leaves && span[first].lo == NegInf
    && last in leaves && span[last].hi == PosInf
    && (forall a {:trigger NextOK(leaves, span, a)} :: a in leaves ==> NextOK(leaves, span, a))
    && (forall a {:trigger PrevOK(leaves, span, a)} :: a in leaves ==> PrevOK(leaves, span, a))
  }

  ghost predicate NextOK(leaves: Leaves, span: Spans, a: Addr)
    requires a in leaves && forall x :: x in leaves ==> x in span
  {
    var b := leaves[a].next;
    && (b == 0 <==> span[a].hi == PosInf)
    && (b != 0 ==> b in leaves && leaves[b].prev == a && span[b].lo == span[a].hi)
  }

  ghost predicate PrevOK(leaves: Leaves, span: Spans, a: Addr)
    requires a in leaves && forall x :: x in leaves ==> x in span
  {
    var b := leaves[a].prev;
    && (b == 0 <==> span[a].lo == NegInf)
    && (b != 0 ==> b in leaves && leaves[b].next == a)
  }

  ghost predicate InnerOK(inners: Inners, n: Addr, span: Spans) {
    n in inners && n in span && Shape(inners[n].heir, inners[n].links, span[n], span)
  }

  /** A positioned iterator that remembers a leaf remembers the leaf of its own key. */
  ghost predicate IterOK(it: IterPos, leaves: Leaves, span: Spans) {
    it.leaf != 0 ==>
      it.leaf in leaves && it.leaf in span && it.key.Some? && InSpan(it.key.value, span[it.leaf])
  }

  ghost predicate ItersOK(iters: seq<IterPos>, leaves: Leaves, span: Spans) {
    forall i :: 0 <= i < |iters| ==> IterOK(iters[i], leaves, span)
  }

  ghost predicate Stored(rs: seq<Record>, contents: map<Key, Value>) {
    forall i :: 0 <= i < |rs| ==> rs[i].key in contents && contents[rs[i].key] == rs[i].value
  }

  /** The stored map, seen from the leaves. */
  ghost predicate Holds(contents: map<Key, Value>, leaves: Leaves, span: Spans)
    requires forall a :: a in leaves ==> a in span
  {
    && (forall a {:trigger Stored(leaves[a].records, contents)} :: a in leaves ==> Stored(leaves[a].records, contents))
    && (forall a, k {:trigger HasKey(leaves[a].records, k)} ::
          a in leaves && k in contents && InSpan(k, span[a]) ==> HasKey(leaves[a].records, k))
  }

  /** Inner nodes below the root keep at least half of their branches, an inner root at least one link. */
  ghost predicate Occupied(inners: Inners, n: Addr, root: Addr)
    requires n in inners
  {
    |inners[n].links| >= if n == root then 1 else MAX_INNER_NODE_BRANCHES / 2
  }

  ghost predicate IsChild(inners: Inners, n: Addr, c: Addr) {
    n in inners &&
    exists i: nat :: i <= |inners[n].links| && ChildAt(inners[n].heir, inners[n].links, i) == c
  }

  ghost predicate StepDown(inners: Inners, hist: seq<Addr>, j: nat)
    requires j + 1 < |hist|
  {
    IsChild(inners, hist[j], hist[j + 1])
  }

  /** hist[..n] is the path from the root down to the parent of `bottom`. */
  ghost predicate Path(hist: seq<Addr>, n: nat, bottom: Addr, root: Addr, level: nat, inners: Inners, span: Spans)
    requires n <= |hist|
  {
    && (forall j :: 0 <= j < n ==> hist[j] in inners && hist[j] in span && span[hist[j]].height == level - 1 - j)
    && (forall j {:trigger StepDown(inners, hist, j)} :: 0 <= j < n - 1 ==> StepDown(inners, hist, j))
    && (if n == 0 then bottom == root else hist[0] == root && IsChild(inners, hist[n - 1], bottom))
  }

  lemma PathExtend(hist: seq<Addr>, n: Addr, c: Addr, root: Addr, level: nat, inners: Inners, span: Spans)
    requires Path(hist, |hist|, n, root, level, inners, span)
    requires IsChild(inners, n, c) && n in span && span[n].height == level - 1 - |hist|
    ensures Path(hist + [n], |hist| + 1, c, root, level, inners, span)
  {
    var hist' := hist + [n];
    forall j | 0 <= j < |hist'| - 1
      ensures StepDown(inners, hist', j)
    {
      if j < |hist| - 1 { assert StepDown(inners, hist, j); }
      assert hist'[j] == hist[j];
      assert hist'[j + 1] == if j + 1 == |hist| then n else hist[j + 1];
    }
  }

  /** The interval of a key determines the node of each level. */
  lemma SameNode(span: Spans, a: Addr, b: Addr, k: Key)
    requires Separate(span) && a in span && b in span && span[a].height == span[b].height
    requires InSpan(k, span[a]) && InSpan(k, span[b])
    ensures a == b
  {
    assert a != b ==> Apart(span[a], span[b]);
  }

  /** A node keeps its shape when only intervals of another node's children change. */
  lemma OtherParent(inners: Inners, n: Addr, parent: Addr, span: Spans, span': Spans)
    requires InnerOK(inners, n, span) && InnerOK(inners, parent, span) && Separate(span) && n != parent
    requires n in span' && span'[n] == span[n]
    requires forall c :: c in span && !IsChild(inners, parent, c) ==> c in span' && span'[c] == span[c]
    ensures InnerOK(inners, n, span')
  {
    var nn, pp := inners[n], inners[parent];
    forall i | 0 <= i <= |nn.links|
      ensures var c := ChildAt(nn.heir, nn.links, i); c in span && c in span' && span'[c] == span[c]
    {
      var c := ChildAt(nn.heir, nn.links, i);
      assert c in span;
      if IsChild(inners, parent, c) {
        var j: nat :| j <= |pp.links| && ChildAt(pp.heir, pp.links, j) == c;
        assert span[n].height == span[parent].height ==> Apart(span[n], span[parent]);
        ParentUnique(nn.heir, nn.links, span[n], i, pp.heir, pp.links, span[parent], j, span);
      }
    }
    ShapeFrame(nn.heir, nn.links, span[n], span, span');
  }

  /** A node keeps its shape when the only interval that changes is that of the highest node. */
  lemma NotTheTop(inners: Inners, n: Addr, top: Addr, level: nat, span: Spans, span': Spans)
    requires InnerOK(inners, n, span) && top in span && span[top].height == level - 1 && span[n].height < level
    requires n in span' && span'[n] == span[n]
    requires forall c :: c in span && c != top ==> c in span' && span'[c] == span[c]
    ensures InnerOK(inners, n, span')
  {
    var nn := inners[n];
    forall i | 0 <= i <= |nn.links|
      ensures var c := ChildAt(nn.heir, nn.links, i); c in span && c in span' && span'[c] == span[c]
    {
      var c := ChildAt(nn.heir, nn.links, i);
      assert c in span;
    }
    ShapeFrame(nn.heir, nn.links, span[n], span, span');
  }

  /** What the leaves say: sorted records in their intervals, the chain, and the stored map. */
  ghost predicate LeafSide(leaves: Leaves, span: Spans, first: Addr, last: Addr, contents: map<Key, Value>) {
    && (forall a :: a in leaves ==> a in span)
    && LeavesOK(leaves, span)
    && ChainOK(leaves, span, first, last)
    && Holds(contents, leaves, span)
  }

  /** What the inner nodes say: from the root down they cut the whole key space into the leaves' intervals. */
  ghost predicate TreeSide(inners: Inners, span: Spans, level: nat, root: Addr) {
    && level >= 1 && root in span && span[root] == Span(NegInf, PosInf, level - 1)
    && InnersOK(inners, span)
    && AllOccupied(inners, root)
  }

  ghost predicate AllOccupied(inners: Inners, root: Addr) {
    forall n {:trigger Occupied(inners, n, root)} :: n in inners ==> Occupied(inners, n, root)
  }

  ghost predicate InnersOK(inners: Inners, span: Spans) {
    forall n {:trigger InnerOK(inners, n, span)} :: n in inners ==> InnerOK(inners, n, span)
  }

  // ---------------------------------------------------------------- cutting a leaf, on values

  /** The leaves after `y` was chained in behind `x` and took over the records from `mid` on. */
  ghost function CutLeaves(leaves: Leaves, x: Addr, y: Addr, mid: nat): Leaves
    requires x in leaves && y !in leaves && mid <= |leaves[x].records|
  {
    var l := leaves[x];
    var ls := leaves[x := LeafNode(l.prev, y, l.records[..mid])][y := LeafNode(x, l.next, l.records[mid..])];
    if l.next != 0 && l.next in leaves then ls[l.next := ls[l.next].(prev := y)] else ls
  }

  lemma CutChain(leaves: Leaves, span: Spans, first: Addr, last: Addr, x: Addr, y: Addr, mid: nat, k: Key)
    requires forall a :: a in leaves ==> a in span && BLt(span[a].lo, span[a].hi)
    requires ChainOK(leaves, span, first, last) && 0 !in leaves
    requires x in leaves && y != 0 && y !in span && mid <= |leaves[x].records|
    ensures ChainOK(CutLeaves(leaves, x, y, mid), CutSpan(span, x, y, k), first, if last == x then y else last)
  {
    var leaves', span' := CutLeaves(leaves, x, y, mid), CutSpan(span, x, y, k);
    assert NextOK(leaves, span, x) && PrevOK(leaves, span, x);
    assert leaves[x].next != x && leaves[x].prev != x;
    forall a | a in leaves'
      ensures NextOK(leaves', span', a)
    {
      if a != y {
        assert NextOK(leaves, span, a) && PrevOK(leaves, span, a);
      }
    }
    forall a | a in leaves'
      ensures PrevOK(leaves', span', a)
    {
      if a != y && a != leaves[x].next {
        assert PrevOK(leaves, span, a);
        var b := leaves[a].prev;
        assert b != x;
      }
    }
  }

  /** Which records a leaf has after the cut. */
  lemma CutRecords(leaves: Leaves, x: Addr, y: Addr, mid: nat, a: Addr)
    requires x in leaves && y !in leaves && mid <= |leaves[x].records|
    requires a in CutLeaves(leaves, x, y, mid)
    requires leaves[x].next != x
    ensures a == x || a == y || a in leaves
    ensures CutLeaves(leaves, x, y, mid)[a].records ==
            if a == x then leaves[x].records[..mid] else if a == y then leaves[x].records[mid..] else leaves[a].records
  {
  }

  lemma CutLeavesOK(leaves: Leaves, span: Spans, x: Addr, y: Addr, mid: nat, k: Key)
    requires (forall a :: a in leaves ==> a in span) && LeavesOK(leaves, span)
    requires x in leaves && y !in span && mid < |leaves[x].records| && k == leaves[x].records[mid].key
    requires leaves[x].next != x
    ensures LeavesOK(CutLeaves(leaves, x, y, mid), CutSpan(span, x, y, k))
  {
    var leaves', span' := CutLeaves(leaves, x, y, mid), CutSpan(span, x, y, k);
    assert LeafOK(leaves[x].records, span[x]);
    forall a | a in leaves'
      ensures LeafOK(leaves'[a].records, span'[a])
    {
      CutRecords(leaves, x, y, mid, a);
      if a != x && a != y { assert LeafOK(leaves[a].records, span[a]); }
    }
  }

  lemma CutHolds(leaves: Leaves, span: Spans, contents: map<Key, Value>, x: Addr, y: Addr, mid: nat, k: Key)
    requires (forall a :: a in leaves ==> a in span) && LeavesOK(leaves, span) && Holds(contents, leaves, span)
    requires x in leaves && y !in span && mid < |leaves[x].records| && k == leaves[x].records[mid].key
    requires leaves[x].next != x
    ensures Holds(contents, CutLeaves(leaves, x, y, mid), CutSpan(span, x, y, k))
  {
    var leaves', span' := CutLeaves(leaves, x, y, mid), CutSpan(span, x, y, k);
    assert LeafOK(leaves[x].records, span[x]);
    assert Stored(leaves[x].records, contents);
    forall a | a in leaves'
      ensures Stored(leaves'[a].records, contents)
    {
      CutRecords(leaves, x, y, mid, a);
      if a != x && a != y { assert Stored(leaves[a].records, contents); }
    }
    forall a, key | a in leaves' && key in contents && InSpan(key, span'[a])
      ensures HasKey(leaves'[a].records, key)
    {
      CutRecords(leaves, x, y, mid, a);
      var a0 := if a == y then x else a;
      assert HasKey(leaves[a0].records, key);
      var i :| 0 <= i < |leaves[a0].records| && leaves[a0].records[i].key == key;
      if a == x {
        assert leaves'[a].records[i].key == key;
      } else if a == y {
        assert leaves'[a].records[i - mid].key == key;
      }
    }
  }

  /** Cutting a leaf in the middle of its records keeps everything the leaves say. */
  lemma CutLeafSide(leaves: Leaves, span: Spans, first: Addr, last: Addr, contents: map<Key, Value>,
                    x: Addr, y: Addr, mid: nat)
    requires LeafSide(leaves, span, first, last, contents) && Separate(span) && 0 !in leaves
    requires x in leaves && y != 0 && y !in span && 0 < mid < |leaves[x].records|
    ensures var k := leaves[x].records[mid].key;
            && BLt(span[x].lo, At(k)) && BLt(At(k), span[x].hi)
            && LeafSide(CutLeaves(leaves, x, y, mid), CutSpan(span, x, y, k), first,
                        if last == x then y else last, contents)
  {
    var k := leaves[x].records[mid].key;
    assert LeafOK(leaves[x].records, span[x]) && NextOK(leaves, span, x);
    assert InSpan(leaves[x].records[0].key, span[x]) && InSpan(k, span[x]);
    CutChain(leaves, span, first, last, x, y, mid, k);
    CutLeavesOK(leaves, span, x, y, mid, k);
    CutHolds(leaves, span, contents, x, y, mid, k);
  }

  lemma CutIndexed(leaves: Leaves, inners: Inners, span: Spans, level: nat, x: Addr, y: Addr, mid: nat, k: Key)
    requires Indexed(leaves, inners, span, level)
    requires x in leaves && y != 0 && y !in span && mid < |leaves[x].records|
    ensures Indexed(CutLeaves(leaves, x, y, mid), inners, CutSpan(span, x, y, k), level)
  {
  }

  // ---------------------------------------------------------------- dividing upwards, on values

  /** The intervals with a freshly cut pair glued together again. */
  ghost function Glued(span: Spans, left: Addr, right: Addr): Spans
    requires left in span && right in span
  {
    (span - {right})[left := Span(span[left].lo, span[right].hi, span[left].height)]
  }

  /**
   The middle of a division: `child` was cut off from `heir` at key `k` and is not linked yet.
   Glueing the two together gives a proper tree; hist[..n] leads from the root to their parent.
   */
  ghost predicate Pending(inners: Inners, span: Spans, level: nat, root: Addr,
                          hist: seq<Addr>, n: nat, heir: Addr, child: Addr, k: Key)
  {
    && n <= |hist|
    && heir in span && child in span && heir != child
    && span[heir].hi == At(k) == span[child].lo
    && span[heir].height == span[child].height == level - 1 - n
    && Path(hist, n, heir, root, level, inners, span)
    && (forall m {:trigger InnerOK(inners, m, span)} ::
          m in inners && (n == 0 || m != hist[n - 1]) ==> InnerOK(inners, m, span))
    && AllOccupied(inners, if n > 0 then root else 0)
    && (if n == 0
        then span[heir].lo == NegInf && span[child].hi == PosInf
        else root in span && span[root] == Span(NegInf, PosInf, level - 1)
             && InnerOK(inners, hist[n - 1], Glued(span, heir, child)))
  }

  /** After a cut of the node at the end of a path, only its parent's shape is in arrears. */
  lemma CutPending(inners: Inners, inners': Inners, span: Spans, level: nat, root: Addr,
                   hist: seq<Addr>, n: nat, x: Addr, y: Addr, k: Key)
    requires n <= |hist| && InnersOK(inners, span) && Separate(span)
    requires forall a :: a in span ==> span[a].height < level
    requires root in span && span[root] == Span(NegInf, PosInf, level - 1)
    requires Path(hist, n, x, root, level, inners, span)
    requires x in span && y !in span && span[x].height == level - 1 - n
    requires BLt(span[x].lo, At(k)) && BLt(At(k), span[x].hi)
    requires forall m :: m in inners && m != x ==> m in inners' && inners'[m] == inners[m]
    requires forall m :: m in inners' ==> m in inners || m == y
    requires x in inners' ==> InnerOK(inners', x, CutSpan(span, x, y, k))
    requires y in inners' ==> InnerOK(inners', y, CutSpan(span, x, y, k))
    requires AllOccupied(inners', if n > 0 then root else 0)
    ensures Pending(inners', CutSpan(span, x, y, k), level, root, hist, n, x, y, k)
  {
    var span' := CutSpan(span, x, y, k);
    if n > 0 {
      var p := hist[n - 1];
      assert InnerOK(inners, p, span);
      assert Glued(span', x, y) == span;
      assert InnerOK(inners', p, span);
    }
    forall m | m in inners' && (n == 0 || m != hist[n - 1])
      ensures InnerOK(inners', m, span')
    {
      if m != x && m != y {
        assert InnerOK(inners, m, span);
        if n == 0 {
          NotTheTop(inners, m, x, level, span, span');
        } else {
          assert InnerOK(inners, hist[n - 1], span);
          OtherParent(inners, m, hist[n - 1], span, span');
        }
        assert InnerOK(inners, m, span');
      }
    }
    forall j | 0 <= j < n - 1
      ensures StepDown(inners', hist, j)
    {
      assert StepDown(inners, hist, j);
    }
  }

  /** Linking the pending child into the parent ends the division. */
  lemma LinkEnds(inners: Inners, span: Spans, level: nat, root: Addr,
                 hist: seq<Addr>, n: nat, heir: Addr, child: Addr, k: Key)
    requires Pending(inners, span, level, root, hist, n, heir, child, k) && Separate(span) && n > 0
    ensures var p := inners[hist[n - 1]];
            && SortedLinks(p.links)
            && TreeSide(inners[
                          hist[n - 1] := InnerNode(p.heir, Inserted(p.links, LinkUpper(p.links, k), Link(k, child)))],
                        span, level, root)
  {
    var pa := hist[n - 1];
    var p := inners[pa];
    var before := Glued(span, heir, child);
    assert InnerOK(inners, pa, before);
    var i: nat :| i <= |p.links| && ChildAt(p.heir, p.links, i) == heir;
    assert pa != heir && pa != child;
    ShapeAddLink(p.heir, p.links, span[pa], before, span, i, k, child);
    var inners' := inners[pa := InnerNode(p.heir, Inserted(p.links, LinkUpper(p.links, k), Link(k, child)))];
    forall m | m in inners'
      ensures InnerOK(inners', m, span) && Occupied(inners', m, root)
    {
      assert Occupied(inners, m, root);
      if m != pa {
        assert InnerOK(inners, m, span);
      }
    }
  }

  /** A division that reaches the top ends with a new root over the two parts. */
  lemma NewRootEnds(inners: Inners, span: Spans, level: nat, root: Addr,
                    hist: seq<Addr>, heir: Addr, child: Addr, k: Key, r: Addr)
    requires Pending(inners, span, level, root, hist, 0, heir, child, k) && Separate(span) && level >= 1
    requires (forall a :: a in span ==> span[a].height < level) && r !in span && r !in inners && 0 !in inners
    ensures var span' := span[r := Span(NegInf, PosInf, level)];
            && Separate(span')
            && TreeSide(inners[r := InnerNode(heir, [Link(k, child)])], span', level + 1, r)
  {
    var span' := span[r := Span(NegInf, PosInf, level)];
    var inners' := inners[r := InnerNode(heir, [Link(k, child)])];
    forall a, b | a in span' && b in span' && a != b && span'[a].height == span'[b].height
      ensures Apart(span'[a], span'[b])
    {
      assert Apart(span[a], span[b]);
    }
    forall m | m in inners'
      ensures InnerOK(inners', m, span') && Occupied(inners', m, r)
    {
      if m == r {
        assert forall i {:trigger ChildAt(heir, [Link(k, child)], i)} :: 0 <= i <= 1 ==>
            ChildAt(heir, [Link(k, child)], i) == if i == 0 then heir else child;
      } else {
        assert InnerOK(inners, m, span) && Occupied(inners, m, 0);
        ShapeFrame(inners[m].heir, inners[m].links, span[m], span, span');
      }
    }
  }

  /** The inner nodes after `x` was cut at its link `mid`, the upper part going to `y`. */
  ghost function CutInners(inners: Inners, x: Addr, y: Addr, mid: nat): Inners
    requires x in inners && mid < |inners[x].links|
  {
    var n := inners[x];
    inners[x := InnerNode(n.heir, n.links[..mid])][y := InnerNode(n.links[mid].child, n.links[mid + 1..])]
  }

  lemma HalvesOK(inners: Inners, span: Spans, x: Addr, y: Addr, mid: nat)
    requires InnerOK(inners, x, span) && BLt(span[x].lo, span[x].hi) && y !in span && mid < |inners[x].links|
    ensures var span' := CutSpan(span, x, y, inners[x].links[mid].key);
            InnerOK(CutInners(inners, x, y, mid), x, span') && InnerOK(CutInners(inners, x, y, mid), y, span')
  {
    var nd, k := inners[x], inners[x].links[mid].key;
    var span' := CutSpan(span, x, y, k);
    ShapeCut(nd.heir, nd.links, span[x], span, mid);
    var left: seq<Link<Addr>>, right: seq<Link<Addr>> := nd.links[..mid], nd.links[mid + 1..];
    forall i {:trigger ChildAt(nd.heir, left, i)} | 0 <= i <= |left|
      ensures var c := ChildAt(nd.heir, left, i); c in span' && (c in span ==> span'[c] == span[c])
    {
      assert ChildAt(nd.heir, left, i) == ChildAt(nd.heir, nd.links, i);
      assert ChildAt(nd.heir, nd.links, i) in span;
    }
    forall i {:trigger ChildAt(nd.links[mid].child, right, i)} | 0 <= i <= |right|
      ensures var c := ChildAt(nd.links[mid].child, right, i); c in span' && (c in span ==> span'[c] == span[c])
    {
      assert ChildAt(nd.links[mid].child, right, i) == ChildAt(nd.heir, nd.links, mid + 1 + i);
      assert ChildAt(nd.heir, nd.links, mid + 1 + i) in span;
    }
    ShapeFrame(nd.heir, left, span'[x], span, span');
    ShapeFrame(nd.links[mid].child, right, span'[y], span, span');
  }

  /** Cutting an overfull inner node at its middle link hands the work up to its parent. */
  lemma CutInnerPending(inners: Inners, span: Spans, level: nat, root: Addr,
                        hist: seq<Addr>, n: nat, x: Addr, y: Addr)
    requires TreeSide(inners, span, level, root) && Separate(span) && n <= |hist|
    requires forall a :: a in span ==> span[a].height < level
    requires Path(hist, n, x, root, level, inners, span)
    requires x in inners && y !in span && y !in inners && x in span && span[x].height == level - 1 - n
    requires |inners[x].links| > MAX_INNER_NODE_BRANCHES
    ensures var mid := |inners[x].links| / 2;
            var k := inners[x].links[mid].key;
            && BLt(span[x].lo, At(k)) && BLt(At(k), span[x].hi)
            && Pending(CutInners(inners, x, y, mid), CutSpan(span, x, y, k), level, root, hist, n, x, y, k)
  {
    var nd := inners[x];
    var mid := |nd.links| / 2;
    var k := nd.links[mid].key;
    var inners', span' := CutInners(inners, x, y, mid), CutSpan(span, x, y, k);
    assert InnerOK(inners, x, span);
    HalvesOK(inners, span, x, y, mid);
    assert BLt(span[x].lo, At(k)) && BLt(At(k), span[x].hi);
    forall m | m in inners'
      ensures Occupied(inners', m, if n > 0 then root else 0)
    {
      if m != x && m != y { assert Occupied(inners, m, root); }
    }
    CutPending(inners, inners', span, level, root, hist, n, x, y, k);
  }

  /** What the leaves and iterators say depends only on the leaves' own intervals. */
  lemma LeafSideFrame(leaves: Leaves, span: Spans, span': Spans, first: Addr, last: Addr,
                      contents: map<Key, Value>, iters: seq<IterPos>)
    requires LeafSide(leaves, span, first, last, contents) && ItersOK(iters, leaves, span)
    requires forall a :: a in leaves ==> a in span' && span'[a] == span[a]
    ensures LeafSide(leaves, span', first, last, contents) && ItersOK(iters, leaves, span')
  {
    forall a | a in leaves
      ensures LeafOK(leaves[a].records, span'[a]) && Stored(leaves[a].records, contents)
      ensures NextOK(leaves, span', a) && PrevOK(leaves, span', a)
    {
      assert LeafOK(leaves[a].records, span[a]) && Stored(leaves[a].records, contents);
      assert NextOK(leaves, span, a) && PrevOK(leaves, span, a);
    }
  }

  /** The path one step shorter, after the links of its last node changed. */
  lemma PathUp(hist: seq<Addr>, n: nat, bottom: Addr, root: Addr, level: nat, inners: Inners, inners': Inners,
               span: Spans)
    requires 0 < n <= |hist| && Path(hist, n, bottom, root, level, inners, span)
    requires forall m :: m in inners && m != hist[n - 1] ==> m in inners' && inners'[m] == inners[m]
    ensures Path(hist, n - 1, hist[n - 1], root, level, inners', span)
  {
    if n >= 2 {
      assert StepDown(inners, hist, n - 2);
      assert span[hist[n - 2]].height != span[hist[n - 1]].height;
    }
    forall j | 0 <= j < n - 1
      ensures StepDown(inners', hist, j)
    {
      assert StepDown(inners, hist, j);
      assert span[hist[j]].height != span[hist[n - 1]].height;
    }
  }

  /** Linking the pending child makes the tree whole, and leaves the way down to its parent. */
  lemma LinkedIn(inners: Inners, span: Spans, level: nat, root: Addr, hist: seq<Addr>, n: nat, m: nat,
                 heir: Addr, child: Addr, k: Key, pa: Addr, inners': Inners)
    requires m == n + 1 && Pending(inners, span, level, root, hist, m, heir, child, k) && Separate(span)
             && pa == hist[n]
    requires inners' == var p := inners[pa];
                        inners[pa := InnerNode(p.heir, Inserted(p.links, LinkUpper(p.links, k), Link(k, child)))]
    ensures SortedLinks(inners[pa].links) && TreeSide(inners', span, level, root)
    ensures Path(hist, n, pa, root, level, inners', span)
  {
    LinkEnds(inners, span, level, root, hist, m, heir, child, k);
    PathUp(hist, m, heir, root, level, inners, inners', span);
  }

  /** A cut leaf pends on the node that was its parent. */
  lemma StartDivision(leaves: Leaves, inners: Inners, span: Spans, level: nat, root: Addr,
                      hist: seq<Addr>, x: Addr, y: Addr, k: Key)
    requires Indexed(leaves, inners, span, level) && Separate(span) && TreeSide(inners, span, level, root)
    requires x in leaves && y !in span && |hist| == level - 1
    requires x !in inners && Path(hist, |hist|, x, root, level, inners, span)
    requires BLt(span[x].lo, At(k)) && BLt(At(k), span[x].hi)
    ensures Pending(inners, CutSpan(span, x, y, k), level, root, hist, |hist|, x, y, k)
  {
    forall m | m in inners
      ensures Occupied(inners, m, if |hist| > 0 then root else 0)
    {
      assert Occupied(inners, m, root);
    }
    CutPending(inners, inners, span, level, root, hist, |hist|, x, y, k);
  }

  /** Re-adding sorted links one by one through upper_bound appends each at the end. */
  lemma AppendsInOrder(ls: seq<Link<Addr>>, mid: nat, i: nat, l: Link<Addr>)
    requires SortedLinks(ls) && mid < i < |ls| && l == ls[i]
    ensures SortedLinks(ls[mid + 1..i])
    ensures Inserted(ls[mid + 1..i], LinkUpper(ls[mid + 1..i], l.key), l) == ls[mid + 1..i + 1]
  {
    var part := ls[mid + 1..i];
    assert forall j :: 0 <= j < |part| ==> part[j] == ls[mid + 1 + j] && part[j].key < l.key;
    assert LinkUpper(part, l.key) == |part|;
  }

  // ---------------------------------------------------------------- fusing two leaves, on values

  /** The leaves after the neighbours `x` and `y` were made one, living on at `kept`. */
  ghost function FuseLeaves(leaves: Leaves, x: Addr, y: Addr, kept: Addr): Leaves
    requires x in leaves && y in leaves
  {
    var p, n := leaves[x].prev, leaves[y].next;
    var ls := (leaves - {x, y})[kept := LeafNode(p, n, leaves[x].records + leaves[y].records)];
    var ls' := if p in ls then ls[p := ls[p].(next := kept)] else ls;
    if n in ls' then ls'[n := ls'[n].(prev := kept)] else ls'
  }

  /** The situation two leaves are fused in: `x` directly before `y` in the chain. */
  ghost predicate Neighbours(leaves: Leaves, span: Spans, x: Addr, y: Addr, kept: Addr) {
    && 0 !in leaves && (forall a :: a in leaves ==> a in span && BLt(span[a].lo, span[a].hi))
    && x in leaves && y in leaves && x != y && (kept == x || kept == y)
    && span[x].hi == span[y].lo && span[x].height == span[y].height
    && leaves[x].next == y && leaves[y].prev == x
    && leaves[x].prev != x && leaves[x].prev != y && leaves[y].next != x && leaves[y].next != y
    && (leaves[x].prev == 0 || leaves[x].prev != leaves[y].next)
  }

  lemma AreNeighbours(leaves: Leaves, span: Spans, first: Addr, last: Addr, x: Addr, y: Addr, kept: Addr)
    requires 0 !in leaves && (forall a :: a in leaves ==> a in span && span[a].height == 0) && Separate(span)
    requires ChainOK(leaves, span, first, last)
    requires x in leaves && y in leaves && x != y && (kept == x || kept == y) && span[x].hi == span[y].lo
    ensures Neighbours(leaves, span, x, y, kept)
  {
    assert NextOK(leaves, span, x) && PrevOK(leaves, span, x) && NextOK(leaves, span, y) && PrevOK(leaves, span, y);
    var p, z, n := leaves[x].prev, leaves[x].next, leaves[y].next;
    assert z != 0 && (z != y ==> Apart(span[z], span[y]));
    if p != 0 { assert NextOK(leaves, span, p); }
    if n != 0 { assert NextOK(leaves, span, n); }
  }

  lemma FusedLeaf(leaves: Leaves, span: Spans, x: Addr, y: Addr, kept: Addr, a: Addr)
    requires Neighbours(leaves, span, x, y, kept)
    ensures var ls, p, n := FuseLeaves(leaves, x, y, kept), leaves[x].prev, leaves[y].next;
            && (a in ls <==> a == kept || (a in leaves && a != x && a != y))
            && (a == kept ==> ls[a] == LeafNode(p, n, leaves[x].records + leaves[y].records))
            && (a in ls && a != kept ==>
                  ls[a] == LeafNode(if a == n then kept else leaves[a].prev,
                                    if a == p then kept else leaves[a].next, leaves[a].records))
  {
  }

  lemma FuseChain(leaves: Leaves, span: Spans, first: Addr, last: Addr, x: Addr, y: Addr, kept: Addr)
    requires Neighbours(leaves, span, x, y, kept) && ChainOK(leaves, span, first, last)
    ensures var ls, sp := FuseLeaves(leaves, x, y, kept), FuseSpan(span, x, y, kept);
            && (forall a :: a in ls ==> a in sp)
            && ChainOK(ls, sp, if first == x then kept else first, if last == y then kept else last)
  {
    var ls, sp := FuseLeaves(leaves, x, y, kept), FuseSpan(span, x, y, kept);
    var p, n := leaves[x].prev, leaves[y].next;
    assert NextOK(leaves, span, x) && PrevOK(leaves, span, x) && NextOK(leaves, span, y) && PrevOK(leaves, span, y);
    FusedLeaf(leaves, span, x, y, kept, kept);
    FusedLeaf(leaves, span, x, y, kept, p);
    FusedLeaf(leaves, span, x, y, kept, n);
    forall a | a in ls
      ensures a in sp
    {
      FusedLeaf(leaves, span, x, y, kept, a);
    }
    forall a | a in ls
      ensures NextOK(ls, sp, a) && PrevOK(ls, sp, a)
    {
      FusedLeaf(leaves, span, x, y, kept, a);
      if a != kept {
        assert NextOK(leaves, span, a) && PrevOK(leaves, span, a);
        FusedLeaf(leaves, span, x, y, kept, leaves[a].next);
        FusedLeaf(leaves, span, x, y, kept, leaves[a].prev);
      }
    }
    FusedLeaf(leaves, span, x, y, kept, first);
    FusedLeaf(leaves, span, x, y, kept, last);
    assert NextOK(leaves, span, last) && PrevOK(leaves, span, first);
  }

  lemma FuseLeavesOK(leaves: Leaves, span: Spans, contents: map<Key, Value>, x: Addr, y: Addr, kept: Addr)
    requires Neighbours(leaves, span, x, y, kept) && LeavesOK(leaves, span) && Holds(contents, leaves, span)
    requires forall a :: a in FuseLeaves(leaves, x, y, kept) ==> a in FuseSpan(span, x, y, kept)
    ensures LeavesOK(FuseLeaves(leaves, x, y, kept), FuseSpan(span, x, y, kept))
    ensures Holds(contents, FuseLeaves(leaves, x, y, kept), FuseSpan(span, x, y, kept))
  {
    var ls, sp := FuseLeaves(leaves, x, y, kept), FuseSpan(span, x, y, kept);
    var rx, ry := leaves[x].records, leaves[y].records;
    assert LeafOK(rx, span[x]) && LeafOK(ry, span[y]) && Stored(rx, contents) && Stored(ry, contents);
    forall a | a in ls
      ensures LeafOK(ls[a].records, sp[a]) && Stored(ls[a].records, contents)
    {
      FusedLeaf(leaves, span, x, y, kept, a);
      if a == kept {
        FusedRecords(rx, ry, span[x], span[y]);
      } else {
        assert LeafOK(leaves[a].records, span[a]) && Stored(leaves[a].records, contents);
      }
    }
    forall a, k | a in ls && k in contents && InSpan(k, sp[a])
      ensures HasKey(ls[a].records, k)
    {
      FusedLeaf(leaves, span, x, y, kept, a);
      if a == kept {
        assert InSpan(k, span[x]) || InSpan(k, span[y]);
        assert InSpan(k, span[x]) ==> HasKey(rx, k);
        assert InSpan(k, span[y]) ==> HasKey(ry, k);
        HasKeyConcat(rx, ry, k);
      } else {
        assert HasKey(leaves[a].records, k);
      }
    }
  }

  lemma FusedRecords(rx: seq<Record>, ry: seq<Record>, sx: Span, sy: Span)
    requires LeafOK(rx, sx) && LeafOK(ry, sy) && sx.hi == sy.lo && BLt(sx.lo, sx.hi) && BLt(sy.lo, sy.hi)
    ensures LeafOK(rx + ry, Span(sx.lo, sy.hi, sx.height))
  {
    var rs := rx + ry;
    forall i | 0 <= i < |rs|
      ensures InSpan(rs[i].key, if i < |rx| then sx else sy)
    {
      assert rs[i] == if i < |rx| then rx[i] else ry[i - |rx|];
    }
  }

  lemma HasKeyConcat(rx: seq<Record>, ry: seq<Record>, k: Key)
    requires HasKey(rx, k) || HasKey(ry, k)
    ensures HasKey(rx + ry, k)
  {
    if HasKey(rx, k) {
      var i :| 0 <= i < |rx| && rx[i].key == k;
      assert (rx + ry)[i].key == k;
    } else {
      var i :| 0 <= i < |ry| && ry[i].key == k;
      assert (rx + ry)[|rx| + i].key == k;
    }
  }

  // ---------------------------------------------------------------- fusing siblings in the tree, on values

  /** The tree invariant with one inner node allowed to have too few links. */
  ghost predicate TreeBut(inners: Inners, span: Spans, level: nat, root: Addr, weak: Addr) {
    && level >= 1 && root in span && span[root] == Span(NegInf, PosInf, level - 1)
    && InnersOK(inners, span)
    && (forall n {:trigger Occupied(inners, n, root)} :: n in inners && n != weak ==> Occupied(inners, n, root))
  }

  /** The parent after its children i and i+1 became one, under the name of either. */
  function FusedParent(n: InnerNode, i: nat, keepLeft: bool): InnerNode
    requires i < |n.links|
  {
    if keepLeft then InnerNode(n.heir, Without(n.links, i))
    else InnerNode(AbsorbedHeir(n.heir, n.links, i), AbsorbedLinks(n.links, i))
  }

  /** Two neighbouring children, and the facts their parent gives about them. */
  ghost predicate Siblings(inners: Inners, span: Spans, pa: Addr, i: nat, x: Addr, y: Addr) {
    && InnerOK(inners, pa, span) && i < |inners[pa].links|
    && x == ChildAt(inners[pa].heir, inners[pa].links, i)
    && y == ChildAt(inners[pa].heir, inners[pa].links, i + 1)
  }

  lemma SiblingFacts(inners: Inners, span: Spans, pa: Addr, i: nat, x: Addr, y: Addr)
    requires Siblings(inners, span, pa, i, x, y) && Separate(span)
    ensures x in span && y in span && x != y && x != pa && y != pa
    ensures span[x].hi == At(inners[pa].links[i].key) == span[y].lo
    ensures span[x].height == span[y].height == span[pa].height - 1
    ensures IsChild(inners, pa, x) && IsChild(inners, pa, y)
  {
    var n := inners[pa];
    ChildPlace(n.heir, n.links, span[pa], span, i, i + 1);
    assert ChildAt(n.heir, n.links, i) in span && ChildAt(n.heir, n.links, i + 1) in span;
  }

  lemma FusedParentOK(inners: Inners, inners': Inners, span: Spans, pa: Addr, i: nat, x: Addr, y: Addr, kept: Addr)
    requires Siblings(inners, span, pa, i, x, y) && Separate(span) && (kept == x || kept == y)
    requires pa in inners' && inners'[pa] == FusedParent(inners[pa], i, kept == x)
    requires x in span && y in span
    ensures InnerOK(inners', pa, FuseSpan(span, x, y, kept))
  {
    SiblingFacts(inners, span, pa, i, x, y);
    var n := inners[pa];
    var span' := FuseSpan(span, x, y, kept);
    if kept == x {
      ShapeDropNext(n.heir, n.links, span[pa], span, span', i);
    } else {
      ShapeDropPrev(n.heir, n.links, span[pa], span, span', i);
    }
  }

  /** Fusing two sibling leaves leaves at most their parent with too few links. */
  lemma LeavesFused(inners: Inners, span: Spans, level: nat, root: Addr,
                    pa: Addr, i: nat, x: Addr, y: Addr, kept: Addr)
    requires TreeSide(inners, span, level, root) && Separate(span) && Siblings(inners, span, pa, i, x, y)
    requires x in span && y in span && x !in inners && y !in inners && (kept == x || kept == y)
    requires forall a :: a in span ==> span[a].height < level
    ensures TreeBut(inners[pa := FusedParent(inners[pa], i, kept == x)], FuseSpan(span, x, y, kept), level, root, pa)
  {
    SiblingFacts(inners, span, pa, i, x, y);
    var inners', span' := inners[pa := FusedParent(inners[pa], i, kept == x)], FuseSpan(span, x, y, kept);
    FusedParentOK(inners, inners', span, pa, i, x, y, kept);
    forall m | m in inners'
      ensures InnerOK(inners', m, span') && (m != pa ==> Occupied(inners', m, root))
    {
      if m != pa {
        assert InnerOK(inners, m, span) && Occupied(inners, m, root);
        OtherParent(inners, m, pa, span, span');
        assert InnerOK(inners, m, span');
      }
    }
  }

  /** The inner nodes after `y` was absorbed by its left neighbour `x` under their parent `pa`. */
  ghost function FuseInners(inners: Inners, pa: Addr, i: nat, x: Addr, y: Addr): Inners
    requires pa in inners && x in inners && y in inners && i < |inners[pa].links|
  {
    var k := inners[pa].links[i].key;
    (inners - {y})[x := InnerNode(inners[x].heir, inners[x].links + [Link(k, inners[y].heir)] + inners[y].links)]
                  [pa := FusedParent(inners[pa], i, true)]
  }

  lemma JoinedOK(inners: Inners, span: Spans, pa: Addr, i: nat, x: Addr, y: Addr)
    requires Siblings(inners, span, pa, i, x, y) && Separate(span)
    requires InnerOK(inners, x, span) && InnerOK(inners, y, span) && x != pa && y != pa
    ensures InnerOK(FuseInners(inners, pa, i, x, y), x, FuseSpan(span, x, y, x))
  {
    SiblingFacts(inners, span, pa, i, x, y);
    var nx, ny, k := inners[x], inners[y], inners[pa].links[i].key;
    var span' := FuseSpan(span, x, y, x);
    var ls := nx.links + [Link(k, ny.heir)] + ny.links;
    ShapeJoin(nx.heir, nx.links, span[x], ny.heir, ny.links, span[y], k, span);
    forall j {:trigger ChildAt(nx.heir, ls, j)} | 0 <= j <= |ls|
      ensures var c := ChildAt(nx.heir, ls, j); c in span' && (c in span ==> span'[c] == span[c])
    {
      assert ChildAt(nx.heir, ls, j) in span;
    }
    ShapeFrame(nx.heir, ls, span'[x], span, span');
  }

  /** Fusing two sibling inner nodes of which at most one had too few links hands the lack up to the parent. */
  lemma InnersFused(inners: Inners, span: Spans, level: nat, root: Addr, weak: Addr,
                    pa: Addr, i: nat, x: Addr, y: Addr)
    requires TreeBut(inners, span, level, root, weak) && Separate(span) && Siblings(inners, span, pa, i, x, y)
    requires x in inners && y in inners && (weak == x || weak == y)
    requires forall a :: a in span ==> span[a].height < level
    ensures x != pa && y != pa && x != y
    ensures TreeBut(FuseInners(inners, pa, i, x, y), FuseSpan(span, x, y, x), level, root, pa)
  {
    assert InnerOK(inners, x, span) && InnerOK(inners, y, span);
    SiblingFacts(inners, span, pa, i, x, y);
    var inners', span' := FuseInners(inners, pa, i, x, y), FuseSpan(span, x, y, x);
    FusedParentOK(inners, inners', span, pa, i, x, y, x);
    JoinedOK(inners, span, pa, i, x, y);
    forall m | m in inners'
      ensures InnerOK(inners', m, span') && (m != pa ==> Occupied(inners', m, root))
    {
      if m == x {
        assert Occupied(inners, if weak == x then y else x, root);
      } else if m != pa {
        assert InnerOK(inners, m, span) && Occupied(inners, m, root);
        OtherParent(inners, m, pa, span, span');
        assert InnerOK(inners, m, span');
      }
    }
  }

  /** A root without links gives way to its only child. */
  lemma CollapseRoot(inners: Inners, span: Spans, level: nat, root: Addr)
    requires TreeBut(inners, span, level, root, root) && Separate(span) && root in inners && |inners[root].links| == 0
    requires forall a :: a in span ==> span[a].height < level
    ensures var heir := inners[root].heir;
            && heir in span && heir != root && level >= 2
            && TreeSide(inners - {root}, span - {root}, level - 1, heir)
            && Separate(span - {root})
            && forall a :: a in span - {root} ==> span[a].height < level - 1
  {
    var n, inners', span' := inners[root], inners - {root}, span - {root};
    assert InnerOK(inners, root, span);
    assert ChildAt(n.heir, n.links, 0) in span;
    forall a | a in span'
      ensures span[a].height < level - 1
    {
      assert span[a].height == level - 1 ==> Apart(span[a], span[root]);
    }
    forall a, b | a in span' && b in span' && a != b && span'[a].height == span'[b].height
      ensures Apart(span'[a], span'[b])
    {
      assert Apart(span[a], span[b]);
    }
    forall m | m in inners'
      ensures InnerOK(inners', m, span') && Occupied(inners', m, n.heir)
    {
      assert InnerOK(inners, m, span) && Occupied(inners, m, root);
      forall i | 0 <= i <= |inners[m].links|
        ensures var c := ChildAt(inners[m].heir, inners[m].links, i); c in span'
      {
        assert ChildAt(inners[m].heir, inners[m].links, i) in span;
      }
      ShapeFrame(inners[m].heir, inners[m].links, span[m], span, span');
    }
  }

  /** The path above a restructured node stays a path. */
  lemma PathAbove(hist: seq<Addr>, n: nat, bottom: Addr, root: Addr, level: nat,
                  inners: Inners, span: Spans, inners': Inners, span': Spans)
    requires 0 < n <= |hist| && Path(hist, n, bottom, root, level, inners, span)
    requires forall j :: 0 <= j < n - 1 ==> hist[j] in inners' && inners'[hist[j]] == inners[hist[j]]
    requires forall j :: 0 <= j < n ==> hist[j] in span' && span'[hist[j]].height == span[hist[j]].height
    ensures Path(hist, n - 1, hist[n - 1], root, level, inners', span')
  {
    if n >= 2 { assert StepDown(inners, hist, n - 2); }
    forall j | 0 <= j < n - 1
      ensures StepDown(inners', hist, j)
    {
      assert StepDown(inners, hist, j);
    }
  }

  lemma ChainEnds(leaves: Leaves, span: Spans, first: Addr, last: Addr, x: Addr, y: Addr)
    requires (forall a :: a in leaves ==> a in span) && ChainOK(leaves, span, first, last)
    requires x in leaves && y in leaves && leaves[x].next == y
    ensures leaves[y].next != 0 ==> leaves[y].next in leaves && leaves[leaves[y].next].prev == y
    ensures leaves[x].prev != 0 ==> leaves[x].prev in leaves && leaves[leaves[x].prev].next == x
    ensures first in leaves && last in leaves
  {
    assert NextOK(leaves, span, y) && PrevOK(leaves, span, x) && NextOK(leaves, span, x) && PrevOK(leaves, span, y);
  }

  lemma FirstLink(inners: Inners, span: Spans, pa: Addr, i: nat, x: Addr, y: Addr)
    requires Siblings(inners, span, pa, i, x, y) && Separate(span)
    ensures inners[pa].links[i].child == y
    ensures forall j :: 0 <= j < i ==> inners[pa].links[j].child != y
    ensures forall j :: 0 <= j < i ==> ChildAt(inners[pa].heir, inners[pa].links, j) != x
  {
    var n := inners[pa];
    forall j | 0 <= j < i
      ensures n.links[j].child != y && ChildAt(n.heir, n.links, j) != x
    {
      ChildPlace(n.heir, n.links, span[pa], span, j + 1, i + 1);
      ChildPlace(n.heir, n.links, span[pa], span, j, i);
      assert ChildAt(n.heir, n.links, j + 1) == n.links[j].child;
    }
  }

  /** The children of one node are all leaves or all inner nodes. */
  lemma ChildKinds(leaves: Leaves, inners: Inners, span: Spans, level: nat, pa: Addr, i: nat, j: nat)
    requires Indexed(leaves, inners, span, level) && InnerOK(inners, pa, span)
    requires i <= |inners[pa].links| && j <= |inners[pa].links|
    ensures var c, d := ChildAt(inners[pa].heir, inners[pa].links, i), ChildAt(inners[pa].heir, inners[pa].links, j);
            (c in leaves ==> d in leaves) && (c in inners ==> d in inners) && d != 0
  {
    var c, d := ChildAt(inners[pa].heir, inners[pa].links, i), ChildAt(inners[pa].heir, inners[pa].links, j);
    assert c in span && d in span && span[c].height == span[d].height;
    assert d in leaves || d in inners;
  }

  /** Leaf `leaf` is gone, its records and its interval went to `kept`, and nothing else moved. */
  ghost predicate LeafGone(leaves: Leaves, span: Spans, leaves': Leaves, span': Spans, leaf: Addr, kept: Addr) {
    && leaf in leaves && kept in leaves && leaf != kept
    && leaves'.Keys == leaves.Keys - {leaf}
    && (forall a :: a in leaves' ==> a in span && a in span')
    && |leaves'[kept].records| == |leaves[leaf].records| + |leaves[kept].records|
    && (forall a :: a in leaves' && a != kept ==> leaves'[a].records == leaves[a].records)
    && (forall a, k :: a in leaves' && InSpan(k, span[a]) ==> InSpan(k, span'[a]))
  }

  /** No interval but those of two fused leaves changed. */
  ghost predicate SpansKept(span: Spans, span': Spans, x: Addr, y: Addr) {
    forall a {:trigger a in span'} :: a in span && a != x && a != y ==> a in span' && span'[a] == span[a]
  }

  lemma FusedEffect(leaves: Leaves, span: Spans, x: Addr, y: Addr, kept: Addr)
    requires Neighbours(leaves, span, x, y, kept)
    ensures LeafGone(leaves, span, FuseLeaves(leaves, x, y, kept), FuseSpan(span, x, y, kept),
                     if kept == x then y else x, kept)
    ensures SpansKept(span, FuseSpan(span, x, y, kept), if kept == x then y else x, kept)
  {
    var leaves' := FuseLeaves(leaves, x, y, kept);
    forall a: Addr
      ensures (a in leaves' <==> a == kept || (a in leaves && a != x && a != y))
      ensures a in leaves' && a != kept ==> leaves'[a].records == leaves[a].records
    {
      FusedLeaf(leaves, span, x, y, kept, a);
    }
    FusedLeaf(leaves, span, x, y, kept, kept);
    assert leaves'.Keys == leaves.Keys - {if kept == x then y else x};
  }

  /** A change below `pa` leaves the nodes above `node` alone, but for the links of its parent `pa`. */
  ghost predicate KeptAbove(inners: Inners, span: Spans, inners': Inners, span': Spans, node: Addr, pa: Addr) {
    && pa in inners' && pa in span && pa in span' && span'[pa] == span[pa]
    && node in span
    && forall m {:trigger m in inners'} {:trigger m in span'} ::
         m in inners && m in span && span[m].height > span[node].height && m != pa ==>
           m in inners' && inners'[m] == inners[m] && m in span' && span'[m] == span[m]
  }

  lemma KeptPath(hist: seq<Addr>, n: nat, root: Addr, level: nat, inners: Inners, span: Spans,
                 inners': Inners, span': Spans, node: Addr)
    requires 0 < n <= |hist| && Path(hist, n, node, root, level, inners, span)
    requires node in span && span[node].height == level - 1 - n
    requires KeptAbove(inners, span, inners', span', node, hist[n - 1])
    ensures forall j :: 0 <= j < n - 1 ==> hist[j] in inners' && inners'[hist[j]] == inners[hist[j]]
    ensures forall j :: 0 <= j < n ==> hist[j] in span' && span'[hist[j]].height == span[hist[j]].height
  {
    forall j | 0 <= j < n - 1
      ensures hist[j] in inners' && inners'[hist[j]] == inners[hist[j]] && hist[j] in span'
              && span'[hist[j]] == span[hist[j]]
    {
      var m, pa := hist[j], hist[n - 1];
      assert m in inners && m in span;
      assert span[m].height == level - 1 - j;
      assert span[m].height > span[node].height;
      assert m != pa;
      assert m in inners';
    }
  }

  /** When the node in doubt has links enough, the tree is whole. */
  lemma NothingWeak(inners: Inners, span: Spans, level: nat, root: Addr, weak: Addr)
    requires TreeBut(inners, span, level, root, weak) && weak in inners
    requires |inners[weak].links| >= MAX_INNER_NODE_BRANCHES / 2
    ensures TreeSide(inners, span, level, root)
  {
    forall n | n in inners
      ensures Occupied(inners, n, root)
    {
      if n != weak { assert Occupied(inners, n, root); }
    }
  }

  /** The parent of an underfull node has a link, or the root would have too few. */
  lemma ParentOccupied(inners: Inners, span: Spans, level: nat, root: Addr, node: Addr, pa: Addr, i: nat)
    requires TreeBut(inners, span, level, root, node) && InnerOK(inners, pa, span) && i <= |inners[pa].links|
    requires ChildAt(inners[pa].heir, inners[pa].links, i) == node
    ensures pa != node && |inners[pa].links| >= 1
  {
    assert node in span;
    assert Occupied(inners, pa, root);
  }

  lemma FuseInnersIndexed(leaves: Leaves, inners: Inners, span: Spans, level: nat, pa: Addr, i: nat, x: Addr, y: Addr)
    requires Indexed(leaves, inners, span, level) && x in inners && y in inners && pa in inners
    requires i < |inners[pa].links| && x != y && pa != x && pa != y
    ensures Indexed(leaves, FuseInners(inners, pa, i, x, y), FuseSpan(span, x, y, x), level)
    ensures forall a :: a in leaves ==> a in FuseSpan(span, x, y, x) && FuseSpan(span, x, y, x)[a] == span[a]
  {
  }

  /** The iterators after those on the fused leaves all point to the surviving one. */
  ghost function Moved(iters: seq<IterPos>, dead: Addr, kept: Addr): seq<IterPos> {
    seq(|iters|, i requires 0 <= i < |iters| => if iters[i].leaf == dead then iters[i].(leaf := kept) else iters[i])
  }

  /** No iterator lost its key. */
  ghost predicate SameKeys(iters: seq<IterPos>, iters': seq<IterPos>) {
    |iters| == |iters'| && forall i :: 0 <= i < |iters| ==> iters'[i].key == iters[i].key
  }

  lemma FuseBase(leaves: Leaves, inners: Inners, span: Spans, level: nat, first: Addr, last: Addr,
                 contents: map<Key, Value>, iters: seq<IterPos>, pa: Addr, i: nat, x: Addr, y: Addr, kept: Addr)
    requires Indexed(leaves, inners, span, level) && Separate(span) && LeafSide(leaves, span, first, last, contents)
    requires ItersOK(iters, leaves, span)
    requires Neighbours(leaves, span, x, y, kept) && pa in inners && i < |inners[pa].links|
    ensures var ls, sp := FuseLeaves(leaves, x, y, kept), FuseSpan(span, x, y, kept);
            && Indexed(ls, inners[pa := FusedParent(inners[pa], i, kept == x)], sp, level) && Separate(sp)
            && LeafSide(ls, sp, if first == x then kept else first, if last == y then kept else last, contents)
            && ItersOK(Moved(iters, if kept == x then y else x, kept), ls, sp)
  {
    var ls, sp := FuseLeaves(leaves, x, y, kept), FuseSpan(span, x, y, kept);
    FuseSeparate(span, x, y, kept);
    FuseChain(leaves, span, first, last, x, y, kept);
    FuseLeavesOK(leaves, span, contents, x, y, kept);
    assert Indexed(ls, inners[pa := FusedParent(inners[pa], i, kept == x)], sp, level);
    var iters' := Moved(iters, if kept == x then y else x, kept);
    forall j | 0 <= j < |iters'|
      ensures IterOK(iters'[j], ls, sp)
    {
      assert IterOK(iters[j], leaves, span);
    }
  }

  /** Everything that fusing two sibling leaves achieves, and what the pointer work for it relies on. */
  lemma LeafFusion(leaves: Leaves, inners: Inners, span: Spans, level: nat, root: Addr, first: Addr, last: Addr,
                   contents: map<Key, Value>, iters: seq<IterPos>, pa: Addr, i: nat, x: Addr, y: Addr, kept: Addr)
    requires Indexed(leaves, inners, span, level) && Separate(span) && LeafSide(leaves, span, first, last, contents)
    requires ItersOK(iters, leaves, span) && TreeSide(inners, span, level, root)
    requires x in leaves && y in leaves && (kept == x || kept == y) && Siblings(inners, span, pa, i, x, y)
    ensures Neighbours(leaves, span, x, y, kept) && first in leaves && last in leaves
    ensures leaves[y].next != 0 ==> leaves[y].next in leaves && leaves[leaves[y].next].prev == y
    ensures leaves[x].prev != 0 ==> leaves[x].prev in leaves && leaves[leaves[x].prev].next == x
    ensures inners[pa].links[i].child == y
    ensures forall j :: 0 <= j < i ==> inners[pa].links[j].child != y
    ensures forall j :: 0 <= j < i ==> ChildAt(inners[pa].heir, inners[pa].links, j) != x
    ensures var ls, sp := FuseLeaves(leaves, x, y, kept), FuseSpan(span, x, y, kept);
            var inners' := inners[pa := FusedParent(inners[pa], i, kept == x)];
            var dead := if kept == x then y else x;
            && Indexed(ls, inners', sp, level) && Separate(sp)
            && LeafSide(ls, sp, if first == x then kept else first, if last == y then kept else last, contents)
            && ItersOK(Moved(iters, dead, kept), ls, sp) && SameKeys(iters, Moved(iters, dead, kept))
            && TreeBut(inners', sp, level, root, pa)
            && LeafGone(leaves, span, ls, sp, dead, kept) && SpansKept(span, sp, dead, kept)
  {
    SiblingFacts(inners, span, pa, i, x, y);
    AreNeighbours(leaves, span, first, last, x, y, kept);
    LeavesFused(inners, span, level, root, pa, i, x, y, kept);
    FuseBase(leaves, inners, span, level, first, last, contents, iters, pa, i, x, y, kept);
    ChainEnds(leaves, span, first, last, x, y);
    FirstLink(inners, span, pa, i, x, y);
    FusedEffect(leaves, span, x, y, kept);
  }

  // ---------------------------------------------------------------- editing one leaf, on values

  /** Two maps that agree on every key outside an interval. */
  ghost predicate SameOutside(m: map<Key, Value>, m': map<Key, Value>, s: Span) {
    forall k {:trigger InSpan(k, s)} :: !InSpan(k, s) ==> (k in m <==> k in m') && (k in m ==> m'[k] == m[k])
  }

  /** Every stored key of the interval is among the records. */
  ghost predicate Covers(rs: seq<Record>, m: map<Key, Value>, s: Span) {
    forall k {:trigger HasKey(rs, k)} :: k in m && InSpan(k, s) ==> HasKey(rs, k)
  }

  lemma OtherLeafKeeps(rs: seq<Record>, s: Span, m: map<Key, Value>, m': map<Key, Value>, sx: Span)
    requires LeafOK(rs, s) && Stored(rs, m) && Covers(rs, m, s) && SameOutside(m, m', sx) && Apart(s, sx)
    ensures Stored(rs, m') && Covers(rs, m', s)
  {
    forall i | 0 <= i < |rs|
      ensures rs[i].key in m' && m'[rs[i].key] == rs[i].value
    {
      assert InSpan(rs[i].key, s) && !InSpan(rs[i].key, sx);
    }
    forall k | k in m' && InSpan(k, s)
      ensures HasKey(rs, k)
    {
      assert !InSpan(k, sx);
    }
  }

  /** New records for one leaf, with the stored map changed inside that leaf's interval only. */
  lemma OtherLeafStays(leaves: Leaves, span: Spans, first: Addr, last: Addr, contents: map<Key, Value>,
                       x: Addr, contents': map<Key, Value>, a: Addr)
    requires LeafSide(leaves, span, first, last, contents) && x in leaves && a in leaves && Apart(span[a], span[x])
    requires SameOutside(contents, contents', span[x])
    ensures LeafOK(leaves[a].records, span[a]) && Stored(leaves[a].records, contents')
    ensures Covers(leaves[a].records, contents', span[a])
  {
    assert LeafOK(leaves[a].records, span[a]) && Stored(leaves[a].records, contents);
    forall k | k in contents && InSpan(k, span[a])
      ensures HasKey(leaves[a].records, k)
    {
    }
    OtherLeafKeeps(leaves[a].records, span[a], contents, contents', span[x]);
  }

  lemma EditLeaf(leaves: Leaves, span: Spans, first: Addr, last: Addr, contents: map<Key, Value>,
                 x: Addr, rs: seq<Record>, contents': map<Key, Value>)
    requires LeafSide(leaves, span, first, last, contents) && x in leaves
    requires forall a :: a in leaves && a != x ==> Apart(span[a], span[x])
    requires LeafOK(rs, span[x]) && Stored(rs, contents') && Covers(rs, contents', span[x])
    requires SameOutside(contents, contents', span[x])
    ensures LeafSide(leaves[x := leaves[x].(records := rs)], span, first, last, contents')
  {
    var leaves' := leaves[x := leaves[x].(records := rs)];
    forall a | a in leaves'
      ensures NextOK(leaves', span, a) && PrevOK(leaves', span, a)
    {
      assert NextOK(leaves, span, a) && PrevOK(leaves, span, a);
    }
    forall a | a in leaves'
      ensures LeafOK(leaves'[a].records, span[a]) && Stored(leaves'[a].records, contents')
      ensures Covers(leaves'[a].records, contents', span[a])
    {
      if a != x { OtherLeafStays(leaves, span, first, last, contents, x, contents', a); }
    }
    forall a, k | a in leaves' && k in contents' && InSpan(k, span[a])
      ensures HasKey(leaves'[a].records, k)
    {
      assert Covers(leaves'[a].records, contents', span[a]);
    }
  }

  lemma InsertSorted(rs: seq<Record>, k: Key, v: Value)
    requires SortedRecords(rs) && forall i :: 0 <= i < |rs| ==> rs[i].key != k
    ensures SortedRecords(Inserted(rs, LowerBound(rs, k), Record(k, v)))
  {
    var p := LowerBound(rs, k);
    var rs' := Inserted(rs, p, Record(k, v));
    forall i, j | 0 <= i < j < |rs'|
      ensures rs'[i].key < rs'[j].key
    {
      InsertedAt(rs, p, Record(k, v), i);
      InsertedAt(rs, p, Record(k, v), j);
    }
  }

  lemma InsertRecord(rs: seq<Record>, s: Span, contents: map<Key, Value>, k: Key, v: Value)
    requires LeafOK(rs, s) && Stored(rs, contents) && InSpan(k, s) && k !in contents && Covers(rs, contents, s)
    ensures var rs' := Inserted(rs, LowerBound(rs, k), Record(k, v));
            LeafOK(rs', s) && Stored(rs', contents[k := v]) && Covers(rs', contents[k := v], s)
  {
    var p := LowerBound(rs, k);
    var rs' := Inserted(rs, p, Record(k, v));
    InsertSorted(rs, k, v);
    forall i | 0 <= i < |rs'|
      ensures InSpan(rs'[i].key, s) && rs'[i].key in contents[k := v] && contents[k := v][rs'[i].key] == rs'[i].value
    {
      InsertedAt(rs, p, Record(k, v), i);
    }
    forall q | q in contents[k := v] && InSpan(q, s)
      ensures HasKey(rs', q)
    {
      InsertedHasKey(rs, p, Record(k, v), q);
      assert q == k || HasKey(rs, q);
    }
  }

  lemma InsertedHasKey(rs: seq<Record>, p: nat, r: Record, q: Key)
    requires p <= |rs|
    ensures q == r.key || HasKey(rs, q) ==> HasKey(Inserted(rs, p, r), q)
  {
    if q == r.key {
      InsertedAt(rs, p, r, p);
    } else if HasKey(rs, q) {
      var i :| 0 <= i < |rs| && rs[i].key == q;
      InsertedAt(rs, p, r, if i < p then i else i + 1);
    }
  }

  lemma EraseRecord(rs: seq<Record>, s: Span, contents: map<Key, Value>, p: nat)
    requires LeafOK(rs, s) && Stored(rs, contents) && p < |rs| && Covers(rs, contents, s)
    ensures LeafOK(Without(rs, p), s) && Stored(Without(rs, p), contents - {rs[p].key})
    ensures Covers(Without(rs, p), contents - {rs[p].key}, s)
  {
    var rs' := Without(rs, p);
    forall i | 0 <= i < |rs'|
      ensures rs'[i] == rs[if i < p then i else i + 1]
    {
    }
    forall q | q in contents - {rs[p].key} && InSpan(q, s)
      ensures HasKey(rs', q)
    {
      assert HasKey(rs, q);
      var i :| 0 <= i < |rs| && rs[i].key == q;
      assert rs'[if i < p then i else i - 1].key == q;
    }
  }

  lemma ReplaceRecord(rs: seq<Record>, s: Span, contents: map<Key, Value>, p: nat, v: Value)
    requires LeafOK(rs, s) && Stored(rs, contents) && p < |rs| && Covers(rs, contents, s)
    ensures var rs' := rs[p := Record(rs[p].key, v)];
            LeafOK(rs', s) && Stored(rs', contents[rs[p].key := v]) && Covers(rs', contents[rs[p].key := v], s)
  {
    var rs' := rs[p := Record(rs[p].key, v)];
    forall q | q in contents[rs[p].key := v] && InSpan(q, s)
      ensures HasKey(rs', q)
    {
      if q == rs[p].key {
        assert rs'[p].key == q;
      } else {
        assert HasKey(rs, q);
        var i :| 0 <= i < |rs| && rs[i].key == q;
        assert rs'[i].key == q;
      }
    }
  }

  /** A search in the right leaf finds a stored key, and only that. */
  lemma LookupInLeaf(leaves: Leaves, span: Spans, first: Addr, last: Addr, contents: map<Key, Value>, x: Addr, k: Key)
    requires LeafSide(leaves, span, first, last, contents) && x in leaves && InSpan(k, span[x])
    ensures var rs := leaves[x].records;
            && LeafOK(rs, span[x]) && Stored(rs, contents) && Covers(rs, contents, span[x])
            && var p := LowerBound(rs, k);
               (k in contents <==> p < |rs| && rs[p].key == k) && (k in contents ==> rs[p].value == contents[k])
  {
    var rs := leaves[x].records;
    assert LeafOK(rs, span[x]) && Stored(rs, contents);
    forall q | q in contents && InSpan(q, span[x])
      ensures HasKey(rs, q)
    {
      assert HasKey(leaves[x].records, q);
    }
    var p := LowerBound(rs, k);
    if k in contents {
      assert HasKey(rs, k);
      var i :| 0 <= i < |rs| && rs[i].key == k;
      assert p <= i;
    }
  }

  // ---------------------------------------------------------------- the reorganisation queue

  /** Every queued leaf not yet worked off is live, and its queued key leads to it. */
  ghost predicate QueueOK(queue: set<(Addr, Key)>, done: set<Addr>, leaves: Leaves, span: Spans) {
    forall e :: e in queue && e.0 !in done ==> e.0 in leaves && e.0 in span && InSpan(e.1, span[e.0])
  }

  ghost predicate Queued(queue: set<(Addr, Key)>, a: Addr) {
    exists k :: (a, k) in queue
  }

  /** Every leaf below the root is at least half full or waits in the queue. */
  ghost predicate LeavesTidy(queue: set<(Addr, Key)>, done: set<Addr>, leaves: Leaves, root: Addr) {
    forall a {:trigger Queued(queue, a)} :: a in leaves ==>
      a == root || |leaves[a].records| >= MAX_LEAF_NODE_RECORDS / 2 || (a !in done && Queued(queue, a))
  }

  /** As LeavesTidy, but for one leaf that is just being looked at. */
  ghost predicate TidyBut(queue: set<(Addr, Key)>, done: set<Addr>, leaves: Leaves, root: Addr, x: Addr) {
    forall a {:trigger Queued(queue, a)} :: a in leaves && a != x ==>
      a == root || |leaves[a].records| >= MAX_LEAF_NODE_RECORDS / 2 || (a !in done && Queued(queue, a))
  }

  /** No inner node has more branches than it may have. */
  ghost predicate InnersFit(inners: Inners) {
    forall n :: n in inners ==> |inners[n].links| <= MAX_INNER_NODE_BRANCHES
  }

  /** No leaf has to be merged, and those that have to be divided wait in the queue and are not too large for it. */
  ghost predicate LeavesFit(queue: set<(Addr, Key)>, done: set<Addr>, leaves: Leaves, root: Addr) {
    forall a {:trigger Queued(queue, a)} :: a in leaves ==> LeafFits(queue, done, leaves, root, a)
  }

  ghost predicate LeafFits(queue: set<(Addr, Key)>, done: set<Addr>, leaves: Leaves, root: Addr, a: Addr)
    requires a in leaves
  {
    var n := |leaves[a].records|;
    && (a == root || n >= MAX_LEAF_NODE_RECORDS / 2) && n <= 2 * MAX_LEAF_NODE_RECORDS
    && (n <= MAX_LEAF_NODE_RECORDS || (a !in done && Queued(queue, a)))
  }

  /** As LeavesFit, but one leaf is just being looked at. */
  ghost predicate LeavesFitBut(queue: set<(Addr, Key)>, done: set<Addr>, leaves: Leaves, root: Addr, x: Addr) {
    && (forall a {:trigger Queued(queue, a)} :: a in leaves && a != x ==> LeafFits(queue, done, leaves, root, a))
    && x in leaves && (x == root || |leaves[x].records| >= MAX_LEAF_NODE_RECORDS / 2)
    && |leaves[x].records| <= 2 * MAX_LEAF_NODE_RECORDS
  }

  lemma PopFits(queue: set<(Addr, Key)>, e: (Addr, Key), done: set<Addr>, leaves: Leaves, root: Addr)
    requires LeavesFit(queue, done, leaves, root)
    ensures e.0 in done ==> LeavesFit(queue - {e}, done, leaves, root)
    ensures e.0 in leaves ==> LeavesFitBut(queue - {e}, done + {e.0}, leaves, root, e.0)
  {
    forall a | a in leaves
      ensures LeafFits(queue, done, leaves, root, a)
      ensures a != e.0 || a in done ==> LeafFits(queue - {e}, done, leaves, root, a)
      ensures a != e.0 ==> LeafFits(queue - {e}, done + {e.0}, leaves, root, a)
    {
      assert Queued(queue, a) || !Queued(queue, a);
      if Queued(queue, a) && a != e.0 {
        var k :| (a, k) in queue;
        assert (a, k) in queue - {e};
      }
    }
  }

  lemma LeftAloneTidy(queue: set<(Addr, Key)>, done: set<Addr>, leaves: Leaves, root: Addr, x: Addr)
    requires TidyBut(queue, done, leaves, root, x) && x in leaves
    requires x == root || |leaves[x].records| >= MAX_LEAF_NODE_RECORDS / 2
    ensures LeavesTidy(queue, done, leaves, root)
  {
    forall a | a in leaves
      ensures a == root || |leaves[a].records| >= MAX_LEAF_NODE_RECORDS / 2 || (a !in done && Queued(queue, a))
    {
      assert Queued(queue, a) || !Queued(queue, a);
    }
  }

  lemma LeftAloneFits(queue: set<(Addr, Key)>, done: set<Addr>, leaves: Leaves, root: Addr, x: Addr)
    requires x in leaves && |leaves[x].records| <= MAX_LEAF_NODE_RECORDS
    ensures LeavesFitBut(queue, done, leaves, root, x) ==> LeavesFit(queue, done, leaves, root)
  {
    if LeavesFitBut(queue, done, leaves, root, x) {
      forall a | a in leaves
        ensures LeafFits(queue, done, leaves, root, a)
      {
        assert Queued(queue, a) || !Queued(queue, a);
      }
    }
  }

  lemma EmptyFits(done: set<Addr>, leaves: Leaves, root: Addr)
    requires LeavesFit({}, done, leaves, root)
    ensures forall a :: a in leaves ==> |leaves[a].records| <= MAX_LEAF_NODE_RECORDS
  {
    forall a | a in leaves
      ensures |leaves[a].records| <= MAX_LEAF_NODE_RECORDS
    {
      assert !Queued({}, a);
    }
  }

  /** No leaf has to be divided or merged. */
  ghost predicate NoneOver(leaves: Leaves, root: Addr) {
    forall a :: a in leaves ==>
      && |leaves[a].records| <= MAX_LEAF_NODE_RECORDS
      && (a == root || |leaves[a].records| >= MAX_LEAF_NODE_RECORDS / 2)
  }

  lemma NoneOverFits(leaves: Leaves, root: Addr, queue: set<(Addr, Key)>)
    requires NoneOver(leaves, root)
    ensures LeavesFit(queue, {}, leaves, root)
  {
    forall a | a in leaves
      ensures LeafFits(queue, {}, leaves, root, a)
    {
    }
  }

  /** A leaf that gets no smaller, and at most one record larger, fits if it is queued when it is overfull. */
  lemma StoredFits(leaves: Leaves, root: Addr, x: Addr, rs: seq<Record>, queue: set<(Addr, Key)>)
    requires x in leaves && |leaves[x].records| <= |rs| <= |leaves[x].records| + 1
    requires |rs| > |leaves[x].records| && |rs| > MAX_LEAF_NODE_RECORDS ==> (x, rs[0].key) in queue
    ensures NoneOver(leaves, root) ==> LeavesFit(queue, {}, leaves[x := leaves[x].(records := rs)], root)
  {
    var leaves' := leaves[x := leaves[x].(records := rs)];
    if NoneOver(leaves, root) {
      assert |leaves[x].records| <= MAX_LEAF_NODE_RECORDS;
      if |rs| > MAX_LEAF_NODE_RECORDS { assert Queued(queue, x); }
      forall a | a in leaves'
        ensures LeafFits(queue, {}, leaves', root, a)
      {
        assert a in leaves && |leaves[a].records| <= MAX_LEAF_NODE_RECORDS;
      }
    }
  }

  /** The two halves of a leaf, and everything else as it was. */
  lemma CutIs(leaves: Leaves, x: Addr, y: Addr, leaves': Leaves)
    requires x in leaves && y !in leaves && leaves[x].next != x
    requires leaves' == CutLeaves(leaves, x, y, |leaves[x].records| / 2)
    ensures leaves'.Keys == leaves.Keys + {y}
    ensures leaves'[x].records == leaves[x].records[..|leaves[x].records| / 2]
    ensures leaves'[y].records == leaves[x].records[|leaves[x].records| / 2..]
    ensures forall a :: a in leaves' && a != x && a != y ==> leaves'[a].records == leaves[a].records
  {
    forall a | a in leaves' && a != x && a != y
      ensures leaves'[a].records == leaves[a].records
    {
      CutRecords(leaves, x, y, |leaves[x].records| / 2, a);
    }
    CutRecords(leaves, x, y, |leaves[x].records| / 2, x);
    CutRecords(leaves, x, y, |leaves[x].records| / 2, y);
  }

  /** Dividing makes two leaves that fit of one that was not too large for it. */
  lemma DivideFits(queue: set<(Addr, Key)>, done: set<Addr>, leaves: Leaves, leaves': Leaves, root: Addr, root': Addr,
                   x: Addr, y: Addr)
    requires x in leaves && |leaves[x].records| > MAX_LEAF_NODE_RECORDS
    requires leaves'.Keys == leaves.Keys + {y} && (root in leaves ==> root == x)
    requires |leaves'[x].records| == |leaves[x].records| / 2
    requires |leaves'[y].records| == |leaves[x].records| - |leaves[x].records| / 2
    requires forall a :: a in leaves' && a != x && a != y ==> leaves'[a].records == leaves[a].records
    ensures LeavesFitBut(queue, done, leaves, root, x) ==> LeavesFit(queue, done, leaves', root')
  {
    if LeavesFitBut(queue, done, leaves, root, x) {
      forall a | a in leaves'
        ensures LeafFits(queue, done, leaves', root', a)
      {
        if a != x && a != y {
          assert a in leaves && (Queued(queue, a) || !Queued(queue, a));
          assert LeafFits(queue, done, leaves, root, a);
        }
      }
    }
  }

  /** A leaf whose size changed stays tidy if it is queued whenever it has become too small. */
  lemma EditTidy(queue: set<(Addr, Key)>, queue': set<(Addr, Key)>, leaves: Leaves, span: Spans, root: Addr,
                 x: Addr, rs: seq<Record>)
    requires QueueOK(queue, {}, leaves, span) && LeavesTidy(queue, {}, leaves, root)
    requires x in leaves && x in span && LeafOK(rs, span[x])
    requires queue' == queue || (|rs| > 0 && queue' == queue + {(x, rs[0].key)})
    requires |rs| >= |leaves[x].records| || x == root || |rs| >= MAX_LEAF_NODE_RECORDS / 2
          || (|rs| > 0 && queue' == queue + {(x, rs[0].key)})
    ensures var leaves' := leaves[x := leaves[x].(records := rs)];
            QueueOK(queue', {}, leaves', span) && LeavesTidy(queue', {}, leaves', root)
  {
    var leaves' := leaves[x := leaves[x].(records := rs)];
    forall a | a in leaves'
      ensures a == root || |leaves'[a].records| >= MAX_LEAF_NODE_RECORDS / 2 || Queued(queue', a)
    {
      if Queued(queue, a) {
        var k :| (a, k) in queue;
        assert (a, k) in queue';
      } else if a == x && queue' != queue {
        assert (x, rs[0].key) in queue';
      }
    }
  }

  /** What giving one leaf new records keeps. */
  lemma EditKeeps(leaves: Leaves, inners: Inners, span: Spans, level: nat, root: Addr, first: Addr, last: Addr,
                  contents: map<Key, Value>, iters: seq<IterPos>, queue: set<(Addr, Key)>, queue': set<(Addr, Key)>,
                  x: Addr, rs: seq<Record>, contents': map<Key, Value>)
    requires Indexed(leaves, inners, span, level) && Separate(span) && LeafSide(leaves, span, first, last, contents)
    requires QueueOK(queue, {}, leaves, span) && LeavesTidy(queue, {}, leaves, root) && ItersOK(iters, leaves, span)
    requires x in leaves && LeafOK(rs, span[x]) && Stored(rs, contents') && Covers(rs, contents', span[x])
    requires SameOutside(contents, contents', span[x])
    requires queue' == queue || (|rs| > 0 && queue' == queue + {(x, rs[0].key)})
    requires |rs| >= |leaves[x].records| || x == root || |rs| >= MAX_LEAF_NODE_RECORDS / 2
          || (|rs| > 0 && queue' == queue + {(x, rs[0].key)})
    ensures var leaves' := leaves[x := leaves[x].(records := rs)];
            && Indexed(leaves', inners, span, level) && LeafSide(leaves', span, first, last, contents')
            && QueueOK(queue', {}, leaves', span) && LeavesTidy(queue', {}, leaves', root)
            && ItersOK(iters, leaves', span) && leaves'.Keys == leaves.Keys
  {
    forall a | a in leaves && a != x
      ensures Apart(span[a], span[x])
    {
      assert Apart(span[a], span[x]);
    }
    EditLeaf(leaves, span, first, last, contents, x, rs, contents');
    EditTidy(queue, queue', leaves, span, root, x, rs);
  }

  lemma PopKeeps(queue: set<(Addr, Key)>, e: (Addr, Key), done: set<Addr>, leaves: Leaves, root: Addr)
    requires LeavesTidy(queue, done, leaves, root)
    ensures TidyBut(queue - {e}, done + {e.0}, leaves, root, e.0)
  {
    forall a | a in leaves && a != e.0
      ensures a == root || |leaves[a].records| >= MAX_LEAF_NODE_RECORDS / 2
           || (a !in done + {e.0} && Queued(queue - {e}, a))
    {
      if Queued(queue, a) {
        var k :| (a, k) in queue;
        assert (a, k) in queue - {e};
      }
    }
  }

  lemma PopStale(queue: set<(Addr, Key)>, e: (Addr, Key), done: set<Addr>, leaves: Leaves, root: Addr)
    requires LeavesTidy(queue, done, leaves, root) && e.0 in done
    ensures LeavesTidy(queue - {e}, done, leaves, root)
  {
    forall a | a in leaves
      ensures a == root || |leaves[a].records| >= MAX_LEAF_NODE_RECORDS / 2 || (a !in done && Queued(queue - {e}, a))
    {
      if a !in done && Queued(queue, a) {
        var k :| (a, k) in queue;
        assert (a, k) in queue - {e};
      }
    }
  }

  /** Dividing a leaf leaves two leaves at least half full and every other queue entry in place. */
  lemma DivideKeeps(queue: set<(Addr, Key)>, done: set<Addr>, leaves: Leaves, span: Spans, leaves': Leaves,
                    span': Spans,
                    root: Addr, root': Addr, x: Addr, y: Addr)
    requires QueueOK(queue, done, leaves, span) && TidyBut(queue, done, leaves, root, x) && x in done
    requires x in leaves && y !in span && |leaves[x].records| > MAX_LEAF_NODE_RECORDS && leaves[x].next != x
    requires forall a :: a in leaves ==> a in span
    requires leaves' == CutLeaves(leaves, x, y, |leaves[x].records| / 2)
    requires forall a :: a in leaves && a != x ==> a in span' && span'[a] == span[a]
    requires root in leaves ==> root == x
    ensures QueueOK(queue, done, leaves', span') && LeavesTidy(queue, done, leaves', root')
  {
    var mid := |leaves[x].records| / 2;
    forall a | a in leaves'
      ensures a == root' || |leaves'[a].records| >= MAX_LEAF_NODE_RECORDS / 2 || (a !in done && Queued(queue, a))
    {
      CutRecords(leaves, x, y, mid, a);
      assert a in leaves ==> (Queued(queue, a) || !Queued(queue, a));
    }
  }

  /** Merging a leaf away leaves every other queue entry in place. */
  lemma MergeKeeps(queue: set<(Addr, Key)>, done: set<Addr>, leaves: Leaves, span: Spans, leaves': Leaves, span': Spans,
                   root: Addr, root': Addr, x: Addr, kept: Addr)
    requires QueueOK(queue, done, leaves, span) && TidyBut(queue, done, leaves, root, x) && x in done
    requires LeafGone(leaves, span, leaves', span', x, kept)
    requires root !in leaves
    ensures QueueOK(queue, done, leaves', span') && LeavesTidy(queue, done, leaves', root')
  {
    forall e | e in queue && e.0 !in done
      ensures e.0 in leaves' && e.0 in span' && InSpan(e.1, span'[e.0])
    {
      var a, k := e.0, e.1;
      assert a in leaves' && a in span' && InSpan(k, span[a]);
    }
    forall a | a in leaves'
      ensures a == root' || |leaves'[a].records| >= MAX_LEAF_NODE_RECORDS / 2 || (a !in done && Queued(queue, a))
    {
      assert Queued(queue, a) || !Queued(queue, a);
    }
  }

  lemma NoSelfNext(leaves: Leaves, span: Spans, first: Addr, last: Addr, contents: map<Key, Value>, x: Addr)
    requires LeafSide(leaves, span, first, last, contents) && Separate(span) && 0 !in leaves && x in leaves
    ensures leaves[x].next != x
  {
    assert NextOK(leaves, span, x);
  }

  /** When one leaf is not the root, no leaf is. */
  lemma RootIsNoOtherLeaf(leaves: Leaves, inners: Inners, span: Spans, level: nat, root: Addr, a: Addr)
    requires Indexed(leaves, inners, span, level) && Separate(span)
    requires root in span && span[root] == Span(NegInf, PosInf, level - 1) && a in leaves && a != root
    ensures root !in leaves
  {
    if root in leaves { RootLeafAlone(leaves, inners, span, level, root, a); }
  }

  /** A leaf at the root is the only leaf. */
  /** A leaf has no more records than are stored. */
  lemma RecordsStored(leaves: Leaves, span: Spans, first: Addr, last: Addr, m: map<Key, Value>, x: Addr)
    requires LeafSide(leaves, span, first, last, m) && x in leaves
    ensures |leaves[x].records| <= |m|
  {
    assert LeafOK(leaves[x].records, span[x]) && Stored(leaves[x].records, m);
    DistinctKeys(leaves[x].records, m.Keys);
  }

  lemma {:induction false} DistinctKeys(rs: seq<Record>, ks: set<Key>)
    requires SortedRecords(rs) && forall i :: 0 <= i < |rs| ==> rs[i].key in ks
    ensures |rs| <= |ks|
  {
    if |rs| > 0 {
      var e := |rs| - 1;
      DistinctKeys(rs[..e], ks - {rs[e].key});
    }
  }

  lemma RootLeafAlone(leaves: Leaves, inners: Inners, span: Spans, level: nat, root: Addr, a: Addr)
    requires Indexed(leaves, inners, span, level) && Separate(span)
    requires root in span && span[root] == Span(NegInf, PosInf, level - 1) && root in leaves && a in leaves
    ensures a == root
  {
    assert a != root ==> Apart(span[a], span[root]);
  }
}
