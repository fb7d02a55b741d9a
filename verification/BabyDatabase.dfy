/**
 The B+ tree database object: nodes are created, relinked and deleted in place, leaves that grew
 or shrank too much are queued, and the queue is worked off before the next update.
 */
module BabyDatabase {
  import opened Basics
  import opened BabyNodes
  import opened BabyTree
  import opened BabyOrder
  import opened Processing

  /** Appending to the value of a key, after a delimiter if there is a value already. */
  function Appended(m: map<Key, Value>, k: Key, v: Value, delim: Value): map<Key, Value> {
    if k in m then m[k := m[k] + delim + v] else m[k := v]
  }

  class BabyDBM {
    var leaves: Leaves
    var inners: Inners
    var iterators: seq<IterPos>
    var numRecords: int
    var treeLevel: nat
    var root: Addr
    var first: Addr
    var last: Addr
    var reorg: set<(Addr, Key)>
    ghost var span: Spans
    ghost var contents: map<Key, Value>

    /** What work on inner nodes relies on besides their shape. */
    ghost predicate Skeleton()
      reads this
    {
      Indexed(leaves, inners, span, treeLevel) && Separate(span)
    }

    /** Everything but the shape of the inner nodes and the record count. */
    ghost predicate Base()
      reads this
    {
      && Skeleton()
      && LeafSide(leaves, span, first, last, contents)
      && ItersOK(iterators, leaves, span)
    }

    ghost predicate Valid()
      reads this
    {
      Base() && TreeSide(inners, span, treeLevel, root) && numRecords == |contents|
    }

    constructor ()
      ensures Consistent() && IsLeaf() && contents == map[] && iterators == []
    {
      root, first, last := 1, 1, 1;
      leaves := map[1 := LeafNode(0, 0, [])];
      inners := map[];
      treeLevel, numRecords, reorg, iterators := 1, 0, {}, [];
      contents := map[];
      span := map[1 := Span(NegInf, PosInf, 0)];
    }

    // -------------------------------------------------------------- descending

    method SearchTree(key: Key) returns (leaf: Addr)
      requires Valid()
      ensures leaf in leaves && InSpan(key, span[leaf])
    {
      var node := root;
      var level := 1;
      while level < treeLevel
        invariant 1 <= level <= treeLevel
        invariant node in span && InSpan(key, span[node]) && span[node].height == treeLevel - level
      {
        var inner := inners[node];
        assert InnerOK(inners, node, span);
        RouteInSpan(inner.heir, inner.links, span[node], span, key);
        node := ChildAt(inner.heir, inner.links, LinkUpper(inner.links, key));
        level := level + 1;
      }
      leaf := node;
    }

    method TraceTree(key: Key) returns (hist: seq<Addr>, ghost bottom: Addr)
      requires Valid()
      ensures |hist| == treeLevel - 1
      ensures |leaves| < 0x8000_0000_0000_0000 ==> |hist| <= TREE_LEVEL_MAX
      ensures bottom in leaves && InSpan(key, span[bottom])
      ensures Path(hist, |hist|, bottom, root, treeLevel, inners, span)
    {
      PathFits(leaves, inners, span, treeLevel, root);
      var node := root;
      var level := 1;
      hist := [];
      while level < treeLevel
        invariant 1 <= level <= treeLevel && |hist| == level - 1
        invariant node in span && InSpan(key, span[node]) && span[node].height == treeLevel - level
        invariant Path(hist, |hist|, node, root, treeLevel, inners, span)
      {
        var inner := inners[node];
        assert InnerOK(inners, node, span);
        RouteInSpan(inner.heir, inner.links, span[node], span, key);
        ghost var child := ChildAt(inner.heir, inner.links, LinkUpper(inner.links, key));
        assert IsChild(inners, node, child);
        PathExtend(hist, node, child, root, treeLevel, inners, span);
        hist := hist + [node];
        node := ChildAt(inner.heir, inner.links, LinkUpper(inner.links, key));
        level := level + 1;
      }
      bottom := node;
    }

    // -------------------------------------------------------------- dividing

    /** Moves the upper half of an overfull leaf into a new leaf chained after it. */
    method SplitLeaf(leaf: Addr) returns (newLeaf: Addr, newKey: Key)
      requires Base()
      requires leaf in leaves && |leaves[leaf].records| >= 2
      modifies this`last, this`leaves, this`span, this`iterators
      ensures Base()
      ensures newLeaf !in old(span)
      ensures leaves == CutLeaves(old(leaves), leaf, newLeaf, |old(leaves)[leaf].records| / 2)
      ensures BLt(old(span)[leaf].lo, At(newKey)) && BLt(At(newKey), old(span)[leaf].hi)
      ensures span == CutSpan(old(span), leaf, newLeaf, newKey)
      ensures SameKeys(old(iterators), iterators)
    {
      assert NextOK(leaves, span, leaf);
      newLeaf, newKey := MoveUpperHalf(leaf);
      CutLeafSide(old(leaves), old(span), first, old(last), contents, leaf, newLeaf, |old(leaves)[leaf].records| / 2);
      CutIndexed(old(leaves), inners, old(span), treeLevel, leaf, newLeaf, |old(leaves)[leaf].records| / 2, newKey);
      CutSeparate(old(span), leaf, newLeaf, newKey);
      PatchIterators(leaf, newLeaf, newKey, old(leaves).Keys, old(span));
    }

    /** The pointer work of a leaf division. */
    method MoveUpperHalf(leaf: Addr) returns (newLeaf: Addr, newKey: Key)
      requires Indexed(leaves, inners, span, treeLevel)
      requires leaf in leaves && |leaves[leaf].records| >= 2
      requires leaves[leaf].next != 0 ==> leaves[leaf].next in leaves && leaves[leaf].next != leaf
      modifies this`last, this`leaves, this`span
      ensures newLeaf != 0 && newLeaf !in old(leaves) && newLeaf !in inners && newLeaf !in old(span)
      ensures leaves == CutLeaves(old(leaves), leaf, newLeaf, |old(leaves)[leaf].records| / 2)
      ensures newKey == old(leaves)[leaf].records[|old(leaves)[leaf].records| / 2].key
      ensures span == CutSpan(old(span), leaf, newLeaf, newKey)
      ensures last == if old(last) == leaf then newLeaf else old(last)
    {
      newLeaf := AllocateAddr();
      var ls := leaves;
      ls := ls[newLeaf := LeafNode(leaf, ls[leaf].next, [])];
      if ls[newLeaf].next != 0 {
        var next := ls[newLeaf].next;
        ls := ls[next := ls[next].(prev := newLeaf)];
      }
      ls := ls[leaf := ls[leaf].(next := newLeaf)];
      var records := ls[leaf].records;
      var mid := |records| / 2;
      ls := ls[newLeaf := ls[newLeaf].(records := records[mid..])];
      newKey := records[mid].key;
      ls := ls[leaf := ls[leaf].(records := records[..mid])];
      leaves := ls;
      if last == leaf {
        last := newLeaf;
      }
      span := CutSpan(span, leaf, newLeaf, newKey);
    }

    /** Memory allocation: some address that no live node has. */
    method AllocateAddr() returns (a: Addr)
      requires Indexed(leaves, inners, span, treeLevel)
      ensures a != 0 && a !in leaves && a !in inners && a !in span
    {
      FreshAddr(span.Keys);
      a :| a != 0 && a !in leaves && a !in inners;
    }

    /** Iterators on the cut leaf whose key went to the new leaf follow it there. */
    method PatchIterators(leaf: Addr, newLeaf: Addr, newKey: Key, ghost live: set<Addr>, ghost span0: Spans)
      requires leaf in live && newLeaf != leaf && leaf in span0 && span0[leaf].height == 0
      requires leaf != 0 && leaves.Keys == live + {newLeaf} && newLeaf != 0
      requires BLt(span0[leaf].lo, At(newKey)) && BLt(At(newKey), span0[leaf].hi)
      requires span == CutSpan(span0, leaf, newLeaf, newKey)
      requires forall i :: 0 <= i < |iterators| && iterators[i].leaf != 0 ==>
                 iterators[i].leaf in live && iterators[i].leaf in span0 &&
                 iterators[i].key.Some? && InSpan(iterators[i].key.value, span0[iterators[i].leaf])
      requires newLeaf !in live
      modifies this`iterators
      ensures ItersOK(iterators, leaves, span)
      ensures SameKeys(old(iterators), iterators)
    {
      var j := 0;
      while j < |iterators|
        invariant j <= |iterators| == |old(iterators)|
        invariant forall i :: j <= i < |iterators| ==> iterators[i] == old(iterators)[i]
        invariant forall i :: 0 <= i < j ==>
                    iterators[i].key == old(iterators)[i].key && IterOK(iterators[i], leaves, span)
      {
        var it := iterators[j];
        if it.leaf == leaf && it.key.value >= newKey {
          iterators := iterators[j := it.(leaf := newLeaf)];
        }
        j := j + 1;
      }
    }

    method AddLinkToInnerNode(node: Addr, child: Addr, key: Key)
      requires node in inners && SortedLinks(inners[node].links)
      modifies this`inners
      ensures var n := old(inners)[node];
              inners == old(inners)[
                          node := InnerNode(n.heir, Inserted(n.links, LinkUpper(n.links, key), Link(key, child)))]
    {
      var n := inners[node];
      var p := LinkUpper(n.links, key);
      inners := inners[node := InnerNode(n.heir, Inserted(n.links, p, Link(key, child)))];
    }

    /** Moves the links above the middle one of an overfull inner node into a new inner node. */
    method SplitInner(node: Addr) returns (newNode: Addr, newKey: Key)
      requires Indexed(leaves, inners, span, treeLevel) && node in inners
      requires SortedLinks(inners[node].links) && |inners[node].links| > MAX_INNER_NODE_BRANCHES
      modifies this`inners, this`span
      ensures newNode != 0 && newNode !in old(span)
      ensures var mid := |old(inners)[node].links| / 2;
              && newKey == old(inners)[node].links[mid].key
              && inners == CutInners(old(inners), node, newNode, mid)
              && span == CutSpan(old(span), node, newNode, newKey)
    {
      newNode := AllocateAddr();
      var links := inners[node].links;
      var mid := |links| / 2;
      newKey := links[mid].key;
      var moved: seq<Link<Addr>> := [];
      var i := mid + 1;
      while i < |links|
        invariant mid + 1 <= i <= |links|
        invariant moved == links[mid + 1..i]
        modifies {}
      {
        AppendsInOrder(links, mid, i, links[i]);
        moved := Inserted(moved, LinkUpper(moved, links[i].key), links[i]);
        i := i + 1;
      }
      var num := |moved|;
      var kept := links;
      var j := 0;
      while j <= num
        invariant 0 <= j <= num + 1
        invariant kept == links[..|links| - j]
        modifies {}
      {
        kept := kept[..|kept| - 1];
        j := j + 1;
      }
      inners := inners[node := InnerNode(inners[node].heir, kept)][newNode := InnerNode(links[mid].child, moved)];
      span := CutSpan(span, node, newNode, newKey);
    }

    /** Cuts an overfull leaf in two and links the new half into the tree, upwards as far as needed. */
    method DivideNodes(leaf: Addr, key: Key) returns (ghost newLeaf: Addr)
      requires Valid() && leaf in leaves && InSpan(key, span[leaf])
      requires |leaves[leaf].records| > MAX_LEAF_NODE_RECORDS
      modifies this`leaves, this`inners, this`iterators, this`treeLevel, this`root, this`last, this`span
      ensures Valid()
      ensures newLeaf !in old(span) && root !in leaves
      ensures leaves == CutLeaves(old(leaves), leaf, newLeaf, |old(leaves)[leaf].records| / 2)
      ensures forall a :: a in old(leaves) && a != leaf ==> span[a] == old(span)[a]
      ensures SameKeys(old(iterators), iterators)
      ensures (forall n :: n in old(inners) ==> |old(inners)[n].links| <= MAX_INNER_NODE_BRANCHES) ==>
                forall n :: n in inners ==> |inners[n].links| <= MAX_INNER_NODE_BRANCHES
    {
      var hist, bottom := TraceTree(key);
      SameNode(span, leaf, bottom, key);
      var child, newKey := StartDividing(leaf, hist);
      newLeaf := child;
      LinkLeaf(hist, leaf, child, newKey);
    }

    /** The leaf is cut, and its new half is still to be linked at the end of the way down. */
    method StartDividing(leaf: Addr, ghost hist: seq<Addr>) returns (newLeaf: Addr, newKey: Key)
      requires Valid() && leaf in leaves && |leaves[leaf].records| >= 2
      requires |hist| == treeLevel - 1 && Path(hist, |hist|, leaf, root, treeLevel, inners, span)
      modifies this`last, this`leaves, this`span, this`iterators
      ensures Base() && numRecords == |contents|
              && Pending(inners, span, treeLevel, root, hist, |hist|, leaf, newLeaf, newKey)
      ensures newLeaf !in old(span) && leaves == CutLeaves(old(leaves), leaf, newLeaf, |old(leaves)[leaf].records| / 2)
      ensures forall a :: a in old(leaves) && a != leaf ==> span[a] == old(span)[a]
      ensures SameKeys(old(iterators), iterators)
    {
      newLeaf, newKey := SplitLeaf(leaf);
      StartDivision(old(leaves), inners, old(span), treeLevel, root, hist, leaf, newLeaf, newKey);
    }

    /** Links the new leaf into the tree; the spans of the leaves are as the cut has left them. */
    method LinkLeaf(hist: seq<Addr>, leaf: Addr, newLeaf: Addr, key: Key)
      requires Base() && numRecords == |contents|
               && Pending(inners, span, treeLevel, root, hist, |hist|, leaf, newLeaf, key)
      modifies this`inners, this`span, this`root, this`treeLevel
      ensures Valid() && root !in leaves
      ensures forall a :: a in leaves ==> span[a] == old(span)[a]
      ensures InnersFit(old(inners)) ==> InnersFit(inners)
    {
      LinkUpwards(hist, leaf, newLeaf, key);
      LeafSideFrame(leaves, old(span), span, first, last, contents, iterators);
    }

    /** Links a cut-off node into its parent, cutting the parent in turn while it is overfull. */
    method LinkUpwards(hist: seq<Addr>, bottom: Addr, newNode: Addr, key: Key)
      requires Skeleton() && Pending(inners, span, treeLevel, root, hist, |hist|, bottom, newNode, key)
      modifies this`inners, this`span, this`root, this`treeLevel
      ensures Skeleton() && TreeSide(inners, span, treeLevel, root) && root !in leaves
      ensures forall a :: a in leaves ==> span[a] == old(span)[a]
      ensures InnersFit(old(inners)) ==> InnersFit(inners)
    {
      var histSize: nat := |hist|;
      var heir, child, newKey := bottom, newNode, key;
      while true
        invariant histSize <= |hist|
        invariant Skeleton() && Pending(inners, span, treeLevel, root, hist, histSize, heir, child, newKey)
        invariant forall a :: a in leaves ==> span[a] == old(span)[a]
        invariant InnersFit(old(inners)) ==> InnersFit(inners)
        decreases histSize
      {
        if histSize < 1 {
          GrowRoot(heir, child, newKey, hist);
          break;
        }
        histSize := histSize - 1;
        var overfull;
        overfull, heir, child, newKey := LinkOnce(hist, histSize, heir, child, newKey);
        if !overfull {
          break;
        }
      }
    }

    /** Links the pending child into its parent; if that gets overfull, cuts it and leaves its upper half pending. */
    method LinkOnce(hist: seq<Addr>, n: nat, heir: Addr, child: Addr, key: Key)
      returns (overfull: bool, heir': Addr, child': Addr, key': Key)
      requires n < |hist| && Skeleton() && Pending(inners, span, treeLevel, root, hist, n + 1, heir, child, key)
      modifies this`inners, this`span
      ensures Skeleton()
      ensures overfull ==> Pending(inners, span, treeLevel, root, hist, n, heir', child', key')
      ensures !overfull ==> TreeSide(inners, span, treeLevel, root) && root !in leaves
      ensures forall a :: a in leaves ==> span[a] == old(span)[a]
      ensures InnersFit(old(inners)) ==> InnersFit(inners)
    {
      LinkChild(hist[n], child, key, hist, n, heir);
      overfull, heir', child', key' := |inners[hist[n]].links| > MAX_INNER_NODE_BRANCHES, hist[n], child, key;
      if overfull {
        child', key' := PromoteMiddle(hist[n], hist, n);
      }
    }

    /** Links the pending child into its parent, which makes the tree whole again. */
    method LinkChild(node: Addr, child: Addr, key: Key, ghost hist: seq<Addr>, ghost n: nat, ghost heir: Addr)
      requires n < |hist| && node == hist[n]
      requires Skeleton() && Pending(inners, span, treeLevel, root, hist, n + 1, heir, child, key)
      modifies this`inners
      ensures Skeleton() && TreeSide(inners, span, treeLevel, root) && root !in leaves
      ensures node in inners && span[node].height == treeLevel - 1 - n
      ensures Path(hist, n, node, root, treeLevel, inners, span)
      ensures inners.Keys == old(inners).Keys && |inners[node].links| == |old(inners)[node].links| + 1
      ensures forall m :: m in inners && m != node ==> inners[m] == old(inners)[m]
    {
      ghost var p := inners[node];
      LinkedIn(inners, span, treeLevel, root, hist, n, n + 1, heir, child, key, node,
               inners[node := InnerNode(p.heir, Inserted(p.links, LinkUpper(p.links, key), Link(key, child)))]);
      AddLinkToInnerNode(node, child, key);
    }

    /** Puts a new root over the two parts of the divided one. */
    method GrowRoot(heir: Addr, child: Addr, newKey: Key, ghost hist: seq<Addr>)
      requires Skeleton()
      requires Pending(inners, span, treeLevel, root, hist, 0, heir, child, newKey)
      modifies this`inners, this`span, this`root, this`treeLevel
      ensures Skeleton()
      ensures TreeSide(inners, span, treeLevel, root) && root !in leaves
      ensures forall a :: a in leaves ==> span[a] == old(span)[a]
      ensures InnersFit(old(inners)) ==> InnersFit(inners)
    {
      var node := AllocateAddr();
      NewRootEnds(inners, span, treeLevel, root, hist, heir, child, newKey, node);
      assert Inserted([], 0, Link(newKey, child)) == [Link(newKey, child)];
      span := span[node := Span(NegInf, PosInf, treeLevel)];
      inners := inners[node := InnerNode(heir, [Link(newKey, child)])];
      root := node;
      treeLevel := treeLevel + 1;
    }

    /** Splits an overfull inner node and leaves the new half to be linked by its parent. */
    method PromoteMiddle(node: Addr, ghost hist: seq<Addr>, ghost n: nat) returns (newNode: Addr, newKey: Key)
      requires Skeleton()
      requires TreeSide(inners, span, treeLevel, root)
      requires n <= |hist| && Path(hist, n, node, root, treeLevel, inners, span)
      requires node in inners && span[node].height == treeLevel - 1 - n
               && |inners[node].links| > MAX_INNER_NODE_BRANCHES
      modifies this`inners, this`span
      ensures Skeleton()
      ensures forall a :: a in leaves ==> span[a] == old(span)[a]
      ensures Pending(inners, span, treeLevel, root, hist, n, node, newNode, newKey)
      ensures inners == CutInners(old(inners), node, newNode, |old(inners)[node].links| / 2)
    {
      assert InnerOK(inners, node, span);
      newNode, newKey := SplitInner(node);
      CutInnerPending(old(inners), old(span), treeLevel, root, hist, n, node, newNode);
      CutSeparate(old(span), node, newNode, newKey);
    }

    // -------------------------------------------------------------- merging

    /** Appends the records of `leaf` to the leaf before it, and deletes `leaf`. */
    method JoinPrevLeaf(prevLeaf: Addr, leaf: Addr)
      requires Neighbours(leaves, span, prevLeaf, leaf, prevLeaf) && first in leaves && last in leaves
      requires leaves[leaf].next != 0 ==> leaves[leaf].next in leaves
      requires leaves[prevLeaf].prev != 0 ==>
               leaves[prevLeaf].prev in leaves && leaves[leaves[prevLeaf].prev].next == prevLeaf
      modifies this`leaves, this`last
      ensures leaves == FuseLeaves(old(leaves), prevLeaf, leaf, prevLeaf)
      ensures last == if old(last) == leaf then prevLeaf else old(last)
    {
      var ls := leaves;
      ls := ls[prevLeaf := ls[prevLeaf].(records := ls[prevLeaf].records + ls[leaf].records)];
      ls := ls[prevLeaf := ls[prevLeaf].(next := ls[leaf].next)];
      if ls[leaf].next != 0 {
        var nextLeaf := ls[leaf].next;
        ls := ls[nextLeaf := ls[nextLeaf].(prev := prevLeaf)];
      }
      if last == leaf {
        last := prevLeaf;
      }
      leaves := ls - {leaf};
    }

    /** Puts the records of `leaf` in front of those of the leaf after it, and deletes `leaf`. */
    method JoinNextLeaf(leaf: Addr, nextLeaf: Addr)
      requires Neighbours(leaves, span, leaf, nextLeaf, nextLeaf) && first in leaves && last in leaves
      requires leaves[leaf].prev != 0 ==> leaves[leaf].prev in leaves
      requires leaves[nextLeaf].next != 0 ==>
               leaves[nextLeaf].next in leaves && leaves[leaves[nextLeaf].next].prev == nextLeaf
      modifies this`leaves, this`first
      ensures leaves == FuseLeaves(old(leaves), leaf, nextLeaf, nextLeaf)
      ensures first == if old(first) == leaf then nextLeaf else old(first)
    {
      var ls := leaves;
      ls := ls[nextLeaf := ls[nextLeaf].(records := ls[leaf].records + ls[nextLeaf].records)];
      ls := ls[nextLeaf := ls[nextLeaf].(prev := ls[leaf].prev)];
      if ls[leaf].prev != 0 {
        var prevLeaf := ls[leaf].prev;
        ls := ls[prevLeaf := ls[prevLeaf].(next := nextLeaf)];
      }
      if first == leaf {
        first := nextLeaf;
      }
      leaves := ls - {leaf};
    }

    /** Iterators on a deleted leaf move to the leaf that took over its records. */
    method MoveIterators(leaf: Addr, kept: Addr)
      modifies this`iterators
      ensures iterators == Moved(old(iterators), leaf, kept)
    {
      var j := 0;
      while j < |iterators|
        invariant j <= |iterators| == |old(iterators)|
        invariant forall i :: j <= i < |iterators| ==> iterators[i] == old(iterators)[i]
        invariant forall i :: 0 <= i < j ==>
                    iterators[i] == if old(iterators)[i].leaf == leaf
                                    then old(iterators)[i].(leaf := kept) else old(iterators)[i]
      {
        if iterators[j].leaf == leaf {
          iterators := iterators[j := iterators[j].(leaf := kept)];
        }
        j := j + 1;
      }
    }

    /** The position of a child among the children of its parent. */
    method FindChild(node: Addr, child: Addr) returns (i: nat)
      requires IsChild(inners, node, child)
      ensures i <= |inners[node].links| && ChildAt(inners[node].heir, inners[node].links, i) == child
    {
      var n := inners[node];
      if n.heir == child {
        return 0;
      }
      ghost var w: nat :| w <= |n.links| && ChildAt(n.heir, n.links, w) == child;
      var linkIndex := 0;
      while linkIndex < |n.links| && n.links[linkIndex].child != child
        invariant linkIndex <= |n.links|
        invariant forall j :: 0 <= j < linkIndex ==> n.links[j].child != child
      {
        linkIndex := linkIndex + 1;
      }
      assert n.links[w - 1].child == child;
      i := linkIndex + 1;
    }

    /** Removes the link to a child that its left neighbour absorbed. */
    method JoinPrevLinkInInnerNode(node: Addr, child: Addr, ghost i: nat)
      requires node in inners && i < |inners[node].links| && inners[node].links[i].child == child
      requires forall j :: 0 <= j < i ==> inners[node].links[j].child != child
      modifies this`inners
      ensures inners == old(inners)[node := FusedParent(old(inners)[node], i, true)]
    {
      var links := inners[node].links;
      var it := 0;
      while it < |links| && links[it].child != child
        invariant 0 <= it <= i
        invariant forall j :: 0 <= j < it ==> links[j].child != child
        modifies {}
      {
        it := it + 1;
      }
      inners := inners[node := InnerNode(inners[node].heir, links[..it] + links[it + 1..])];
    }

    /** Lets the right neighbour of a child take over the child's place. */
    method JoinNextLinkInInnerNode(node: Addr, child: Addr, next: Addr, ghost i: nat)
      requires node in inners && i < |inners[node].links| && inners[node].links[i].child == next
      requires ChildAt(inners[node].heir, inners[node].links, i) == child
      requires forall j :: 0 <= j < i ==> ChildAt(inners[node].heir, inners[node].links, j) != child
      modifies this`inners
      ensures inners == old(inners)[node := FusedParent(old(inners)[node], i, false)]
    {
      var links := inners[node].links;
      if inners[node].heir == child {
        assert i == 0 by { assert ChildAt(inners[node].heir, inners[node].links, 0) == child; }
        inners := inners[node := InnerNode(next, links[1..])];
      } else {
        assert ChildAt(inners[node].heir, links, 0) != child;
        forall j | 0 <= j < i - 1
          ensures links[j].child != child
        {
          assert ChildAt(inners[node].heir, links, j + 1) != child;
        }
        var it := 0;
        while it < |links| && links[it].child != child
          invariant 0 <= it <= i - 1
          invariant forall j :: 0 <= j < it ==> links[j].child != child
          modifies {}
        {
          it := it + 1;
        }
        links := links[it := Link(links[it].key, next)];
        assert it == i - 1;
        it := it + 1;
        inners := inners[node := InnerNode(inners[node].heir, links[..it] + links[it + 1..])];
      }
    }

    /** Makes two neighbouring leaves under one parent a single leaf, living on at `kept`. */
    method FuseSiblingLeaves(pa: Addr, ghost i: nat, x: Addr, y: Addr, kept: Addr)
      requires Base() && TreeSide(inners, span, treeLevel, root)
      requires x in leaves && y in leaves && (kept == x || kept == y)
      requires Siblings(inners, span, pa, i, x, y)
      modifies this`leaves, this`inners, this`iterators, this`first, this`last, this`span
      ensures Base() && TreeBut(inners, span, treeLevel, root, pa)
      ensures LeafGone(old(leaves), old(span), leaves, span, if kept == x then y else x, kept)
      ensures SpansKept(old(span), span, if kept == x then y else x, kept)
      ensures pa in old(inners) && i < |old(inners)[pa].links|
      ensures inners == old(inners)[pa := FusedParent(old(inners)[pa], i, kept == x)]
      ensures SameKeys(old(iterators), iterators)
    {
      LeafFusion(leaves, inners, span, treeLevel, root, first, last, contents, iterators, pa, i, x, y, kept);
      FusePointers(pa, i, x, y, kept);
    }

    /** The pointer work of fusing two leaves. */
    method FusePointers(pa: Addr, ghost i: nat, x: Addr, y: Addr, kept: Addr)
      requires Neighbours(leaves, span, x, y, kept) && first in leaves && last in leaves
      requires leaves[y].next != 0 ==> leaves[y].next in leaves && leaves[leaves[y].next].prev == y
      requires leaves[x].prev != 0 ==> leaves[x].prev in leaves && leaves[leaves[x].prev].next == x
      requires pa in inners && i < |inners[pa].links| && inners[pa].links[i].child == y
      requires ChildAt(inners[pa].heir, inners[pa].links, i) == x
      requires forall j :: 0 <= j < i ==> inners[pa].links[j].child != y
      requires forall j :: 0 <= j < i ==> ChildAt(inners[pa].heir, inners[pa].links, j) != x
      modifies this`leaves, this`inners, this`iterators, this`first, this`last, this`span
      ensures leaves == FuseLeaves(old(leaves), x, y, kept)
      ensures span == FuseSpan(old(span), x, y, kept)
      ensures inners == old(inners)[pa := FusedParent(old(inners)[pa], i, kept == x)]
      ensures first == if old(first) == x then kept else old(first)
      ensures last == if old(last) == y then kept else old(last)
      ensures iterators == Moved(old(iterators), if kept == x then y else x, kept)
    {
      if kept == x {
        JoinPrevLeaf(x, y);
        JoinPrevLinkInInnerNode(pa, y, i);
        MoveIterators(y, x);
      } else {
        JoinNextLeaf(x, y);
        JoinNextLinkInInnerNode(pa, x, y, i);
        MoveIterators(x, y);
      }
      span := FuseSpan(span, x, y, kept);
    }

    /** Fuses a leaf with the smaller of its siblings. */
    method FuseLeafWithSibling(parentNode: Addr, leaf: Addr) returns (ghost kept: Addr, ghost i: nat)
      requires Base() && TreeSide(inners, span, treeLevel, root)
      requires leaf in leaves && IsChild(inners, parentNode, leaf)
      modifies this`leaves, this`inners, this`iterators, this`first, this`last, this`span
      ensures Base() && TreeBut(inners, span, treeLevel, root, parentNode)
      ensures LeafGone(old(leaves), old(span), leaves, span, leaf, kept) && SpansKept(old(span), span, leaf, kept)
      ensures old(inners).Keys == inners.Keys
      ensures forall m :: m in inners && m != parentNode ==> inners[m] == old(inners)[m]
      ensures SameKeys(old(iterators), iterators)
      ensures var n := old(inners)[parentNode];
              && i <= |n.links| && ChildAt(n.heir, n.links, i) == leaf
              && ((i > 0 && kept == ChildAt(n.heir, n.links, i - 1))
                  || (i < |n.links| && kept == ChildAt(n.heir, n.links, i + 1)))
              && (i > 0 ==> var c := ChildAt(n.heir, n.links, i - 1);
                    c in old(leaves) && |old(leaves)[kept].records| <= |old(leaves)[c].records|)
              && (i < |n.links| ==> var c := ChildAt(n.heir, n.links, i + 1);
                    c in old(leaves) && |old(leaves)[kept].records| <= |old(leaves)[c].records|)
    {
      var j, prevLeaf, nextLeaf := FindSiblings(parentNode, leaf);
      i := j;
      if prevLeaf != 0 && (nextLeaf == 0 || |leaves[prevLeaf].records| <= |leaves[nextLeaf].records|) {
        kept := prevLeaf;
        FuseSiblingLeaves(parentNode, j - 1, prevLeaf, leaf, prevLeaf);
      } else {
        kept := nextLeaf;
        FuseSiblingLeaves(parentNode, j, leaf, nextLeaf, nextLeaf);
      }
    }

    /** The leaves beside a leaf under its parent, 0 where there is none. */
    method FindSiblings(parentNode: Addr, leaf: Addr) returns (i: nat, prevLeaf: Addr, nextLeaf: Addr)
      requires Base() && TreeSide(inners, span, treeLevel, root)
      requires leaf in leaves && IsChild(inners, parentNode, leaf)
      ensures prevLeaf != 0 || nextLeaf != 0
      ensures i <= |inners[parentNode].links| && ChildAt(inners[parentNode].heir, inners[parentNode].links, i) == leaf
      ensures (prevLeaf == 0 <==> i == 0) && (nextLeaf == 0 <==> i == |inners[parentNode].links|)
      ensures prevLeaf != 0 ==> prevLeaf in leaves && i > 0 && Siblings(inners, span, parentNode, i - 1, prevLeaf, leaf)
      ensures nextLeaf != 0 ==> nextLeaf in leaves && Siblings(inners, span, parentNode, i, leaf, nextLeaf)
    {
      i := FindChild(parentNode, leaf);
      var n := inners[parentNode];
      assert InnerOK(inners, parentNode, span) && Occupied(inners, parentNode, root);
      prevLeaf, nextLeaf := 0, 0;
      if i > 0 {
        prevLeaf := ChildAt(n.heir, n.links, i - 1);
        ChildKinds(leaves, inners, span, treeLevel, parentNode, i, i - 1);
      }
      if i < |n.links| {
        nextLeaf := ChildAt(n.heir, n.links, i + 1);
        ChildKinds(leaves, inners, span, treeLevel, parentNode, i, i + 1);
      }
    }

    /** Makes two neighbouring inner nodes under one parent a single node, living on as the left one. */
    method FuseSiblingInners(pa: Addr, i: nat, x: Addr, y: Addr, ghost weak: Addr)
      requires Skeleton() && TreeBut(inners, span, treeLevel, root, weak)
      requires x in inners && y in inners && (weak == x || weak == y)
      requires Siblings(inners, span, pa, i, x, y)
      modifies this`inners, this`span
      ensures Skeleton() && TreeBut(inners, span, treeLevel, root, pa)
      ensures forall a :: a in leaves ==> span[a] == old(span)[a]
      ensures KeptAbove(old(inners), old(span), inners, span, weak, pa)
    {
      SiblingFacts(inners, span, pa, i, x, y);
      FirstLink(inners, span, pa, i, x, y);
      InnersFused(inners, span, treeLevel, root, weak, pa, i, x, y);
      FuseSeparate(span, x, y, x);
      FuseInnersIndexed(leaves, inners, span, treeLevel, pa, i, x, y);
      assert KeptAbove(inners, span, FuseInners(inners, pa, i, x, y), FuseSpan(span, x, y, x), weak, pa);
      InnerPointers(pa, i, x, y);
      span := FuseSpan(span, x, y, x);
    }

    /** The pointer work of fusing two inner nodes. */
    method InnerPointers(pa: Addr, i: nat, x: Addr, y: Addr)
      requires x in inners && y in inners && pa in inners && i < |inners[pa].links| && x != y && pa != x && pa != y
      requires inners[pa].links[i].child == y
      requires forall j :: 0 <= j < i ==> inners[pa].links[j].child != y
      modifies this`inners
      ensures inners == FuseInners(old(inners), pa, i, x, y)
    {
      var key := inners[pa].links[i].key;
      inners := inners[x := InnerNode(inners[x].heir, inners[x].links + [Link(key, inners[y].heir)] + inners[y].links)];
      JoinPrevLinkInInnerNode(pa, y, i);
      inners := inners - {y};
    }

    /** The pair of children to fuse: an inner node and the smaller of its siblings. */
    method ChooseSibling(parentNode: Addr, node: Addr) returns (i: nat, left: nat, x: Addr, y: Addr)
      requires Skeleton() && TreeBut(inners, span, treeLevel, root, node)
      requires node in inners && IsChild(inners, parentNode, node)
      ensures Siblings(inners, span, parentNode, left, x, y) && x in inners && y in inners && (node == x || node == y)
      ensures i <= |inners[parentNode].links| && ChildAt(inners[parentNode].heir, inners[parentNode].links, i) == node
      ensures left == i || left + 1 == i
      ensures 0 < i < |inners[parentNode].links| ==>
                var c := ChildAt(inners[parentNode].heir, inners[parentNode].links, i - 1);
                var d := ChildAt(inners[parentNode].heir, inners[parentNode].links, i + 1);
                && c in inners && d in inners
                && (left + 1 == i <==> |inners[c].links| <= |inners[d].links|)
    {
      i := FindChild(parentNode, node);
      var n := inners[parentNode];
      assert InnerOK(inners, parentNode, span);
      ParentOccupied(inners, span, treeLevel, root, node, parentNode, i);
      var prevNode, nextNode := 0, 0;
      if i > 0 {
        prevNode := ChildAt(n.heir, n.links, i - 1);
        ChildKinds(leaves, inners, span, treeLevel, parentNode, i, i - 1);
      }
      if i < |n.links| {
        nextNode := ChildAt(n.heir, n.links, i + 1);
        ChildKinds(leaves, inners, span, treeLevel, parentNode, i, i + 1);
      }
      if prevNode != 0 && (nextNode == 0 || |inners[prevNode].links| <= |inners[nextNode].links|) {
        left, x, y := i - 1, prevNode, node;
      } else {
        left, x, y := i, node, nextNode;
      }
    }

    /** Fuses an inner node with the smaller of its siblings. */
    method FuseInnerWithSibling(parentNode: Addr, node: Addr)
      requires Skeleton() && TreeBut(inners, span, treeLevel, root, node)
      requires node in inners && IsChild(inners, parentNode, node)
      modifies this`inners, this`span
      ensures Skeleton() && TreeBut(inners, span, treeLevel, root, parentNode)
      ensures forall a :: a in leaves ==> span[a] == old(span)[a]
      ensures KeptAbove(old(inners), old(span), inners, span, node, parentNode)
    {
      var i, left, x, y := ChooseSibling(parentNode, node);
      SiblingFacts(inners, span, parentNode, left, x, y);
      FuseSiblingInners(parentNode, left, x, y, node);
    }

    /** Deletes a root without links; its only child becomes the root. */
    method DropRoot()
      requires Skeleton() && TreeBut(inners, span, treeLevel, root, root) && root in inners && |inners[root].links| == 0
      modifies this`inners, this`span, this`root, this`treeLevel
      ensures Skeleton() && TreeSide(inners, span, treeLevel, root)
      ensures forall a :: a in leaves ==> span[a] == old(span)[a]
    {
      CollapseRoot(inners, span, treeLevel, root);
      var node := root;
      root := inners[node].heir;
      treeLevel := treeLevel - 1;
      inners := inners - {node};
      span := span - {node};
    }

    /** hist[n-1] is the only inner node that may have too few links, and hist[..n-1] leads to it. */
    ghost predicate Climbing(hist: seq<Addr>, n: nat)
      reads this
    {
      && 1 <= n <= |hist| && hist[n - 1] in inners && hist[n - 1] in span
      && span[hist[n - 1]].height == treeLevel - n
      && TreeBut(inners, span, treeLevel, root, hist[n - 1])
      && Path(hist, n - 1, hist[n - 1], root, treeLevel, inners, span)
    }

    /** Makes the lack of links at hist[n-1] a possible lack at its parent. */
    method ClimbOnce(hist: seq<Addr>, n: nat)
      requires Skeleton() && Climbing(hist, n) && n >= 2
      modifies this`inners, this`span
      ensures Skeleton() && Climbing(hist, n - 1)
      ensures forall a :: a in leaves ==> span[a] == old(span)[a]
    {
      ghost var inners0, span0 := inners, span;
      FuseInnerWithSibling(hist[n - 2], hist[n - 1]);
      KeptPath(hist, n - 1, root, treeLevel, inners0, span0, inners, span, hist[n - 1]);
      PathAbove(hist, n - 1, hist[n - 1], root, treeLevel, inners0, span0, inners, span);
    }

    /** Repairs the occupancy of inner nodes from the last node of a path upwards. */
    method MergeUpwards(hist: seq<Addr>)
      requires Skeleton() && Climbing(hist, |hist|)
      modifies this`inners, this`span, this`root, this`treeLevel
      ensures Skeleton() && TreeSide(inners, span, treeLevel, root)
      ensures forall a :: a in leaves ==> span[a] == old(span)[a]
    {
      var histSize: nat := |hist|;
      while |inners[hist[histSize - 1]].links| < MAX_INNER_NODE_BRANCHES / 2
        invariant Skeleton() && Climbing(hist, histSize)
        invariant forall a :: a in leaves ==> span[a] == old(span)[a]
        decreases histSize
      {
        histSize := histSize - 1;
        if histSize == 0 {
          FinishAtRoot();
          return;
        }
        ClimbOnce(hist, histSize + 1);
      }
      NothingWeak(inners, span, treeLevel, root, hist[histSize - 1]);
    }

    /** At the root, a lack of links only matters when there is none left. */
    method FinishAtRoot()
      requires Skeleton() && TreeBut(inners, span, treeLevel, root, root) && root in inners
      modifies this`inners, this`span, this`root, this`treeLevel
      ensures Skeleton() && TreeSide(inners, span, treeLevel, root)
      ensures forall a :: a in leaves ==> span[a] == old(span)[a]
    {
      if |inners[root].links| == 0 {
        DropRoot();
      }
    }

    /** Fuses an underfull leaf with a sibling, then inner nodes upwards as far as needed. */
    method MergeNodes(leaf: Addr, key: Key) returns (ghost kept: Addr)
      requires Valid() && leaf in leaves && InSpan(key, span[leaf]) && leaf != root
      modifies this`leaves, this`inners, this`iterators, this`treeLevel, this`root, this`first, this`last, this`span
      ensures Valid()
      ensures LeafGone(old(leaves), old(span), leaves, span, leaf, kept)
      ensures SameKeys(old(iterators), iterators)
    {
      var hist, bottom := TraceTree(key);
      SameNode(span, leaf, bottom, key);
      kept := FuseAtPath(hist, leaf);
      ghost var span1 := span;
      MergeUpwards(hist);
      LeafSideFrame(leaves, span1, span, first, last, contents, iterators);
    }

    /** Fuses the leaf at the end of a path with a sibling. */
    method FuseAtPath(hist: seq<Addr>, leaf: Addr) returns (ghost kept: Addr)
      requires Base() && TreeSide(inners, span, treeLevel, root) && leaf in leaves && leaf != root
      requires |hist| == treeLevel - 1 && Path(hist, |hist|, leaf, root, treeLevel, inners, span)
      modifies this`leaves, this`inners, this`iterators, this`first, this`last, this`span
      ensures Base() && Climbing(hist, |hist|)
      ensures LeafGone(old(leaves), old(span), leaves, span, leaf, kept)
      ensures SameKeys(old(iterators), iterators)
    {
      var parentNode := hist[|hist| - 1];
      ghost var leaves0, span0, inners0 := leaves, span, inners;
      ghost var i;
      kept, i := FuseLeafWithSibling(parentNode, leaf);
      forall j | 0 <= j < |hist| - 1
        ensures hist[j] != parentNode
      {
        assert span0[hist[j]].height != span0[parentNode].height;
      }
      PathAbove(hist, |hist|, leaf, root, treeLevel, inners0, span0, inners, span);
    }

    // -------------------------------------------------------------- reorganising

    /** The tree is valid, and so is every entry of the queue. */
    ghost predicate Consistent()
      reads this
    {
      && Valid()
      && QueueOK(reorg, {}, leaves, span)
      && LeavesTidy(reorg, {}, leaves, root)
    }

    predicate CheckLeafNodeToDivide(leaf: Addr)
      requires leaf in leaves
      reads this
    {
      |leaves[leaf].records| > MAX_LEAF_NODE_RECORDS
    }

    predicate CheckLeafNodeToMerge(leaf: Addr)
      requires leaf in leaves
      reads this
    {
      |leaves[leaf].records| < MAX_LEAF_NODE_RECORDS / 2 && leaf != root
    }

    /** Works off the queue: afterwards every leaf below the root is at least half full. */
    method ReorganizeTree()
      requires Consistent()
      modifies this`leaves, this`inners, this`iterators, this`treeLevel, this`root, this`first, this`last, this`span,
               this`reorg
      ensures Consistent() && reorg == {}
      ensures forall a :: a in leaves && a != root ==> |leaves[a].records| >= MAX_LEAF_NODE_RECORDS / 2
      ensures forall n :: n in inners ==> |inners[n].links| >= if n == root then 1 else MAX_INNER_NODE_BRANCHES / 2
      ensures SameKeys(old(iterators), iterators)
      ensures old(LeavesFit(reorg, {}, leaves, root)) ==>
                forall a :: a in leaves ==> |leaves[a].records| <= MAX_LEAF_NODE_RECORDS
    {
      ghost var fit := LeavesFit(reorg, {}, leaves, root);
      var doneNodes := {};
      while reorg != {}
        invariant Valid() && SameKeys(old(iterators), iterators)
        invariant QueueOK(reorg, doneNodes, leaves, span) && LeavesTidy(reorg, doneNodes, leaves, root)
        invariant fit ==> LeavesFit(reorg, doneNodes, leaves, root)
        decreases |reorg|
      {
        var nodeKey :| nodeKey in reorg;
        ghost var reorg0 := reorg;
        reorg := reorg - {nodeKey};
        if fit { PopFits(reorg0, nodeKey, doneNodes, leaves, root); }
        if nodeKey.0 !in doneNodes {
          PopKeeps(reorg0, nodeKey, doneNodes, leaves, root);
          doneNodes := doneNodes + {nodeKey.0};
          ghost var _ := Reorganize(nodeKey.0, nodeKey.1, doneNodes);
        } else {
          PopStale(reorg0, nodeKey, doneNodes, leaves, root);
        }
      }
      forall a | a in leaves && a != root
        ensures |leaves[a].records| >= MAX_LEAF_NODE_RECORDS / 2
      {
        assert !Queued(reorg, a);
      }
      if fit { EmptyFits(doneNodes, leaves, root); }
      forall n | n in inners
        ensures |inners[n].links| >= if n == root then 1 else MAX_INNER_NODE_BRANCHES / 2
      {
        assert Occupied(inners, n, root);
      }
    }

    /** Divides or merges one leaf, if it needs it. */
    method Reorganize(leaf: Addr, key: Key, ghost done: set<Addr>) returns (ghost other: Addr)
      requires Valid() && leaf in leaves && InSpan(key, span[leaf]) && leaf in done
      requires QueueOK(reorg, done, leaves, span)
      requires TidyBut(reorg, done, leaves, root, leaf)
      modifies this`leaves, this`inners, this`iterators, this`treeLevel, this`root, this`first, this`last, this`span
      ensures Valid() && SameKeys(old(iterators), iterators)
      ensures QueueOK(reorg, done, leaves, span) && LeavesTidy(reorg, done, leaves, root)
      ensures var records := old(leaves)[leaf].records;
              if |records| > MAX_LEAF_NODE_RECORDS then
                && leaves.Keys == old(leaves).Keys + {other} && other !in old(leaves)
                && leaves[leaf].records == records[..|records| / 2] && leaves[other].records == records[|records| / 2..]
              else if |records| < MAX_LEAF_NODE_RECORDS / 2 && leaf != old(root) then
                && leaves.Keys == old(leaves).Keys - {leaf} && other in leaves
                && |leaves[other].records| == |records| + |old(leaves)[other].records|
              else leaves == old(leaves) && other == leaf
      ensures forall a :: a in leaves && a != leaf && a != other ==> leaves[a].records == old(leaves)[a].records
      ensures LeavesFitBut(reorg, done, old(leaves), old(root), leaf) ==> LeavesFit(reorg, done, leaves, root)
    {
      other := leaf;
      ghost var leaves0, span0, root0 := leaves, span, root;
      if CheckLeafNodeToDivide(leaf) {
        NoSelfNext(leaves, span, first, last, contents, leaf);
        if root in leaves { RootLeafAlone(leaves, inners, span, treeLevel, root, leaf); }
        other := DivideNodes(leaf, key);
        DivideKeeps(reorg, done, leaves0, span0, leaves, span, old(root), root, leaf, other);
        CutIs(leaves0, leaf, other, leaves);
        DivideFits(reorg, done, leaves0, leaves, root0, root, leaf, other);
      } else if CheckLeafNodeToMerge(leaf) {
        RootIsNoOtherLeaf(leaves, inners, span, treeLevel, root, leaf);
        other := MergeNodes(leaf, key);
        MergeKeeps(reorg, done, leaves0, span0, leaves, span, old(root), root, leaf, other);
      } else {
        LeftAloneTidy(reorg, done, leaves, root, leaf);
        LeftAloneFits(reorg, done, leaves, root, leaf);
      }
    }

    // -------------------------------------------------------------- updating

    /** Gives a leaf new records and, if it asks for reorganisation, queues it under its first key. */
    method StoreRecords(leaf: Addr, records: seq<Record>, enqueue: bool, delta: int, ghost contents': map<Key, Value>)
      requires Consistent() && leaf in leaves
      requires LeafOK(records, span[leaf]) && Stored(records, contents') && Covers(records, contents', span[leaf])
      requires SameOutside(contents, contents', span[leaf])
      requires enqueue ==> |records| > 0
      requires delta == |contents'| - |contents|
      requires |records| >= |leaves[leaf].records| || leaf == root || |records| >= MAX_LEAF_NODE_RECORDS / 2 || enqueue
      modifies this`leaves, this`numRecords, this`contents, this`reorg
      ensures Consistent() && contents == contents'
      ensures leaves == old(leaves)[leaf := old(leaves)[leaf].(records := records)]
      ensures reorg == if enqueue then old(reorg) + {(leaf, records[0].key)} else old(reorg)
    {
      EditKeeps(leaves, inners, span, treeLevel, root, first, last, contents, iterators, reorg,
                if enqueue then reorg + {(leaf, records[0].key)} else reorg, leaf, records, contents');
      leaves := leaves[leaf := leaves[leaf].(records := records)];
      numRecords := numRecords + delta;
      if enqueue {
        reorg := reorg + {(leaf, records[0].key)};
      }
      contents := contents';
    }

    /** Where a key is, or would be, among the records of its leaf. */
    method Locate(leaf: Addr, key: Key) returns (it: nat, hit: bool)
      requires Consistent() && leaf in leaves && InSpan(key, span[leaf])
      ensures it <= |leaves[leaf].records| && SortedRecords(leaves[leaf].records)
      ensures it == LowerBound(leaves[leaf].records, key)
      ensures hit == (key in contents)
      ensures hit ==> it < |leaves[leaf].records| && leaves[leaf].records[it] == Record(key, contents[key])
    {
      var records := leaves[leaf].records;
      LookupInLeaf(leaves, span, first, last, contents, leaf, key);
      it := LowerBound(records, key);
      hit := it < |records| && !(key < records[it].key);
    }

    method EraseAt(leaf: Addr, it: nat, ghost key: Key)
      requires Consistent() && leaf in leaves && InSpan(key, span[leaf])
      requires it < |leaves[leaf].records| && leaves[leaf].records[it].key == key && key in contents
      requires leaf != root ==> |leaves[leaf].records| >= 2
      modifies this`leaves, this`numRecords, this`contents, this`reorg
      ensures Consistent() && contents == old(contents) - {key} && leaves.Keys == old(leaves).Keys
      ensures leaf == root ==> reorg == old(reorg)
    {
      var records := leaves[leaf].records;
      LookupInLeaf(leaves, span, first, last, contents, leaf, key);
      EraseRecord(records, span[leaf], contents, it);
      EraseCount(contents, key);
      var rs := Without(records, it);
      StoreRecords(leaf, rs, |rs| < MAX_LEAF_NODE_RECORDS / 2 && leaf != root, -1, contents - {key});
    }

    method ReplaceAt(leaf: Addr, it: nat, key: Key, value: Value)
      requires Consistent() && leaf in leaves && InSpan(key, span[leaf])
      requires it < |leaves[leaf].records| && leaves[leaf].records[it].key == key && key in contents
      modifies this`leaves, this`numRecords, this`contents, this`reorg
      ensures Consistent() && contents == old(contents)[key := value] && leaves.Keys == old(leaves).Keys
      ensures reorg == old(reorg)
      ensures old(NoneOver(leaves, root)) ==> LeavesFit(reorg, {}, leaves, root)
    {
      var records := leaves[leaf].records;
      LookupInLeaf(leaves, span, first, last, contents, leaf, key);
      ReplaceRecord(records, span[leaf], contents, it, value);
      StoredFits(leaves, root, leaf, records[it := Record(key, value)], reorg);
      StoreRecords(leaf, records[it := Record(key, value)], false, 0, contents[key := value]);
    }

    method InsertAt(leaf: Addr, it: nat, key: Key, value: Value)
      requires Consistent() && leaf in leaves && InSpan(key, span[leaf]) && SortedRecords(leaves[leaf].records)
      requires it == LowerBound(leaves[leaf].records, key) && key !in contents
      modifies this`leaves, this`numRecords, this`contents, this`reorg
      ensures Consistent() && contents == old(contents)[key := value] && leaves.Keys == old(leaves).Keys
      ensures |old(leaves)[leaf].records| < MAX_LEAF_NODE_RECORDS ==> reorg == old(reorg)
      ensures old(NoneOver(leaves, root)) ==> LeavesFit(reorg, {}, leaves, root)
    {
      var records := leaves[leaf].records;
      LookupInLeaf(leaves, span, first, last, contents, leaf, key);
      InsertRecord(records, span[leaf], contents, key, value);
      var rs := Inserted(records, it, Record(key, value));
      StoredFits(leaves, root, leaf, rs,
                 if |rs| > MAX_LEAF_NODE_RECORDS then reorg + {(leaf, rs[0].key)} else reorg);
      StoreRecords(leaf, rs, |rs| > MAX_LEAF_NODE_RECORDS, 1, contents[key := value]);
    }

    method ProcessImpl(leaf: Addr, key: Key, proc: Processor<Key, Value>, writable: bool) returns (told: Option<Value>)
      requires Consistent() && leaf in leaves && InSpan(key, span[leaf])
      requires writable && leaf != root ==> |leaves[leaf].records| >= 2
      modifies this`leaves, this`numRecords, this`contents, this`reorg
      ensures Consistent() && contents == Processed(old(contents), key, proc, writable)
      ensures told == if key in old(contents) then Some(old(contents)[key]) else None
      ensures !writable ==> contents == old(contents)
      ensures writable && told.Some? ==>
                contents == match proc.full(key, told.value)
                            case Noop => old(contents)
                            case Remove => old(contents) - {key}
                            case Set(v) => old(contents)[key := v]
      ensures writable && told.None? ==>
                contents == match proc.empty(key)
                            case Set(v) => old(contents)[key := v]
                            case _ => old(contents)
      ensures leaves.Keys == old(leaves).Keys
      ensures leaf == root && |old(leaves)[leaf].records| < MAX_LEAF_NODE_RECORDS ==> reorg == old(reorg)
      ensures !writable ==> leaves == old(leaves) && reorg == old(reorg)
      ensures old(NoneOver(leaves, root)) && |contents| >= |old(contents)| ==> LeavesFit(reorg, {}, leaves, root)
    {
      var it, hit := Locate(leaf, key);
      if old(NoneOver(leaves, root)) { NoneOverFits(leaves, root, reorg); }
      told := None;
      if hit {
        told := Some(leaves[leaf].records[it].value);
        match proc.full(key, leaves[leaf].records[it].value)
        case Noop =>
        case Remove => if writable { EraseAt(leaf, it, key); }
        case Set(value) => if writable { ReplaceAt(leaf, it, key, value); }
      } else {
        match proc.empty(key)
        case Noop =>
        case Remove =>
        case Set(value) => if writable { InsertAt(leaf, it, key, value); }
      }
    }

    method AppendImpl(leaf: Addr, key: Key, value: Value, delim: Value)
      requires Consistent() && leaf in leaves && InSpan(key, span[leaf])
      modifies this`leaves, this`numRecords, this`contents, this`reorg
      ensures Consistent() && contents == Appended(old(contents), key, value, delim)
      ensures key in contents && contents - {key} == old(contents) - {key}
      ensures key !in old(contents) ==> contents[key] == value
      ensures key in old(contents) ==>
                var was := old(contents)[key];
                was <= contents[key] && contents[key][|was|..] == delim + value
      ensures old(NoneOver(leaves, root)) ==> LeavesFit(reorg, {}, leaves, root)
    {
      var it, hit := Locate(leaf, key);
      if hit {
        ReplaceAt(leaf, it, key, leaves[leaf].records[it].value + delim + value);
      } else {
        InsertAt(leaf, it, key, value);
      }
    }

    /** After reorganising, every leaf an update may shrink has records to spare. */
    method ReorganizeIfQueued()
      requires Consistent()
      modifies this`leaves, this`inners, this`iterators, this`treeLevel, this`root, this`first, this`last, this`span,
               this`reorg
      ensures Consistent() && reorg == {} && SameKeys(old(iterators), iterators)
      ensures forall a :: a in leaves && a != root ==> |leaves[a].records| >= MAX_LEAF_NODE_RECORDS / 2
      ensures old(reorg) == {} ==> treeLevel == old(treeLevel)
      ensures old(LeavesFit(reorg, {}, leaves, root)) ==> NoneOver(leaves, root)
    {
      if reorg == {} && LeavesFit(reorg, {}, leaves, root) { EmptyFits({}, leaves, root); }
      if reorg != {} {
        ReorganizeTree();
      }
      forall a | a in leaves && a != root
        ensures |leaves[a].records| >= MAX_LEAF_NODE_RECORDS / 2
      {
        assert !Queued(reorg, a);
      }
    }

    /** The root is a leaf, and nothing waits to be reorganised. */
    ghost predicate IsLeaf()
      reads this
    {
      treeLevel == 1 && reorg == {}
    }

    /** Then it is the only leaf, and has no more records than there are. */
    lemma OnlyLeaf(leaf: Addr)
      requires Consistent() && treeLevel == 1 && leaf in leaves
      ensures leaf == root && |leaves[leaf].records| <= |contents|
    {
      RootLeafAlone(leaves, inners, span, treeLevel, root, leaf);
      RecordsStored(leaves, span, first, last, contents, leaf);
    }

    /** Nor has it to be divided. */
    lemma LeafFitsAlone()
      requires Consistent() && IsLeaf() && |contents| <= MAX_LEAF_NODE_RECORDS
      ensures LeavesFit(reorg, {}, leaves, root)
    {
      forall a | a in leaves
        ensures LeafFits(reorg, {}, leaves, root, a)
      {
        OnlyLeaf(a);
      }
    }

    method FindLeaf(key: Key) returns (leaf: Addr)
      requires Consistent()
      ensures leaf in leaves && InSpan(key, span[leaf])
      ensures treeLevel == 1 ==> leaf == root && |leaves[leaf].records| <= |contents|
    {
      leaf := SearchTree(key);
      if treeLevel == 1 { OnlyLeaf(leaf); }
    }

    method Process(key: Key, proc: Processor<Key, Value>, writable: bool) returns (told: Option<Value>)
      requires Consistent()
      modifies this
      ensures Consistent() && contents == Processed(old(contents), key, proc, writable)
      ensures numRecords == |contents|
      ensures told == if key in old(contents) then Some(old(contents)[key]) else None
      ensures !writable ==> contents == old(contents)
      ensures writable && told.Some? ==>
                contents == match proc.full(key, told.value)
                            case Noop => old(contents)
                            case Remove => old(contents) - {key}
                            case Set(v) => old(contents)[key := v]
      ensures writable && told.None? ==>
                contents == match proc.empty(key)
                            case Set(v) => old(contents)[key := v]
                            case _ => old(contents)
      ensures SameKeys(old(iterators), iterators)
      ensures old(IsLeaf()) && |old(contents)| < MAX_LEAF_NODE_RECORDS ==> IsLeaf()
      ensures old(LeavesFit(reorg, {}, leaves, root)) && |contents| >= |old(contents)| ==>
                LeavesFit(reorg, {}, leaves, root)
    {
      if writable {
        ReorganizeIfQueued();
      }
      var leaf := FindLeaf(key);
      told := ProcessImpl(leaf, key, proc, writable);
    }

    method Append(key: Key, value: Value, delim: Value)
      requires Consistent()
      modifies this
      ensures Consistent() && contents == Appended(old(contents), key, value, delim)
      ensures numRecords == |contents|
      ensures key in contents && contents - {key} == old(contents) - {key}
      ensures key !in old(contents) ==> contents[key] == value
      ensures key in old(contents) ==>
                var was := old(contents)[key];
                was <= contents[key] && contents[key][|was|..] == delim + value
      ensures SameKeys(old(iterators), iterators)
      ensures old(LeavesFit(reorg, {}, leaves, root)) ==> LeavesFit(reorg, {}, leaves, root)
    {
      ReorganizeIfQueued();
      var leaf := SearchTree(key);
      AppendImpl(leaf, key, value, delim);
    }
  }
}
