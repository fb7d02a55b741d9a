/**
 The pool of free blocks of a hash database updated in place: a set ordered by size and then offset,
 which keeps the larger blocks when it is full and hands out the smallest one that is large enough.
 */
module FreeBlocks {
  import opened Basics
  import opened HashFormat

  datatype FreeBlock = FreeBlock(offset: Offset, size: int)

  predicate Before(a: FreeBlock, b: FreeBlock) {
    if a.size != b.size then a.size < b.size else a.offset < b.offset
  }

  ghost predicate Sorted(s: seq<FreeBlock>) {
    forall i, j :: 0 <= i < j < |s| ==> Before(s[i], s[j])
  }

  /** The smallest block that is at least `min` bytes long. */
  ghost predicate BestFit(blocks: set<FreeBlock>, min: int, b: FreeBlock) {
    b in blocks && b.size >= min && forall x :: x in blocks && x.size >= min ==> x == b || Before(b, x)
  }

  ghost predicate Smallest(blocks: set<FreeBlock>, b: FreeBlock) {
    b in blocks && forall x :: x in blocks ==> x == b || Before(b, x)
  }

  class FreeBlockPool {
    var capacity: nat
    var data: seq<FreeBlock>

    ghost predicate Valid()
      reads this
    {
      Sorted(data) && 1 <= capacity && |data| <= capacity
    }

    ghost function Blocks(): set<FreeBlock>
      reads this
    {
      set b | b in data
    }

    constructor (capacity: nat)
      requires capacity >= 1
      ensures Valid() && Blocks() == {} && this.capacity == capacity
    {
      this.capacity := capacity;
      data := [];
    }

    /** The place of the first block that is not before `b`. */
    method LowerBound(b: FreeBlock) returns (i: nat)
      requires Valid()
      ensures i <= |data|
      ensures forall j :: 0 <= j < i ==> Before(data[j], b)
      ensures forall j :: i <= j < |data| ==> data[j] == b || Before(b, data[j])
    {
      i := 0;
      while i < |data| && Before(data[i], b)
        invariant 0 <= i <= |data|
        invariant forall j :: 0 <= j < i ==> Before(data[j], b)
      {
        i := i + 1;
      }
      forall j | i <= j < |data| ensures data[j] == b || Before(b, data[j]) {
        assert j > i ==> Before(data[i], data[j]);
      }
    }

    method Emplace(b: FreeBlock)
      requires Sorted(data) && 1 <= capacity && |data| < capacity
      modifies this`data
      ensures Valid() && Blocks() == old(Blocks()) + {b}
    {
      var i := LowerBound(b);
      if i == |data| || data[i] != b {
        data := data[..i] + [b] + data[i..];
      }
      assert b == data[i];
      forall x ensures x in data <==> x in old(data) || x == b {
        if x in old(data) {
          var j :| 0 <= j < |old(data)| && old(data)[j] == x;
          assert data[j] == x || data[if j + 1 < |data| then j + 1 else j] == x;
        }
      }
    }

    /** A full pool drops its smallest block, unless the new one is no larger than that. */
    method InsertFreeBlock(offset: Offset, size: int)
      requires Valid()
      modifies this`data
      ensures Valid()
      ensures |old(data)| < capacity ==> Blocks() == old(Blocks()) + {FreeBlock(offset, size)}
      ensures |old(data)| >= capacity ==>
                exists b :: Smallest(old(Blocks()), b) &&
                  Blocks() == if size <= b.size then old(Blocks()) else old(Blocks()) - {b} + {FreeBlock(offset, size)}
      ensures |old(data)| >= capacity ==>
                exists b :: b in old(Blocks()) && (forall x :: x in old(Blocks()) ==> b.size <= x.size) &&
                  Blocks() == if size <= b.size then old(Blocks()) else old(Blocks()) - {b} + {FreeBlock(offset, size)}
    {
      if |data| >= capacity {
        var b := data[0];
        assert b in data;
        forall x | x in data ensures x == b || Before(b, x) {
          var j :| 0 <= j < |data| && data[j] == x;
        }
        assert Smallest(Blocks(), b) && forall x :: x in Blocks() ==> b.size <= x.size;
        if size <= b.size {
          return;
        }
        RemoveAt(0);
      }
      Emplace(FreeBlock(offset, size));
    }

    method RemoveAt(i: nat)
      requires Valid() && i < |data|
      modifies this`data
      ensures Valid() && Blocks() == old(Blocks()) - {old(data)[i]} && |data| == |old(data)| - 1
    {
      ghost var b := data[i];
      data := data[..i] + data[i + 1..];
      forall x ensures x in data <==> x in old(data) && x != b {
        if x in old(data) && x != b {
          var j :| 0 <= j < |old(data)| && old(data)[j] == x;
          assert data[if j < i then j else j - 1] == x;
        }
        if x in data {
          var j :| 0 <= j < |data| && data[j] == x;
          assert Before(old(data)[if j < i then j else i], old(data)[if j < i then i else j + 1]);
        }
      }
    }

    method FetchFreeBlock(minSize: int) returns (res: Option<FreeBlock>)
      requires Valid() && forall b :: b in Blocks() ==> b.offset >= 0
      modifies this`data
      ensures Valid()
      ensures res.Some? ==> BestFit(old(Blocks()), minSize, res.value) && Blocks() == old(Blocks()) - {res.value}
      ensures res.Some? ==>
                && res.value in old(Blocks()) && res.value.size >= minSize
                && forall x :: x in old(Blocks()) && x.size >= minSize ==>
                     res.value.size < x.size || (res.value.size == x.size && res.value.offset <= x.offset)
      ensures res.None? ==> Blocks() == old(Blocks()) && forall b :: b in Blocks() ==> b.size < minSize
    {
      var i := LowerBound(FreeBlock(0, minSize));
      forall j | 0 <= j < i ensures data[j].size < minSize { assert data[j] in Blocks(); }
      if i == |data| {
        return None;
      }
      res := Some(data[i]);
      forall x | x in Blocks() && x.size >= minSize ensures x == data[i] || Before(data[i], x) {
        var j :| 0 <= j < |data| && data[j] == x;
      }
      assert data[i] in Blocks();
      RemoveAt(i);
    }
  }
}
