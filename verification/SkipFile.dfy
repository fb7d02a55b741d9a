/**
 The file of a static skip list: records one after the other, each with one slot per level for the
 offset of the record a span ahead, and the writer that fills those slots in as records come.

 `m` is the number after `i` wherever both occur: contracts name it, so that what one step ensures
 is literally what the next one requires.
 */
module SkipFile {
  import opened Multiples
  import opened SkipLevels
  import opened HashFormat

  /** A record as stored: its slots, key and value. */
  datatype Stored = Stored(slots: seq<Offset>, key: Key, value: Value)

  datatype Pair = Pair(key: Key, value: Value)

  type Records = map<Offset, Stored>

  function SlotBytes(width: nat, level: nat): nat {
    if level == 0 then 0 else width + SlotBytes(width, level - 1)
  }

  function HeaderSize(width: nat, level: nat, keySize: nat, valueSize: nat): (n: nat)
    ensures n > 0
  {
    1 + SlotBytes(width, level) + SizeVarNum(keySize) + SizeVarNum(valueSize)
  }

  function RecordSize(width: nat, r: Stored): (n: nat)
    ensures n > 0
  {
    HeaderSize(width, |r.slots|, |r.key|, |r.value|) + |r.key| + |r.value|
  }

  /** The i-th record is where the one before ends, and has the slots of its level. */
  ghost predicate PlaceOK(order: seq<Offset>, records: Records, size: Offset, width: nat, step: nat, max: nat, i: nat,
                          m: nat)
    requires i < |order| && m == i + 1 && step >= 2
  {
    && order[i] in records && |records[order[i]].slots| == Level(i, step, max)
    && order[i] + RecordSize(width, records[order[i]]) == Edge(order, size, m)
  }

  ghost predicate Laid(order: seq<Offset>, records: Records, base: Offset, size: Offset, width: nat, step: nat,
                       max: nat)
    requires step >= 2
  {
    && base > 0 && base == Edge(order, size, 0)
    && (forall i, m {:trigger PlaceOK(order, records, size, width, step, max, i, m)} ::
          0 <= i < |order| && m == i + 1 ==> PlaceOK(order, records, size, width, step, max, i, m))
    && (forall o :: o in records <==> o in order)
  }

  lemma LaidHas(order: seq<Offset>, records: Records, base: Offset, size: Offset, width: nat, step: nat, max: nat)
    requires step >= 2 && Laid(order, records, base, size, width, step, max)
    ensures forall i :: 0 <= i < |order| ==> order[i] in records
  {
    LaidIn(order, records, base, size, width, step, max);
  }

  lemma LaidIn(order: seq<Offset>, records: Records, base: Offset, size: Offset, width: nat, step: nat, max: nat)
    requires step >= 2 && Laid(order, records, base, size, width, step, max)
    ensures forall i :: 0 <= i < |order| ==> order[i] in records && |records[order[i]].slots| == Level(i, step, max)
    ensures base == Edge(order, size, 0)
  {
    forall i | 0 <= i < |order| ensures order[i] in records && |records[order[i]].slots| == Level(i, step, max) {
      assert PlaceOK(order, records, size, width, step, max, i, i + 1);
    }
  }

  lemma {:induction false} LaidAscends(order: seq<Offset>, records: Records, base: Offset, size: Offset,
                                       width: nat, step: nat, max: nat, i: nat, j: nat)
    requires step >= 2 && Laid(order, records, base, size, width, step, max) && i < j <= |order|
    ensures 0 < Edge(order, size, i) < Edge(order, size, j)
    decreases i + j
  {
    assert PlaceOK(order, records, size, width, step, max, j - 1, j);
    if i + 1 < j {
      LaidAscends(order, records, base, size, width, step, max, i, j - 1);
    } else if i > 0 {
      LaidAscends(order, records, base, size, width, step, max, i - 1, i);
    }
  }

  /** Slot `i` of the record at index `p`, in a file of `n` records: the one a span ahead, or 0 if there is none yet. */
  ghost predicate SlotOK(order: seq<Offset>, records: Records, step: nat, p: nat, i: nat, n: nat)
    requires step >= 2 && n <= |order| && p < |order|
  {
    order[p] in records && i < |records[order[p]].slots| &&
    records[order[p]].slots[i] == if p + Span(step, i + 1) < n then order[p + Span(step, i + 1)] else 0
  }

  /** Every slot below level `k` knows of `n` records, every other one of all but the last of them. */
  ghost predicate Linked(order: seq<Offset>, records: Records, step: nat, max: nat, n: nat, k: nat)
    requires step >= 2 && n == |order|
  {
    forall p, i, m {:trigger SlotOK(order, records, step, p, i, m)} ::
      0 <= p < n && 0 <= i < Level(p, step, max) && (m == if i < k || p == n - 1 then n else n - 1) ==>
        SlotOK(order, records, step, p, i, m)
  }

  // ---------------------------------------------------------------- a record more

  lemma LaidAppend(order: seq<Offset>, records: Records, base: Offset, size: Offset, width: nat, step: nat, max: nat,
                   r: Stored,
                   order': seq<Offset>, records': Records, size': Offset)
    requires step >= 2 && Laid(order, records, base, size, width, step, max) && |r.slots| == Level(|order|, step, max)
    requires order' == order + [size] && records' == records[size := r] && size' == size + RecordSize(width, r)
    ensures size !in records && size > 0
    ensures Laid(order', records', base, size', width, step, max)
  {
    var n := |order|;
    forall i | 0 <= i < n ensures order[i] < size {
      LaidAscends(order, records, base, size, width, step, max, i, n);
    }
    assert size !in order;
    forall i, m {:trigger PlaceOK(order', records', size', width, step, max, i, m)} | 0 <= i < |order'| && m == i + 1
      ensures PlaceOK(order', records', size', width, step, max, i, m)
    {
      if i < n { assert PlaceOK(order, records, size, width, step, max, i, m); }
    }
  }

  /** Filling in a slot moves nothing. */
  lemma LaidSlot(order: seq<Offset>, records: Records, base: Offset, size: Offset, width: nat, step: nat, max: nat,
                 o: Offset, i: nat, v: Offset)
    requires step >= 2 && Laid(order, records, base, size, width, step, max) && o in records && i < |records[o].slots|
    ensures Laid(order, records[o := WithSlot(records[o], i, v)], base, size, width, step, max)
  {
    var records' := records[o := WithSlot(records[o], i, v)];
    forall i, m {:trigger PlaceOK(order, records', size, width, step, max, i, m)} | 0 <= i < |order| && m == i + 1
      ensures PlaceOK(order, records', size, width, step, max, i, m)
    {
      assert PlaceOK(order, records, size, width, step, max, i, m);
    }
  }

  function WithSlot(r: Stored, i: nat, v: Offset): Stored
    requires i < |r.slots|
  {
    r.(slots := r.slots[i := v])
  }

  /** The new record's slots are empty, and no older slot knows of it. */
  lemma LinkAppended(order: seq<Offset>, records: Records, step: nat, max: nat, size: Offset, r: Stored,
                     order': seq<Offset>, records': Records)
    requires step >= 2 && Linked(order, records, step, max, |order|, max) && size !in records
    requires |r.slots| == Level(|order|, step, max) && forall i :: 0 <= i < |r.slots| ==> r.slots[i] == 0
    requires forall i :: 0 <= i < |order| ==> order[i] in records
    requires order' == order + [size] && records' == records[size := r]
    ensures Linked(order', records', step, max, |order'|, 0)
  {
    var n := |order'|;
    forall p, i, m {:trigger SlotOK(order', records', step, p, i, m)} |
      0 <= p < n && 0 <= i < Level(p, step, max) && (m == if i < 0 || p == n - 1 then n else n - 1)
      ensures SlotOK(order', records', step, p, i, m)
    {
      if p < n - 1 {
        assert order'[p] == order[p];
        assert SlotOK(order, records, step, p, i, m);
      }
    }
  }

  /** The one record of a level that a new one is a span behind of gets its offset. */
  lemma {:induction false} LinkStep(order: seq<Offset>, records: Records, base: Offset, size: Offset, width: nat,
                                    step: nat, max: nat, i: nat, j: nat)
    requires step >= 2 && Laid(order, records, base, size, width, step, max) && |order| > 1
    requires i < Level(|order| - 1, step, max) && j == i + 1 && Linked(order, records, step, max, |order|, i)
    ensures |order| - 1 >= Span(step, j)
    ensures var q := |order| - 1 - Span(step, j);
            && order[q] in records && i < Level(q, step, max) && i < |records[order[q]].slots|
            && Linked(order, records[order[q] := WithSlot(records[order[q]], i, order[|order| - 1])], step, max,
                      |order|, j)
  {
    var n := |order|;
    LevelDivides(n - 1, step, max, j);
    LastMultipleStep(n - 1, Span(step, j));
    var q := n - 1 - Span(step, j);
    assert Aligned(q, Span(step, j));
    LevelDivides(q, step, max, j);
    assert PlaceOK(order, records, size, width, step, max, q, q + 1);
    var records' := records[order[q] := WithSlot(records[order[q]], i, order[n - 1])];
    forall p, l, m {:trigger SlotOK(order, records', step, p, l, m)} |
      0 <= p < n && 0 <= l < Level(p, step, max) && (m == if l < j || p == n - 1 then n else n - 1)
      ensures SlotOK(order, records', step, p, l, m)
    {
      if p < q { LaidAscends(order, records, base, size, width, step, max, p, q); }
      if q < p { LaidAscends(order, records, base, size, width, step, max, q, p); }
      var m' := if l < i || p == n - 1 then n else n - 1;
      assert SlotOK(order, records, step, p, l, m');
    }
  }

  /** The first record has none before it to be linked from. */
  lemma LinkFirst(order: seq<Offset>, records: Records, step: nat, max: nat, i: nat, j: nat)
    requires step >= 2 && |order| == 1 && Linked(order, records, step, max, 1, i)
    ensures Linked(order, records, step, max, 1, j)
  {
    forall p, l, m {:trigger SlotOK(order, records, step, p, l, m)} |
      0 <= p < 1 && 0 <= l < Level(p, step, max) && (m == if l < j || p == 0 then 1 else 0)
      ensures SlotOK(order, records, step, p, l, m)
    {
    }
  }

  /** Above the new record's level no slot is a span before it. */
  lemma LinkDone(order: seq<Offset>, records: Records, step: nat, max: nat)
    requires step >= 2 && |order| > 0 && Linked(order, records, step, max, |order|, Level(|order| - 1, step, max))
    ensures Linked(order, records, step, max, |order|, max)
  {
    var n := |order|;
    var k := Level(n - 1, step, max);
    forall p, i, m {:trigger SlotOK(order, records, step, p, i, m)} |
      0 <= p < n && 0 <= i < Level(p, step, max) && (m == if i < max || p == n - 1 then n else n - 1)
      ensures SlotOK(order, records, step, p, i, m)
    {
      var m' := if i < k || p == n - 1 then n else n - 1;
      assert SlotOK(order, records, step, p, i, m');
      if m' != n && p + Span(step, i + 1) == n - 1 {
        LevelDivides(p, step, max, i + 1);
        AlignedSum(p, Span(step, i + 1), Span(step, i + 1));
        LevelDivides(n - 1, step, max, i + 1);
        assert false;
      }
    }
  }

  /** `past` holds for each level the last record that takes part in it. */
  ghost predicate PastOK(order: seq<Offset>, past: seq<Offset>, step: nat, max: nat)
    requires step >= 2
  {
    && |past| == max
    && forall i {:trigger past[i]} :: 0 <= i < max ==>
         past[i] == if |order| == 0 then 0 else order[LastMultiple(|order|, Span(step, i + 1))]
  }

  lemma PastStep(order: seq<Offset>, past: seq<Offset>, step: nat, max: nat, offset: Offset, past': seq<Offset>)
    requires step >= 2 && PastOK(order, past, step, max)
    requires |past'| == max
    requires forall i :: 0 <= i < max ==> past'[i] == if i < Level(|order|, step, max) then offset else past[i]
    ensures PastOK(order + [offset], past', step, max)
  {
    var n := |order|;
    forall i {:trigger past'[i]} | 0 <= i < max
      ensures past'[i] == (order + [offset])[LastMultiple(n + 1, Span(step, i + 1))]
    {
      LevelDivides(n, step, max, i + 1);
      LastMultipleStep(n, Span(step, i + 1));
    }
  }
}
