/**
 The bytes of a skip database: a record is a magic number, its slots with a fixed width, two sizes,
 key and value. What is done to the records of a file is done to its bytes.
 */
module SkipCodec {
  import opened Basics
  import opened HashFormat
  import opened ByteCodec
  import opened RecordCodec
  import opened SkipLevels
  import opened SkipFile
  import opened SkipRecords

  const RECORD_MAGIC: byte := 0xFF
  const MAX_MEMORY_SIZE := 0x100_0000_0000
  const MAX_OFFSET_WIDTH := 6
  const MAX_MAX_LEVEL := 32

  // ---------------------------------------------------------------- texts

  /** Keys and values are strings of bytes. */
  ghost predicate IsText(s: string) {
    forall i :: 0 <= i < |s| ==> s[i] as int < 0x100
  }

  function Bytes(s: string): (b: seq<byte>)
    ensures |b| == |s|
  {
    seq(|s|, i requires 0 <= i < |s| => s[i] as int % 0x100)
  }

  function Text(b: seq<byte>): (s: string)
    ensures |s| == |b|
  {
    seq(|b|, i requires 0 <= i < |b| => b[i] as char)
  }

  lemma TextBack(s: string)
    requires IsText(s)
    ensures Text(Bytes(s)) == s
  {
    forall i | 0 <= i < |s| ensures Text(Bytes(s))[i] == s[i] { }
  }

  // ---------------------------------------------------------------- records as bytes

  /** What the records of a file are like. */
  ghost predicate Fit(width: nat, r: Stored) {
    && width <= MAX_OFFSET_WIDTH && |r.slots| <= MAX_MAX_LEVEL
    && (forall i :: 0 <= i < |r.slots| ==> 0 <= r.slots[i] < Capacity(width))
    && |r.key| < 0x8000_0000 && |r.value| < 0x8000_0000 && IsText(r.key) && IsText(r.value)
  }

  lemma FitIs(width: nat, r: Stored)
    requires width <= 6 && |r.slots| <= 32 && |r.key| < 0x8000_0000 && |r.value| < 0x8000_0000
    requires forall i :: 0 <= i < |r.slots| ==> 0 <= r.slots[i] < Capacity(width)
    requires forall i :: 0 <= i < |r.key| ==> r.key[i] < 0x100 as char
    requires forall i :: 0 <= i < |r.value| ==> r.value[i] < 0x100 as char
    ensures Fit(width, r)
  {
    forall i | 0 <= i < |r.key| ensures r.key[i] as int < 0x100 { }
    forall i | 0 <= i < |r.value| ensures r.value[i] as int < 0x100 { }
  }

  predicate NoneNegative(slots: seq<Offset>) {
    forall i :: 0 <= i < |slots| ==> slots[i] >= 0
  }

  /** The slots from one on up to another, each with the same width. */
  function SlotsOf(slots: seq<Offset>, width: nat, i: nat, j: nat): (s: seq<byte>)
    requires NoneNegative(slots) && i <= j <= |slots|
    ensures |s| == SlotBytes(width, j - i)
  {
    if i == j then [] else SlotsOf(slots, width, i, j - 1) + FixNum(slots[j - 1], width)
  }

  function Slots(slots: seq<Offset>, width: nat): (s: seq<byte>)
    requires NoneNegative(slots)
    ensures |s| == SlotBytes(width, |slots|)
  {
    SlotsOf(slots, width, 0, |slots|)
  }

  ghost function Sizes(r: Stored): seq<byte> {
    VarNum(|r.key|) + VarNum(|r.value|)
  }

  ghost function Header(width: nat, r: Stored): seq<byte>
    requires Fit(width, r)
  {
    [RECORD_MAGIC] + Slots(r.slots, width) + Sizes(r)
  }

  ghost function Body(r: Stored): seq<byte> {
    Bytes(r.key) + Bytes(r.value)
  }

  ghost function Encoded(width: nat, r: Stored): seq<byte>
    requires Fit(width, r)
  {
    Header(width, r) + Body(r)
  }

  /** The bytes are as many as SetData computes. */
  lemma EncodedSize(width: nat, r: Stored)
    requires Fit(width, r)
    ensures |Header(width, r)| == HeaderSize(width, |r.slots|, |r.key|, |r.value|)
    ensures |Encoded(width, r)| == RecordSize(width, r)
  {
    VarNumSize(|r.key|);
    VarNumSize(|r.value|);
  }

  lemma {:induction false} SlotBytesGrow(width: nat, i: nat, j: nat)
    requires i < j
    ensures SlotBytes(width, i) + width <= SlotBytes(width, j)
  {
    if i + 1 < j { SlotBytesGrow(width, i, j - 1); }
  }

  lemma {:induction false} SlotBytesFew(width: nat, level: nat)
    requires width <= MAX_OFFSET_WIDTH
    ensures SlotBytes(width, level) <= 6 * level
  {
    if level > 0 { SlotBytesFew(width, level - 1); }
  }

  /** The slots before one, its own bytes, and the slots behind it. */
  lemma {:induction false} SlotsSplit(slots: seq<Offset>, width: nat, i: nat, n: nat)
    requires i < n <= |slots| && NoneNegative(slots)
    ensures SlotsOf(slots, width, 0, n)
            == SlotsOf(slots, width, 0, i) + FixNum(slots[i], width) + SlotsOf(slots, width, i + 1, n)
  {
    if i + 1 < n {
      SlotsSplit(slots, width, i, n - 1);
      Regrouped(SlotsOf(slots, width, 0, i) + FixNum(slots[i], width), SlotsOf(slots, width, i + 1, n - 1),
                FixNum(slots[n - 1], width));
    }
  }

  lemma Regrouped(a: seq<byte>, b: seq<byte>, c: seq<byte>)
    ensures a + b + c == a + (b + c)
  {
  }

  lemma {:induction false} SlotsAlike(slots: seq<Offset>, slots': seq<Offset>, width: nat, i: nat, j: nat)
    requires NoneNegative(slots) && NoneNegative(slots') && i <= j <= |slots| && j <= |slots'|
    requires forall l :: i <= l < j ==> slots[l] == slots'[l]
    ensures SlotsOf(slots, width, i, j) == SlotsOf(slots', width, i, j)
  {
    if i < j { SlotsAlike(slots, slots', width, i, j - 1); }
  }

  ghost function Front(width: nat, r: Stored, i: nat): (s: seq<byte>)
    requires Fit(width, r) && i < |r.slots|
    ensures |s| == 1 + SlotBytes(width, i)
  {
    [RECORD_MAGIC] + SlotsOf(r.slots, width, 0, i)
  }

  ghost function Behind(width: nat, r: Stored, i: nat): seq<byte>
    requires Fit(width, r) && i < |r.slots|
  {
    SlotsOf(r.slots, width, i + 1, |r.slots|) + Sizes(r)
  }

  lemma HeaderSplit(width: nat, r: Stored, i: nat)
    requires Fit(width, r) && i < |r.slots|
    ensures Header(width, r) == Front(width, r, i) + FixNum(r.slots[i], width) + Behind(width, r, i)
  {
    SlotsSplit(r.slots, width, i, |r.slots|);
    Associated([RECORD_MAGIC], SlotsOf(r.slots, width, 0, i), FixNum(r.slots[i], width),
               SlotsOf(r.slots, width, i + 1, |r.slots|), Sizes(r));
  }

  /** Another value of the slot leaves what is before and behind it. */
  lemma SplitAlike(width: nat, r: Stored, i: nat, v: Offset, r': Stored)
    requires Fit(width, r) && i < |r.slots| && r' == WithSlot(r, i, v) && Fit(width, r')
    ensures Front(width, r', i) == Front(width, r, i) && Behind(width, r', i) == Behind(width, r, i)
            && Body(r') == Body(r)
  {
    SlotsAlike(r.slots, r'.slots, width, 0, i);
    SlotsAlike(r.slots, r'.slots, width, i + 1, |r.slots|);
  }

  lemma Associated(m: seq<byte>, a: seq<byte>, b: seq<byte>, c: seq<byte>, d: seq<byte>)
    ensures m + (a + b + c) + d == (m + a) + b + (c + d)
  {
  }

  lemma EncodedSplit(width: nat, r: Stored, i: nat)
    requires Fit(width, r) && i < |r.slots|
    ensures Encoded(width, r) == Front(width, r, i) + FixNum(r.slots[i], width) + Behind(width, r, i) + Body(r)
  {
    HeaderSplit(width, r, i);
  }

  lemma Filled(a: seq<byte>, b: seq<byte>, c: seq<byte>, d: seq<byte>, buf: seq<byte>, at: nat, s: seq<byte>,
               t: seq<byte>)
    requires at == |a| && |buf| == |b| && s == a + b + c + d && t == a + buf + c + d
    ensures at + |b| <= |s| && t == Overwritten(s, at, buf)
  {
  }

  lemma FitWithSlot(width: nat, r: Stored, i: nat, v: Offset)
    requires Fit(width, r) && i < |r.slots| && 0 <= v < Capacity(width)
    ensures Fit(width, WithSlot(r, i, v))
  {
  }

  /** Filling in a slot is overwriting its bytes. */
  lemma SlotOverwritten(width: nat, r: Stored, i: nat, v: Offset, r': Stored, s: seq<byte>, t: seq<byte>, pos: nat,
                        buf: seq<byte>)
    requires Fit(width, r) && i < |r.slots| && 0 <= v < Capacity(width) && r' == WithSlot(r, i, v) && Fit(width, r')
    requires s == Encoded(width, r) && t == Encoded(width, r')
    requires pos == 1 + SlotBytes(width, i) && buf == FixNum(v, width)
    ensures pos + |buf| <= |s| && t == Overwritten(s, pos, buf)
  {
    EncodedSplit(width, r, i);
    EncodedSplit(width, r', i);
    SplitAlike(width, r, i, v, r');
    Filled(Front(width, r, i), FixNum(r.slots[i], width), Behind(width, r, i), Body(r), buf, pos, s, t);
  }

  // ---------------------------------------------------------------- files as bytes

  ghost predicate RecordLies(data: seq<byte>, order: seq<Offset>, records: Records, width: nat, i: nat)
    requires i < |order|
  {
    && order[i] >= 0 && order[i] in records && Fit(width, records[order[i]])
    && Lies(Encoded(width, records[order[i]]), data, order[i])
  }

  /** The bytes of the file are those of its records, each at its offset. */
  ghost predicate Represents(data: seq<byte>, order: seq<Offset>, records: Records, size: Offset, width: nat) {
    |data| == size && forall i :: 0 <= i < |order| ==> RecordLies(data, order, records, width, i)
  }

  /** Of a file without records only the metadata is there. */
  lemma EmptyRepresents(data: seq<byte>, base: Offset, width: nat)
    requires |data| == base
    ensures Represents(data, [], map[], base, width)
  {
  }

  /** Appending a record is appending its bytes. */
  lemma AppendRepresents(data: seq<byte>, order: seq<Offset>, records: Records, base: Offset, size: Offset, width: nat,
                         step: nat, max: nat, r: Stored, data': seq<byte>)
    requires step >= 2 && Laid(order, records, base, size, width, step, max) && size !in records
    requires Represents(data, order, records, size, width) && Fit(width, r) && data' == data + Encoded(width, r)
    ensures Represents(data', order + [size], records[size := r], size + RecordSize(width, r), width)
  {
    EncodedSize(width, r);
    var order', records' := order + [size], records[size := r];
    forall i | 0 <= i < |order'|
      ensures RecordLies(data', order', records', width, i)
    {
      if i < |order| {
        var o := order[i];
        assert RecordLies(data, order, records, width, i) && o != size;
        LiesWithin(Encoded(width, records[o]), data, data', 0, o);
      }
    }
  }

  /** A slot is filled in by writing its bytes where it is, and no other record is touched. */
  lemma SlotRepresents(data: seq<byte>, order: seq<Offset>, records: Records, base: Offset, size: Offset, width: nat,
                       step: nat, max: nat, p: nat, i: nat, v: Offset, at: nat)
    requires step >= 2 && Laid(order, records, base, size, width, step, max)
    requires Represents(data, order, records, size, width)
    requires p < |order| && order[p] in records && i < |records[order[p]].slots| && 0 <= v < Capacity(width)
    requires at == order[p] + 1 + SlotBytes(width, i)
    ensures at + width <= |data|
    ensures Represents(Overwritten(data, at, FixNum(v, width)), order,
                       records[order[p] := WithSlot(records[order[p]], i, v)], size, width)
  {
    var o, r, buf := order[p], records[order[p]], FixNum(v, width);
    assert RecordLies(data, order, records, width, p);
    SlotWithin(width, r, i);
    var data', records' := Overwritten(data, at, buf), records[o := WithSlot(r, i, v)];
    forall j | 0 <= j < |order|
      ensures RecordLies(data', order, records', width, j)
    {
      assert RecordLies(data, order, records, width, j);
      RecordStill(data, order, records, base, size, width, step, max, p, i, v, at, records', data', j);
    }
  }

  lemma RecordStill(data: seq<byte>, order: seq<Offset>, records: Records, base: Offset, size: Offset, width: nat,
                    step: nat, max: nat, p: nat, i: nat, v: Offset, at: nat, records': Records, data': seq<byte>,
                    j: nat)
    requires step >= 2 && Laid(order, records, base, size, width, step, max)
    requires p < |order| && j < |order| && order[p] in records && i < |records[order[p]].slots|
    requires 0 <= v < Capacity(width)
    requires RecordLies(data, order, records, width, p) && RecordLies(data, order, records, width, j)
    requires at == order[p] + 1 + SlotBytes(width, i) && at + width <= |data|
    requires data' == Overwritten(data, at, FixNum(v, width))
    requires records' == records[order[p] := WithSlot(records[order[p]], i, v)]
    ensures RecordLies(data', order, records', width, j)
  {
    var o, r, pos := order[p], records[order[p]], 1 + SlotBytes(width, i);
    if order[j] == o {
      var r' := WithSlot(r, i, v);
      FitWithSlot(width, r, i, v);
      SlotWithin(width, r, i);
      SlotLies(width, r, i, v, data, o, at, r', Encoded(width, r), Encoded(width, r'), pos, FixNum(v, width));
    } else {
      SlotWithin(width, r, i);
      OtherStill(data, order, records, base, size, width, step, max, p, j, pos, FixNum(v, width), at);
    }
  }

  lemma SlotWithin(width: nat, r: Stored, i: nat)
    requires Fit(width, r) && i < |r.slots|
    ensures 1 + SlotBytes(width, i) + width <= |Encoded(width, r)|
  {
    EncodedSize(width, r);
    SlotBytesGrow(width, i, |r.slots|);
  }

  lemma SlotLies(width: nat, r: Stored, i: nat, v: Offset, data: seq<byte>, o: nat, at: nat, r': Stored, s: seq<byte>,
                 t: seq<byte>, pos: nat, buf: seq<byte>)
    requires Fit(width, r) && i < |r.slots| && 0 <= v < Capacity(width) && r' == WithSlot(r, i, v) && Fit(width, r')
    requires s == Encoded(width, r) && t == Encoded(width, r')
    requires pos == 1 + SlotBytes(width, i) && buf == FixNum(v, width) && Lies(s, data, o) && at == o + pos
    requires pos + |buf| <= |s|
    ensures Lies(t, Overwritten(data, at, buf), o)
  {
    SlotOverwritten(width, r, i, v, r', s, t, pos, buf);
    LiesOver(s, data, o, pos, buf, at, t);
  }

  lemma OtherStill(data: seq<byte>, order: seq<Offset>, records: Records, base: Offset, size: Offset, width: nat,
                   step: nat, max: nat, p: nat, j: nat, pos: nat, buf: seq<byte>, at: nat)
    requires step >= 2 && Laid(order, records, base, size, width, step, max)
    requires p < |order| && j < |order| && order[j] != order[p]
    requires RecordLies(data, order, records, width, p) && RecordLies(data, order, records, width, j)
    requires pos + |buf| <= |Encoded(width, records[order[p]])| && at == order[p] + pos
    ensures at <= |data| && Lies(Encoded(width, records[order[j]]), Overwritten(data, at, buf), order[j])
  {
    OtherLies(data, order, records, base, size, width, step, max, p, j);
    LiesStill(Encoded(width, records[order[j]]), data, order[j], at, buf);
  }

  lemma LiesOver(s: seq<byte>, data: seq<byte>, o: nat, pos: nat, buf: seq<byte>, at: nat, t: seq<byte>)
    requires Lies(s, data, o) && pos + |buf| <= |s| && at == o + pos && t == Overwritten(s, pos, buf)
    ensures Lies(t, Overwritten(data, at, buf), o)
  {
    var data' := Overwritten(data, at, buf);
    forall i | 0 <= i < |t|
      ensures data'[o + i] == t[i]
    {
      if pos <= i < pos + |buf| {
        assert t[pos..pos + |buf|][i - pos] == data'[at..at + |buf|][i - pos];
      } else {
        assert data[o..o + |s|][i] == s[i];
        assert data'[o + i] == data[o + i];
      }
    }
    assert data'[o..o + |t|] == t;
  }

  lemma OtherLies(data: seq<byte>, order: seq<Offset>, records: Records, base: Offset, size: Offset, width: nat,
                  step: nat, max: nat, p: nat, j: nat)
    requires step >= 2 && Laid(order, records, base, size, width, step, max)
    requires p < |order| && j < |order| && order[j] != order[p]
    requires RecordLies(data, order, records, width, p) && RecordLies(data, order, records, width, j)
    ensures order[j] + |Encoded(width, records[order[j]])| <= order[p]
            || order[p] + |Encoded(width, records[order[p]])| <= order[j]
  {
    EncodedSize(width, records[order[p]]);
    EncodedSize(width, records[order[j]]);
    var x, y := if p < j then p else j, if p < j then j else p;
    assert PlaceOK(order, records, size, width, step, max, x, x + 1);
    if x + 1 < y { LaidAscends(order, records, base, size, width, step, max, x + 1, y); }
  }

  // ---------------------------------------------------------------- writing

  /** The record goes to the end of the file, with empty slots. */
  method Write(file: ByteFile, width: nat, level: nat, key: Key, value: Value) returns (offset: nat)
    requires Fit(width, Stored([], key, value)) && level <= MAX_MAX_LEVEL
    modifies file
    ensures offset == |old(file.data)|
    ensures var r := Stored(seq(level, i => 0), key, value);
            Fit(width, r) && file.data == old(file.data) + Encoded(width, r)
  {
    ghost var r := Stored(seq(level, i => 0), key, value);
    EncodedSize(width, r);
    EmptySlots(r.slots, width, level);
    var buf := new byte[HeaderSize(width, level, |key|, |value|) + |key| + |value|];
    var wp := PutHeader(buf, SlotBytes(width, level), |key|, |value|, Header(width, r));
    wp := Put(buf, wp, Bytes(key), Header(width, r));
    wp := Put(buf, wp, Bytes(value), Header(width, r) + Bytes(key));
    assert buf[..] == buf[..wp] == Encoded(width, r);
    offset := file.Append(buf[..]);
  }

  method PutHeader(buf: array<byte>, slotBytes: nat, keySize: nat, valueSize: nat, ghost header: seq<byte>)
    returns (wp: nat)
    requires header == [RECORD_MAGIC] + Zeros(slotBytes) + (VarNum(keySize) + VarNum(valueSize))
    requires |header| <= buf.Length
    modifies buf
    ensures wp == |header| && buf[..wp] == header
  {
    ghost var a := [RECORD_MAGIC];
    wp := Put(buf, 0, [RECORD_MAGIC], []);
    wp := Put(buf, wp, Zeros(slotBytes), a);
    a := a + Zeros(slotBytes);
    wp := Put(buf, wp, VarNum(keySize), a);
    wp := Put(buf, wp, VarNum(valueSize), a + VarNum(keySize));
    assert a + VarNum(keySize) + VarNum(valueSize) == header;
  }

  lemma {:induction false} EmptySlots(slots: seq<Offset>, width: nat, n: nat)
    requires n <= |slots| && forall i :: 0 <= i < |slots| ==> slots[i] == 0
    ensures SlotsOf(slots, width, 0, n) == Zeros(SlotBytes(width, n))
  {
    if n > 0 {
      EmptySlots(slots, width, n - 1);
      ZeroBytes(width);
    }
  }

  lemma {:induction false} ZeroBytes(width: nat)
    ensures FixNum(0, width) == Zeros(width)
  {
    if width > 0 { ZeroBytes(width - 1); }
  }

  /** The bytes of a slot are overwritten. */
  method WriteSlot(file: ByteFile, width: nat, past: nat, i: nat, offset: nat)
    requires past + 1 + SlotBytes(width, i) <= |file.data|
    modifies file
    ensures file.data == Overwritten(old(file.data), past + 1 + SlotBytes(width, i), FixNum(offset, width))
  {
    file.Overwrite(past + 1 + SlotBytes(width, i), FixNum(offset, width));
  }

  // ---------------------------------------------------------------- reading

  datatype SkipMeta = SkipMeta(level: nat, slots: seq<nat>, key: Key, valueSize: nat, value: Option<Value>,
                               wholeSize: nat, bodyOffset: nat)
                    | BrokenRecord(message: string)

  /** What reading gives back of a record: slots above its level are 0, the value may be left for later. */
  ghost predicate Recovered(width: nat, max: nat, r: Stored, offset: nat, m: SkipMeta) {
    && m.SkipMeta? && m.level == |r.slots| <= |m.slots| == max
    && (forall i :: 0 <= i < max ==> m.slots[i] == if i < |r.slots| then r.slots[i] else 0)
    && m.key == r.key && m.valueSize == |r.value| && (m.value.Some? ==> m.value.value == r.value)
    && m.wholeSize == RecordSize(width, r)
    && m.bodyOffset == offset + HeaderSize(width, |r.slots|, |r.key|, |r.value|)
  }

  method ReadSlots(buf: seq<byte>, width: nat, level: nat, max: nat, ghost r: Stored)
    returns (slots: seq<nat>, rp: nat)
    requires 1 + SlotBytes(width, level) <= |buf| && level <= max
    ensures rp == 1 + SlotBytes(width, level) && |slots| == max && forall i :: level <= i < max ==> slots[i] == 0
    ensures Fit(width, r) && level == |r.slots| && Lies(Header(width, r), buf, 0) ==>
              forall i :: 0 <= i < level ==> slots[i] == r.slots[i]
  {
    ghost var lies := Fit(width, r) && level == |r.slots| && Lies(Header(width, r), buf, 0);
    slots, rp := [], 1;
    for i := 0 to level
      invariant rp == 1 + SlotBytes(width, i) && |slots| == i
      invariant lies ==> forall j :: 0 <= j < i ==> slots[j] == r.slots[j]
    {
      SlotBytesGrow(width, i, level);
      if lies { SlotRead(width, r, buf, i, rp); }
      slots := slots + [FixValue(buf[rp..rp + width])];
      rp := rp + width;
    }
    for i := level to max
      invariant rp == 1 + SlotBytes(width, level) && |slots| == i && forall j :: level <= j < i ==> slots[j] == 0
      invariant lies ==> forall j :: 0 <= j < level ==> slots[j] == r.slots[j]
    {
      slots := slots + [0];
    }
  }

  lemma SlotRead(width: nat, r: Stored, buf: seq<byte>, i: nat, rp: nat)
    requires Fit(width, r) && Lies(Header(width, r), buf, 0) && i < |r.slots| && rp == 1 + SlotBytes(width, i)
    ensures rp + width <= |buf| && FixValue(buf[rp..rp + width]) == r.slots[i]
  {
    SlotInHeader(width, r, buf, i, rp);
    FixLies(r.slots[i], width, buf, rp, rp + width);
  }

  lemma SlotInHeader(width: nat, r: Stored, buf: seq<byte>, i: nat, rp: nat)
    requires Fit(width, r) && Lies(Header(width, r), buf, 0) && i < |r.slots| && rp == 1 + SlotBytes(width, i)
    ensures Lies(FixNum(r.slots[i], width), buf, rp)
  {
    HeaderSplit(width, r, i);
    LiesPart(Front(width, r, i), FixNum(r.slots[i], width), Behind(width, r, i), Header(width, r), buf, 0, rp);
  }

  /**
   Header and key are read, with as many bytes as are likely to do; the value is there too if they
   reach as far. A record that was written there is recovered.
   */
  method ReadMetadataKey(file: ByteFile, width: nat, step: nat, max: nat, offset: nat, index: nat, ghost r: Stored)
    returns (m: SkipMeta)
    requires step >= 2
    ensures Fit(width, r) && |r.slots| == Level(index, step, max) && Lies(Encoded(width, r), file.data, offset) ==>
              Recovered(width, max, r, offset, m)
    ensures m.SkipMeta? ==> offset < |file.data| && file.data[offset] == 0xFF
  {
    ghost var lies := Fit(width, r) && |r.slots| == Level(index, step, max)
        && Lies(Encoded(width, r), file.data, offset);
    var level := FindLevel(index, step, max);
    var least := 1 + SlotBytes(width, level) + 2;
    var readSize := least + READ_DATA_SIZE;
    var maxReadSize := if |file.data| - offset < MAX_MEMORY_SIZE then |file.data| - offset else MAX_MEMORY_SIZE;
    if lies {
      SlotBytesFew(width, level);
      EncodedLies(width, r, file.data, offset, if maxReadSize > readSize then readSize else maxReadSize);
    }
    if maxReadSize <= readSize && maxReadSize < least {
      return BrokenRecord("too short record data");
    }
    var n := if maxReadSize > readSize then readSize else maxReadSize;
    var buf := file.data[offset..offset + n];
    if buf[0] != RECORD_MAGIC {
      return BrokenRecord("invalid record magic number");
    }
    m := ReadParts(file, width, level, max, offset, n, buf, maxReadSize, r);
  }

  lemma EncodedLies(width: nat, r: Stored, data: seq<byte>, offset: nat, n: int)
    requires Fit(width, r) && Lies(Encoded(width, r), data, offset)
    requires n == |data| - offset || 1 + SlotBytes(width, |r.slots|) + 34 <= n <= |data| - offset
    ensures offset < |data| && data[offset] == RECORD_MAGIC
    ensures 1 + SlotBytes(width, |r.slots|) + 2 <= n && |r.key| <= |data| - offset && |r.value| <= |data| - offset
    ensures Lies(Header(width, r), data[offset..offset + n], 0)
  {
    EncodedSize(width, r);
    var h, body := Header(width, r), Body(r);
    LiesPart([], [RECORD_MAGIC], Slots(r.slots, width) + Sizes(r) + body, Encoded(width, r), data, offset, offset);
    LiesPart([], h, body, Encoded(width, r), data, offset, offset);
    assert data[offset..offset + 1][0] == RECORD_MAGIC;
    LiesRead(h, data, offset, data[offset..offset + n], n, 0);
  }

  /** The parts of the header are read in turn; the magic number is right already. */
  method ReadParts(file: ByteFile, width: nat, level: nat, max: nat, offset: nat, n: nat, buf: seq<byte>,
                   maxReadSize: nat, ghost r: Stored)
    returns (m: SkipMeta)
    requires offset + n <= |file.data| && buf == file.data[offset..offset + n]
    requires 1 + SlotBytes(width, level) + 2 <= n && level <= max
    ensures Fit(width, r) && level == |r.slots| && Lies(Encoded(width, r), file.data, offset)
            && Lies(Header(width, r), buf, 0) && |r.key| <= maxReadSize && |r.value| <= maxReadSize ==>
              Recovered(width, max, r, offset, m)
  {
    ghost var lies := Fit(width, r) && level == |r.slots| && Lies(Header(width, r), buf, 0);
    var slots, rp := ReadSlots(buf, width, level, max, r);
    if lies { SizesLie(width, r, buf, rp, rp + |VarNum(|r.key|)|); }
    var step, keySize, message := ReadSize(buf, rp, maxReadSize, maxReadSize, "key size", |r.key|);
    if message != "" {
      return BrokenRecord(message);
    }
    rp := rp + step;
    var valueSize;
    step, valueSize, message := ReadSize(buf, rp, maxReadSize, maxReadSize, "value size", |r.value|);
    if message != "" {
      return BrokenRecord(message);
    }
    rp := rp + step;
    var header := HeaderSize(width, level, keySize, valueSize);
    if lies { EncodedSize(width, r); }
    m := ReadTexts(file, level, slots, offset, n, buf, rp, header, keySize, valueSize, width, r);
  }

  lemma SizesLie(width: nat, r: Stored, buf: seq<byte>, p1: nat, p2: nat)
    requires Fit(width, r) && Lies(Header(width, r), buf, 0)
    requires p1 == 1 + SlotBytes(width, |r.slots|) && p2 == p1 + |VarNum(|r.key|)|
    ensures Lies(VarNum(|r.key|), buf, p1) && Lies(VarNum(|r.value|), buf, p2)
  {
    var a := [RECORD_MAGIC] + Slots(r.slots, width);
    LiesPart(a, VarNum(|r.key|), VarNum(|r.value|), Header(width, r), buf, 0, p1);
    LiesPart(a + VarNum(|r.key|), VarNum(|r.value|), [], Header(width, r), buf, 0, p2);
  }

  /** The key, and the value if there is enough of it, come from the bytes read or else from the file. */
  method ReadTexts(file: ByteFile, level: nat, slots: seq<nat>, offset: nat, n: nat, buf: seq<byte>, rp: nat,
                   header: nat, keySize: nat, valueSize: nat, ghost width: nat, ghost r: Stored)
    returns (m: SkipMeta)
    requires offset + n <= |file.data| && buf == file.data[offset..offset + n] && rp <= n
    ensures m.SkipMeta? ==> m.level == level && m.slots == slots && m.valueSize == valueSize
                            && m.wholeSize == header + keySize + valueSize && m.bodyOffset == offset + header
    ensures Fit(width, r) && Lies(Encoded(width, r), file.data, offset) && rp == header == |Header(width, r)|
            && keySize == |r.key| && valueSize == |r.value| ==>
              m.SkipMeta? && m.key == r.key && (m.value.Some? ==> m.value.value == r.value)
  {
    if Fit(width, r) && Lies(Encoded(width, r), file.data, offset) {
      TextsLie(width, r, file.data, offset + |Header(width, r)|, offset);
    }
    var key, value, message := KeyAndValue(file, offset, n, buf, rp, header, keySize, valueSize);
    m := if message != "" then BrokenRecord(message)
         else SkipMeta(level, slots, key, valueSize, value, header + keySize + valueSize, offset + header);
  }

  method KeyAndValue(file: ByteFile, offset: nat, n: nat, buf: seq<byte>, rp: nat, header: nat, keySize: nat,
                     valueSize: nat)
    returns (key: Key, value: Option<Value>, message: string)
    requires offset + n <= |file.data| && buf == file.data[offset..offset + n] && rp <= n
    ensures rp == header && offset + rp + keySize + valueSize <= |file.data| ==>
              var p, q := offset + rp, offset + rp + keySize;
              && message == "" && key == Text(file.data[p..q])
              && (value.Some? ==> value.value == Text(file.data[q..q + valueSize]))
  {
    var p2 := rp + keySize;
    key, value, message := [], None, "";
    if p2 <= n {
      SliceOfSlice(file.data, offset, n, rp, p2);
      key := Text(buf[rp..p2]);
      if p2 + valueSize <= n {
        SliceOfSlice(file.data, offset, n, p2, p2 + valueSize);
        value := Some(Text(buf[p2..p2 + valueSize]));
      }
    } else if offset + header + keySize + valueSize > |file.data| {
      message := "invalid length of a record";
    } else {
      key, value, message := FromFile(file, offset + header, keySize, valueSize);
    }
  }

  method FromFile(file: ByteFile, at: nat, keySize: nat, valueSize: nat)
    returns (key: Key, value: Option<Value>, message: string)
    ensures at + keySize + valueSize <= |file.data| ==>
              && message == "" && key == Text(file.data[at..at + keySize])
              && value == Some(Text(file.data[at + keySize..at + keySize + valueSize]))
  {
    var k, v;
    k, v, message := ReadBody(file, at, keySize, valueSize);
    key, value := Text(k), Some(Text(v));
  }

  lemma BodyLies(width: nat, r: Stored, data: seq<byte>, offset: nat, p1: nat, p2: nat)
    requires Fit(width, r) && Lies(Encoded(width, r), data, offset)
    requires p1 == offset + |Header(width, r)| && p2 == p1 + |r.key|
    ensures Lies(Bytes(r.key), data, p1) && Lies(Bytes(r.value), data, p2)
  {
    var h, k, v := Header(width, r), Bytes(r.key), Bytes(r.value);
    LiesPart(h, k, v, Encoded(width, r), data, offset, p1);
    LiesPart(h + k, v, [], Encoded(width, r), data, offset, p2);
  }

  lemma TextsLie(width: nat, r: Stored, data: seq<byte>, p: nat, offset: nat)
    requires Fit(width, r) && Lies(Encoded(width, r), data, offset) && p == offset + |Header(width, r)|
    ensures p + |r.key| + |r.value| <= |data|
    ensures Text(data[p..p + |r.key|]) == r.key
    ensures Text(data[p + |r.key|..p + |r.key| + |r.value|]) == r.value
  {
    BodyLies(width, r, data, offset, p, p + |r.key|);
    TextLies(r.key, data, p, p + |r.key|);
    TextLies(r.value, data, p + |r.key|, p + |r.key| + |r.value|);
  }

  lemma TextLies(s: string, data: seq<byte>, p: nat, q: nat)
    requires IsText(s) && Lies(Bytes(s), data, p) && q == p + |s|
    ensures q <= |data| && Text(data[p..q]) == s
  {
    TextBack(s);
  }

  lemma SliceOfSlice(data: seq<byte>, offset: nat, n: nat, p: nat, q: nat)
    requires p <= q <= n && offset + n <= |data|
    ensures data[offset..offset + n][p..q] == data[offset + p..offset + q]
  {
    var s, t := data[offset..offset + n][p..q], data[offset + p..offset + q];
    forall i | 0 <= i < |s| ensures s[i] == t[i] { }
  }

  /** What the bytes of a file tell of any of its records is what the record is. */
  method ReadAt(file: ByteFile, records: RecordFile, offset: nat, index: nat) returns (m: SkipMeta)
    requires records.Valid() && index < |records.order| && offset == records.order[index]
    requires Represents(file.data, records.order, records.records, records.size, records.width)
    ensures m.SkipMeta? && var r := records.records[records.order[index]];
            && m.level == |r.slots| <= |m.slots| && m.slots[..m.level] == r.slots && m.key == r.key
            && m.valueSize == |r.value| && (m.value.Some? ==> m.value.value == r.value)
    ensures m.SkipMeta? && offset + m.wholeSize == Edge(records.order, records.size, index + 1)
  {
    ghost var order, r := records.order, records.records[records.order[index]];
    LaidIn(order, records.records, records.base, records.size, records.width, records.step, records.max);
    assert RecordLies(file.data, order, records.records, records.width, index);
    assert PlaceOK(order, records.records, records.size, records.width, records.step, records.max, index, index + 1);
    m := ReadMetadataKey(file, records.width, records.step, records.max, offset, index, r);
    assert Recovered(records.width, records.max, r, offset, m);
    assert m.slots[..m.level] == r.slots;
  }
}
