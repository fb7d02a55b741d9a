/**
 The bytes of a hash database record: a magic number, the child's offset, three sizes, an optional
 checksum, key and value, and a padding whose first byte is recognisable.
 */
module RecordCodec {
  import opened Basics
  import opened HashFormat
  import opened ByteCodec

  const MAX_KEY_SIZE := 0x80_0000 - 1
  const MAX_VALUE_SIZE := 0x8000_0000 - 1
  const META_MIN_READ_SIZE := 48
  const PADDING_TOP_MAGIC: byte := 0xDD

  /** A record by its fields, and what reading one yields: the value may be left for later. */
  datatype Fields = Fields(op: OperationType, child: Offset, key: seq<byte>, value: seq<byte>, padding: nat,
                           checksum: nat, crc: nat)

  datatype Metadata = Metadata(op: OperationType, child: Offset, key: seq<byte>, value: Option<seq<byte>>,
                               valueSize: nat,
                               padding: nat, checksum: nat, crc: nat, wholeSize: int, bodyOffset: nat)

  datatype ReadResult = Done(meta: Metadata) | Broken(message: string)

  /** What the fields of a record of the file are like. */
  ghost predicate Fit(f: Format, r: Fields) {
    && 3 <= f.offsetWidth <= 6 && f.crcWidth <= 4 && f.align >= 1
    && r.child >= 0 && r.child % f.align == 0 && r.child / f.align < Capacity(f.offsetWidth)
    && |r.key| <= MAX_KEY_SIZE && |r.value| <= MAX_VALUE_SIZE && r.padding <= MAX_VALUE_SIZE
    && 3 <= r.checksum < 0x40 && r.crc < Capacity(f.crcWidth)
  }

  /** The two highest bits of the first byte tell the operation. */
  function OpBits(op: OperationType): nat {
    match op
    case OpVoid => 3
    case OpSet => 2
    case OpRemove => 1
    case OpAdd => 0
  }

  function OpOf(bits: nat): OperationType {
    if bits == 3 then OpVoid else if bits == 2 then OpSet else if bits == 1 then OpRemove else OpAdd
  }

  function Zeros(n: nat): (s: seq<byte>)
    ensures |s| == n && forall i :: 0 <= i < n ==> s[i] == 0
  {
    if n == 0 then [] else Zeros(n - 1) + [0]
  }

  /** The bytes a padding takes up, when those its own size needs beyond the first are counted to it. */
  function PaddingBytes(padding: nat): (n: nat)
    ensures padding > 0 ==> n == padding - SizeVarNum(padding) + 1 >= 1
    ensures n == 1 ==> padding == 1
  {
    if padding == 0 then 0 else padding - SizeVarNum(padding) + 1
  }

  function Padding(padding: nat): (s: seq<byte>)
    ensures |s| == PaddingBytes(padding) && (padding > 0 ==> s[0] == PADDING_TOP_MAGIC)
    ensures forall i :: 0 < i < |s| ==> s[i] == 0
  {
    if padding == 0 then [] else [PADDING_TOP_MAGIC] + Zeros(PaddingBytes(padding) - 1)
  }

  function Magic(r: Fields): byte
    requires r.checksum < 0x40
  {
    r.checksum + OpBits(r.op) * 0x40
  }

  /** By its first byte a record is told to be void, set, removed or added. */
  lemma MagicIs(r: Fields)
    requires r.checksum < 0x40
    ensures Magic(r) == r.checksum + match r.op
                                     case OpVoid => 0xC0
                                     case OpSet => 0x80
                                     case OpRemove => 0x40
                                     case OpAdd => 0x00
  {
  }

  ghost function Sizes(r: Fields): seq<byte> {
    VarNum(|r.key|) + VarNum(|r.value|) + VarNum(r.padding)
  }

  ghost function Header(f: Format, r: Fields): seq<byte>
    requires Fit(f, r)
  {
    [Magic(r)] + FixNum(r.child / f.align, f.offsetWidth) + Sizes(r) + FixNum(r.crc, f.crcWidth)
  }

  /** The bytes Write puts into its buffer. */
  ghost function Encoded(f: Format, r: Fields): seq<byte>
    requires Fit(f, r)
  {
    Header(f, r) + r.key + r.value + Padding(r.padding)
  }

  /** The bytes in their order, from the magic number to the padding. */
  lemma EncodedIs(f: Format, r: Fields)
    requires Fit(f, r)
    ensures Encoded(f, r) == [Magic(r)] + FixNum(r.child / f.align, f.offsetWidth)
                             + VarNum(|r.key|) + VarNum(|r.value|) + VarNum(r.padding) + FixNum(r.crc, f.crcWidth)
                             + r.key + r.value + Padding(r.padding)
    ensures r.padding > 0 ==> Padding(r.padding)[0] == 0xDD && forall i :: 0 < i < |Padding(r.padding)| ==>
              Padding(r.padding)[i] == 0
  {
    var a, b, c := VarNum(|r.key|), VarNum(|r.value|), VarNum(r.padding);
    var front := [Magic(r)] + FixNum(r.child / f.align, f.offsetWidth);
    assert front + Sizes(r) == front + a + b + c;
  }

  /** They are exactly as many as SetData has computed: the size without padding, and the padding. */
  lemma EncodedSize(f: Format, r: Fields)
    requires Fit(f, r)
    ensures |Encoded(f, r)| == BaseSize(f, |r.key|, |r.value|) + r.padding
    ensures |Header(f, r)| == BaseSize(f, |r.key|, |r.value|) - |r.key| - |r.value| + SizeVarNum(r.padding) - 1
    ensures |Header(f, r)| <= META_MIN_READ_SIZE
  {
    VarNumSize(|r.key|);
    VarNumSize(|r.value|);
    VarNumSize(r.padding);
  }

  /** The fields of a record as SetData sets them: the padding is what the aligned size leaves. */
  function SetData(f: Format, op: OperationType, ideal: int, key: seq<byte>, value: seq<byte>, child: Offset,
                   checksum: nat, crc: nat): Fields
    requires f.align >= 1
  {
    Fields(op, child, key, value, WholeSize(f, |key|, |value|, ideal) - BaseSize(f, |key|, |value|), checksum, crc)
  }

  /** They are fit to be written if offset, sizes and checksums are within their widths. */
  lemma SetDataFits(f: Format, op: OperationType, ideal: int, key: seq<byte>, value: seq<byte>, child: Offset,
                    checksum: nat, crc: nat)
    requires 3 <= f.offsetWidth <= 6 && f.crcWidth <= 4 && f.align >= 1
    requires child >= 0 && child % f.align == 0 && child / f.align < Capacity(f.offsetWidth)
    requires |key| < 0x80_0000 && |value| < 0x8000_0000 && 3 <= checksum < 0x40 && crc < Capacity(f.crcWidth)
    requires ideal + f.align <= 0x8000_0000 && BaseSize(f, |key|, |value|) + f.align <= 0x8000_0000
    ensures Fit(f, SetData(f, op, ideal, key, value, child, checksum, crc))
  {
    assert WholeSize(f, |key|, |value|, ideal) < 0x8000_0000;
  }

  /** Then the bytes are as many as the size SetData has computed from the ideal one and the alignment. */
  lemma SetDataSize(f: Format, op: OperationType, ideal: int, key: seq<byte>, value: seq<byte>, child: Offset,
                    checksum: nat, crc: nat)
    requires f.align >= 1 && Fit(f, SetData(f, op, ideal, key, value, child, checksum, crc))
    ensures |Encoded(f, SetData(f, op, ideal, key, value, child, checksum, crc))| == WholeSize(f, |key|, |value|, ideal)
  {
    EncodedSize(f, SetData(f, op, ideal, key, value, child, checksum, crc));
  }

  // ---------------------------------------------------------------- reading

  lemma LiesWithin(s: seq<byte>, t: seq<byte>, buf: seq<byte>, at: nat, pos: nat)
    requires Lies(t, buf, at) && Lies(s, t, pos)
    ensures Lies(s, buf, at + pos)
  {
    forall i | 0 <= i < |s| ensures buf[at + pos + i] == s[i] {
      assert buf[at..at + |t|][pos + i] == t[pos..pos + |s|][i];
    }
  }

  /** What a header tells. */
  datatype HeaderRead = HeaderRead(op: OperationType, child: Offset, keySize: nat, valueSize: nat, padding: nat,
                                   checksum: nat, crc: nat, extra: nat, size: nat)
                      | BrokenHeader(message: string)

  /** The sizes are read in turn; each must be there, and be no larger than what there is of the file. */
  method ReadSize(buf: seq<byte>, at: nat, limit: int, maxReadSize: int, what: string, ghost size: nat)
    returns (step: nat, num: nat, message: string)
    requires at <= |buf|
    ensures message == "" ==> 1 <= step <= |buf| - at && num <= limit && num <= maxReadSize
    ensures Lies(VarNum(size), buf, at) && size <= limit && size <= maxReadSize ==>
              message == "" && step == |VarNum(size)| && num == size
  {
    VarNumValue(size);
    step, num := ReadVarNum(buf, at, |buf| - at, size);
    message := "";
    if step < 1 {
      message := "invalid " + what;
    } else if num > limit || num > maxReadSize {
      message := "too large " + what;
    }
  }

  /** The three sizes, one after the other. */
  method ReadSizes(buf: seq<byte>, at: nat, maxReadSize: int, ghost r: Fields)
    returns (rp: nat, keySize: nat, valueSize: nat, padding: nat, extra: nat, message: string)
    requires at <= |buf|
    ensures at <= rp <= |buf| && (message == "" ==> extra < rp - at)
    ensures SizesLie(r, buf, at) && SizesWithin(r, maxReadSize) ==>
              && message == "" && keySize == |r.key| && valueSize == |r.value| && padding == r.padding
              && extra == |VarNum(r.padding)| - 1 && rp == at + |Sizes(r)|
  {
    ghost var p2 := at + |VarNum(|r.key|)|;
    ghost var p3 := p2 + |VarNum(|r.value|)|;
    if SizesLie(r, buf, at) { SizesInTurn(r, buf, at, p2, p3); }
    rp, valueSize, padding, extra := at, 0, 0, 0;
    var step;
    step, keySize, message := ReadSize(buf, rp, MAX_KEY_SIZE, maxReadSize, "key size", |r.key|);
    if message == "" {
      rp := rp + step;
      step, valueSize, message := ReadSize(buf, rp, MAX_VALUE_SIZE, maxReadSize, "value size", |r.value|);
    }
    if message == "" {
      rp := rp + step;
      step, padding, message := ReadSize(buf, rp, MAX_VALUE_SIZE, maxReadSize, "padding size", r.padding);
    }
    if message == "" {
      rp, extra := rp + step, step - 1;
    }
  }

  /** The header is read field by field from the bytes there are. */
  method ReadHeader(f: Format, buf: seq<byte>, maxReadSize: int, ghost r: Fields) returns (h: HeaderRead)
    requires f.align >= 1 && 1 + f.offsetWidth + 3 + f.crcWidth <= |buf|
    ensures h.HeaderRead? ==> h.size <= |buf| && h.extra < h.size
    ensures Fit(f, r) && Lies(Header(f, r), buf, 0) && SizesWithin(r, maxReadSize) ==>
              h == HeaderRead(r.op, r.child, |r.key|, |r.value|, r.padding, r.checksum, r.crc,
                              |VarNum(r.padding)| - 1, |Header(f, r)|)
  {
    ghost var p1 := 1 + f.offsetWidth;
    ghost var p4 := p1 + |Sizes(r)|;
    if Fit(f, r) && Lies(Header(f, r), buf, 0) { HeaderLies(f, r, buf, p1, p4); }
    var checksum := buf[0] % 0x40;
    if checksum < 3 {
      return BrokenHeader("invalid magic checksum");
    }
    var op := OpOf(buf[0] / 0x40);
    var child := FixValue(buf[1..1 + f.offsetWidth]) * f.align;
    var rp, keySize, valueSize, padding, extra, message := ReadSizes(buf, 1 + f.offsetWidth, maxReadSize, r);
    if message != "" {
      return BrokenHeader(message);
    }
    if |buf| - rp < f.crcWidth {
      return BrokenHeader("invalid CRC value");
    }
    var crc := FixValue(buf[rp..rp + f.crcWidth]);
    h := HeaderRead(op, child, keySize, valueSize, padding, checksum, crc, extra, rp + f.crcWidth);
  }

  ghost predicate SizesLie(r: Fields, buf: seq<byte>, at: nat) {
    Lies(Sizes(r), buf, at) && |r.key| <= MAX_KEY_SIZE && |r.value| <= MAX_VALUE_SIZE && r.padding <= MAX_VALUE_SIZE
  }

  ghost predicate SizesWithin(r: Fields, limit: int) {
    |r.key| <= limit && |r.value| <= limit && r.padding <= limit
  }

  lemma SizesInTurn(r: Fields, buf: seq<byte>, at: nat, p2: nat, p3: nat)
    requires Lies(Sizes(r), buf, at) && p2 == at + |VarNum(|r.key|)| && p3 == p2 + |VarNum(|r.value|)|
    ensures Lies(VarNum(|r.key|), buf, at) && Lies(VarNum(|r.value|), buf, p2) && Lies(VarNum(r.padding), buf, p3)
  {
    var a, b, c := VarNum(|r.key|), VarNum(|r.value|), VarNum(r.padding);
    LiesPart([], a, b + c, Sizes(r), buf, at, at);
    LiesPart(a, b, c, Sizes(r), buf, at, p2);
    LiesPart(a + b, c, [], Sizes(r), buf, at, p3);
  }

  /** A part lies where its whole does, so much further on. */
  lemma LiesPart(before: seq<byte>, s: seq<byte>, after: seq<byte>, t: seq<byte>, buf: seq<byte>, at: nat, pos: nat)
    requires t == before + s + after && Lies(t, buf, at) && pos == at + |before|
    ensures Lies(s, buf, pos)
  {
    assert t[|before|..|before| + |s|] == s;
    LiesWithin(s, t, buf, at, |before|);
  }

  /** The fields of a header at the front of a buffer. */
  lemma HeaderLies(f: Format, r: Fields, buf: seq<byte>, p1: nat, p4: nat)
    requires Fit(f, r) && Lies(Header(f, r), buf, 0) && p1 == 1 + f.offsetWidth && p4 == p1 + |Sizes(r)|
    ensures p4 + f.crcWidth == |Header(f, r)| <= |buf|
    ensures buf[0] % 0x40 == r.checksum && OpOf(buf[0] / 0x40) == r.op
    ensures FixValue(buf[1..p1]) * f.align == r.child && FixValue(buf[p4..p4 + f.crcWidth]) == r.crc
    ensures Lies(Sizes(r), buf, p1)
  {
    var h := Header(f, r);
    var child, crc := FixNum(r.child / f.align, f.offsetWidth), FixNum(r.crc, f.crcWidth);
    LiesPart([], [Magic(r)], child + Sizes(r) + crc, h, buf, 0, 0);
    LiesPart([Magic(r)], child, Sizes(r) + crc, h, buf, 0, 1);
    LiesPart([Magic(r)] + child, Sizes(r), crc, h, buf, 0, p1);
    LiesPart([Magic(r)] + child + Sizes(r), crc, [], h, buf, 0, p4);
    assert buf[0..1][0] == Magic(r);
    FixLies(r.child / f.align, f.offsetWidth, buf, 1, p1);
    FixLies(r.crc, f.crcWidth, buf, p4, p4 + f.crcWidth);
    MagicBack(r);
    ChildBack(r.child, f.align);
  }

  lemma FixLies(num: nat, width: nat, buf: seq<byte>, at: nat, end: nat)
    requires Lies(FixNum(num, width), buf, at) && num < Capacity(width) && end == at + width
    ensures FixValue(buf[at..end]) == num
  {
    FixNumRoundTrip(num, width);
  }

  lemma MagicBack(r: Fields)
    requires r.checksum < 0x40
    ensures Magic(r) % 0x40 == r.checksum && OpOf(Magic(r) / 0x40) == r.op
  {
  }

  lemma ChildBack(child: Offset, align: int)
    requires align >= 1 && child >= 0 && child % align == 0
    ensures child / align * align == child
  {
  }

  // ---------------------------------------------------------------- files

  /** A file is a string of bytes. */
  class ByteFile {
    var data: seq<byte>

    constructor ()
      ensures data == []
    {
      data := [];
    }

    method Append(buf: seq<byte>) returns (offset: nat)
      modifies this
      ensures offset == |old(data)| && data == old(data) + buf
    {
      offset := |data|;
      data := data + buf;
    }

    /** Bytes are overwritten; those past the end are added. */
    method Overwrite(offset: nat, buf: seq<byte>)
      requires offset <= |data|
      modifies this
      ensures data == Overwritten(old(data), offset, buf)
    {
      data := Overwritten(data, offset, buf);
    }
  }

  function Overwritten(data: seq<byte>, offset: nat, buf: seq<byte>): (r: seq<byte>)
    requires offset <= |data|
    ensures Lies(buf, r, offset) && |r| == if offset + |buf| <= |data| then |data| else offset + |buf|
    ensures forall i :: 0 <= i < |data| && !(offset <= i < offset + |buf|) ==> r[i] == data[i]
  {
    data[..offset] + buf + (if offset + |buf| <= |data| then data[offset + |buf|..] else [])
  }

  /** The buffer is as long as SetData has computed, and the parts fill all of it. */
  method Fill(f: Format, r: Fields) returns (buf: array<byte>)
    requires Fit(f, r)
    ensures fresh(buf) && buf.Length == BaseSize(f, |r.key|, |r.value|) + r.padding && buf[..] == Encoded(f, r)
  {
    EncodedSize(f, r);
    ghost var header := Header(f, r);
    buf := new byte[BaseSize(f, |r.key|, |r.value|) + r.padding];
    var wp := FillHeader(f, r, buf);
    wp := Put(buf, wp, r.key, header);
    wp := Put(buf, wp, r.value, header + r.key);
    FillPadding(r.padding, buf, wp, header + r.key + r.value);
  }

  method Clear(buf: array<byte>, wp: nat)
    requires wp <= buf.Length
    modifies buf
    ensures buf[..wp] == old(buf[..wp]) && forall i :: wp <= i < buf.Length ==> buf[i] == 0
  {
    forall i | wp <= i < buf.Length {
      buf[i] := 0;
    }
  }

  method FillPadding(padding: nat, buf: array<byte>, wp: nat, ghost done: seq<byte>)
    requires wp + |Padding(padding)| == buf.Length && buf[..wp] == done
    modifies buf
    ensures buf[..] == done + Padding(padding)
  {
    if padding > 0 {
      Clear(buf, wp);
      buf[wp] := PADDING_TOP_MAGIC;
    }
  }

  method FillHeader(f: Format, r: Fields, buf: array<byte>) returns (wp: nat)
    requires Fit(f, r) && |Header(f, r)| <= buf.Length
    modifies buf
    ensures wp == |Header(f, r)| && buf[..wp] == Header(f, r)
  {
    ghost var done := [Magic(r)];
    wp := Put(buf, 0, [Magic(r)], []);
    wp := Put(buf, wp, FixNum(r.child / f.align, f.offsetWidth), done);
    done := done + FixNum(r.child / f.align, f.offsetWidth);
    wp := FillSizes(r, buf, wp, done);
    if f.crcWidth > 0 {
      wp := Put(buf, wp, FixNum(r.crc, f.crcWidth), done + Sizes(r));
    }
  }

  method FillSizes(r: Fields, buf: array<byte>, at: nat, ghost done: seq<byte>) returns (wp: nat)
    requires at + |Sizes(r)| <= buf.Length && buf[..at] == done
    modifies buf
    ensures wp == at + |Sizes(r)| && buf[..wp] == done + Sizes(r)
  {
    ghost var a, b := VarNum(|r.key|), VarNum(|r.value|);
    wp := Put(buf, at, VarNum(|r.key|), done);
    wp := Put(buf, wp, VarNum(|r.value|), done + a);
    wp := Put(buf, wp, VarNum(r.padding), done + a + b);
    assert done + a + b + VarNum(r.padding) == done + Sizes(r);
  }

  /** A record goes to the end of the file, or over the one that is at the offset. */
  method Write(f: Format, r: Fields, file: ByteFile, offset: int) returns (newOffset: nat)
    requires Fit(f, r) && offset <= |file.data|
    modifies file
    ensures newOffset == if offset < 0 then |old(file.data)| else offset
    ensures file.data == Overwritten(old(file.data), newOffset, Encoded(f, r))
    ensures Lies(Encoded(f, r), file.data, newOffset)
  {
    var buf := Fill(f, r);
    if offset < 0 {
      newOffset := file.Append(buf[..]);
    } else {
      file.Overwrite(offset, buf[..]);
      newOffset := offset;
    }
  }

  /** What reading gives back of a record. */
  ghost predicate Recovered(f: Format, r: Fields, offset: int, m: Metadata)
    requires Fit(f, r)
  {
    && m.op == r.op && m.child == r.child && m.key == r.key && (m.value.Some? ==> m.value.value == r.value)
    && m.valueSize == |r.value| && m.padding == r.padding && m.checksum == r.checksum && m.crc == r.crc
    && m.wholeSize == |Encoded(f, r)| && m.bodyOffset == offset + |Header(f, r)|
  }

  /** Where header, key, value and padding are in the file. */
  lemma BodyLies(f: Format, r: Fields, data: seq<byte>, offset: nat, p5: nat, p6: nat, p7: nat)
    requires Fit(f, r) && Lies(Encoded(f, r), data, offset)
    requires p5 == |Header(f, r)| && p6 == p5 + |r.key| && p7 == p6 + |r.value|
    ensures Lies(Header(f, r), data, offset + 0) && Lies(r.key, data, offset + p5) && Lies(r.value, data, offset + p6)
    ensures Lies(Padding(r.padding), data, offset + p7)
  {
    var h, p := Header(f, r), Padding(r.padding);
    LiesSplit(h + r.key + r.value, p, Encoded(f, r), data, offset, offset + p7);
    LiesSplit(h + r.key, r.value, h + r.key + r.value, data, offset, offset + p6);
    LiesSplit(h, r.key, h + r.key, data, offset, offset + p5);
  }

  lemma LiesSplit(s: seq<byte>, t: seq<byte>, whole: seq<byte>, buf: seq<byte>, at: nat, pos: nat)
    requires whole == s + t && Lies(whole, buf, at) && pos == at + |s|
    ensures Lies(s, buf, at) && Lies(t, buf, pos)
  {
    LiesPart([], s, t, whole, buf, at, at);
    LiesPart(s, t, [], whole, buf, at, pos);
  }

  /** What lies in the file is in as much of it as was read. */
  lemma LiesRead(s: seq<byte>, data: seq<byte>, offset: nat, buf: seq<byte>, n: nat, p: nat)
    requires offset + n <= |data| && buf == data[offset..offset + n] && Lies(s, data, offset + p)
    ensures p + |s| <= n ==> Lies(s, buf, p)
    ensures forall i :: 0 <= i < |s| && p + i < n ==> buf[p + i] == s[i]
  {
    forall i | 0 <= i < |s| && p + i < n ensures buf[p + i] == s[i] {
      assert data[offset + p..offset + p + |s|][i] == s[i];
    }
  }

  /** The padding that was read is as it must be. */
  lemma PaddingRead(padding: nat, data: seq<byte>, offset: nat, buf: seq<byte>, n: nat, p: nat)
    requires offset + n <= |data| && buf == data[offset..offset + n] && Lies(Padding(padding), data, offset + p)
    ensures n > p && padding > 0 ==> buf[p] == PADDING_TOP_MAGIC
    ensures n > p + 1 && padding > 1 ==> buf[p + 1] == 0
  {
    LiesRead(Padding(padding), data, offset, buf, n, p);
    if padding > 0 && n > p {
      assert buf[p + 0] == Padding(padding)[0];
      if padding > 1 && n > p + 1 { assert buf[p + 1] == Padding(padding)[1] == 0; }
    }
  }

  /** A padding that is there begins with its magic number, followed by a zero. */
  method CheckPadding(buf: seq<byte>, rp: nat, padding: nat) returns (message: string)
    ensures message == "" <==> (0 < padding && rp < |buf| ==> buf[rp] == PADDING_TOP_MAGIC)
                               && (1 < padding && rp + 1 < |buf| ==> buf[rp] == PADDING_TOP_MAGIC && buf[rp + 1] == 0)
  {
    message := "";
    if padding > 0 && rp < |buf| {
      if buf[rp] != PADDING_TOP_MAGIC {
        return "invalid padding magic number";
      }
      if padding > 1 && rp + 1 < |buf| {
        if buf[rp + 1] != 0 {
          return "invalid padding content";
        }
      }
    }
  }

  /**
   Header and key are read, with as many bytes as asked for or as there are; the value is there too
   if they reach as far. A record that was written there is recovered.
   */
  method ReadMetadataKey(f: Format, file: ByteFile, offset: nat, minReadSize: int, ghost r: Fields)
    returns (res: ReadResult)
    requires f.offsetWidth <= 6 && f.crcWidth <= 4 && f.align >= 1 && minReadSize >= META_MIN_READ_SIZE
    ensures Fit(f, r) && Lies(Encoded(f, r), file.data, offset) ==> res.Done? && Recovered(f, r, offset, res.meta)
    ensures Fit(f, r) && Lies(Encoded(f, r), file.data, offset) ==>
              res.Done? && var m := res.meta;
              && m.op == r.op && m.child == r.child && m.key == r.key && m.valueSize == |r.value|
              && (m.value.Some? ==> m.value.value == r.value) && m.padding == r.padding
              && m.checksum == r.checksum && m.crc == r.crc && m.wholeSize == |Encoded(f, r)|
  {
    ghost var lies := Fit(f, r) && Lies(Encoded(f, r), file.data, offset);
    var maxReadSize := |file.data| - offset;
    if lies { WholeLies(f, r, file.data, offset); }
    if maxReadSize < 1 + f.offsetWidth + 3 + f.crcWidth {
      return Broken("too short record data");
    }
    var n := if maxReadSize > minReadSize then minReadSize else maxReadSize;
    var buf := file.data[offset..offset + n];
    if lies { LiesRead(Header(f, r), file.data, offset, buf, n, 0); }
    var h := ReadHeader(f, buf, maxReadSize, r);
    if h.BrokenHeader? {
      return Broken(h.message);
    }
    res := ReadKey(f, file, offset, n, buf, h, r);
  }

  lemma WholeLies(f: Format, r: Fields, data: seq<byte>, offset: nat)
    requires Fit(f, r) && Lies(Encoded(f, r), data, offset)
    ensures SizesWithin(r, |data| - offset) && |Header(f, r)| <= META_MIN_READ_SIZE
    ensures |data| - offset >= |Header(f, r)| >= 1 + f.offsetWidth + 3 + f.crcWidth
    ensures Lies(Header(f, r), data, offset + 0)
  {
    EncodedSize(f, r);
    BodyLies(f, r, data, offset, |Header(f, r)|, |Header(f, r)| + |r.key|, |Header(f, r)| + |r.key| + |r.value|);
  }

  /** A header that tells the sizes of the record. */
  ghost predicate Told(f: Format, r: Fields, h: HeaderRead)
    requires Fit(f, r)
  {
    h == HeaderRead(r.op, r.child, |r.key|, |r.value|, r.padding, r.checksum, r.crc, |VarNum(r.padding)| - 1,
                    |Header(f, r)|)
  }

  method ReadKey(f: Format, file: ByteFile, offset: nat, n: nat, buf: seq<byte>, h: HeaderRead, ghost r: Fields)
    returns (res: ReadResult)
    requires offset + n <= |file.data| && buf == file.data[offset..offset + n]
    requires h.HeaderRead? && h.size <= n
    ensures Fit(f, r) && Lies(Encoded(f, r), file.data, offset) && Told(f, r, h) ==>
              res.Done? && Recovered(f, r, offset, res.meta)
  {
    ghost var lies := Fit(f, r) && Lies(Encoded(f, r), file.data, offset) && Told(f, r, h);
    if lies { WholeSizeIs(f, r); }
    var wholeSize := h.size + h.keySize + h.valueSize + h.padding - h.extra;
    var key, value, message;
    if n >= h.size + h.keySize {
      key, value, message := KeyFromBuffer(f, file, offset, n, buf, h, r);
    } else if offset + wholeSize > |file.data| {
      message := "invalid length of a record";
    } else {
      if lies {
        BodyInFile(f, r, file.data, offset, offset + h.size, offset + h.size + h.keySize,
                   offset + h.size + h.keySize + h.valueSize);
      }
      var v;
      key, v, message := ReadBody(file, offset + h.size, h.keySize, h.valueSize);
      value := Some(v);
    }
    if message != "" {
      return Broken(message);
    }
    res := Done(Metadata(h.op, h.child, key, value, h.valueSize, h.padding, h.checksum, h.crc, wholeSize,
                         offset + h.size));
  }

  /** The key has been read with the header, and perhaps the value and some of the padding. */
  method KeyFromBuffer(f: Format, file: ByteFile, offset: nat, n: nat, buf: seq<byte>, h: HeaderRead, ghost r: Fields)
    returns (key: seq<byte>, value: Option<seq<byte>>, message: string)
    requires offset + n <= |file.data| && buf == file.data[offset..offset + n]
    requires h.HeaderRead? && h.size + h.keySize <= n
    ensures value.Some? <==> h.size + h.keySize + h.valueSize <= n
    ensures Fit(f, r) && Lies(Encoded(f, r), file.data, offset) && Told(f, r, h) ==>
              message == "" && key == r.key && (value.Some? ==> value.value == r.value)
  {
    var p6 := h.size + h.keySize;
    var p7 := p6 + h.valueSize;
    if Fit(f, r) && Lies(Encoded(f, r), file.data, offset) && Told(f, r, h) {
      BodyInBuffer(f, r, file.data, offset, n, buf, h.size, p6, p7);
    }
    key, value := buf[h.size..p6], if n >= p7 then Some(buf[p6..p7]) else None;
    message := CheckPadding(buf, p7, h.padding);
  }

  lemma WholeSizeIs(f: Format, r: Fields)
    requires Fit(f, r)
    ensures |Encoded(f, r)| == |Header(f, r)| + |r.key| + |r.value| + r.padding - (|VarNum(r.padding)| - 1)
  {
    EncodedSize(f, r);
    VarNumSize(r.padding);
  }

  lemma BodyInBuffer(f: Format, r: Fields, data: seq<byte>, offset: nat, n: nat, buf: seq<byte>, p5: nat, p6: nat,
                     p7: nat)
    requires Fit(f, r) && Lies(Encoded(f, r), data, offset)
    requires offset + n <= |data| && buf == data[offset..offset + n]
    requires p5 == |Header(f, r)| && p6 == p5 + |r.key| && p7 == p6 + |r.value|
    ensures n >= p6 ==> buf[p5..p6] == r.key
    ensures n >= p7 ==> buf[p6..p7] == r.value
    ensures n > p7 && r.padding > 0 ==> buf[p7] == PADDING_TOP_MAGIC
    ensures n > p7 + 1 && r.padding > 1 ==> buf[p7 + 1] == 0
  {
    BodyLies(f, r, data, offset, p5, p6, p7);
    LiesRead(r.key, data, offset, buf, n, p5);
    LiesRead(r.value, data, offset, buf, n, p6);
    PaddingRead(r.padding, data, offset, buf, n, p7);
  }

  lemma BodyInFile(f: Format, r: Fields, data: seq<byte>, offset: nat, p5: nat, p6: nat, p7: nat)
    requires Fit(f, r) && Lies(Encoded(f, r), data, offset)
    requires p5 == offset + |Header(f, r)| && p6 == p5 + |r.key| && p7 == p6 + |r.value|
    ensures p7 <= |data| && data[p5..p6] == r.key && data[p6..p7] == r.value
  {
    BodyLies(f, r, data, offset, p5 - offset, p6 - offset, p7 - offset);
  }

  /** Key and value are read from the file at once. */
  method ReadBody(file: ByteFile, bodyOffset: nat, keySize: nat, valueSize: nat)
    returns (key: seq<byte>, value: seq<byte>, message: string)
    ensures message == "" <==> bodyOffset + keySize + valueSize <= |file.data|
    ensures message == "" ==> key == file.data[bodyOffset..bodyOffset + keySize]
                              && value == file.data[bodyOffset + keySize..bodyOffset + keySize + valueSize]
  {
    key, value, message := [], [], "";
    if bodyOffset + keySize + valueSize > |file.data| {
      message := "beyond the end";
    } else {
      var body := file.data[bodyOffset..bodyOffset + keySize + valueSize];
      key, value := body[..keySize], body[keySize..];
    }
  }

  /** A record is read as a whole: its body too, when the bytes read first end before the value does. */
  method Read(f: Format, file: ByteFile, offset: nat, minReadSize: int, ghost r: Fields)
    returns (key: seq<byte>, value: seq<byte>, message: string)
    requires f.offsetWidth <= 6 && f.crcWidth <= 4 && f.align >= 1 && minReadSize >= META_MIN_READ_SIZE
    ensures Fit(f, r) && Lies(Encoded(f, r), file.data, offset) ==> message == "" && key == r.key && value == r.value
  {
    key, value := [], [];
    var res := ReadMetadataKey(f, file, offset, minReadSize, r);
    if res.Broken? {
      message := res.message;
    } else if res.meta.value.Some? {
      key, value, message := res.meta.key, res.meta.value.value, "";
    } else {
      key, value, message := ReadRest(f, file, offset, res.meta, r);
    }
  }

  method ReadRest(f: Format, file: ByteFile, offset: nat, meta: Metadata, ghost r: Fields)
    returns (key: seq<byte>, value: seq<byte>, message: string)
    ensures Fit(f, r) && Lies(Encoded(f, r), file.data, offset) && Recovered(f, r, offset, meta) ==>
              message == "" && key == r.key && value == r.value
  {
    if Fit(f, r) && Lies(Encoded(f, r), file.data, offset) && Recovered(f, r, offset, meta) {
      BodyInFile(f, r, file.data, offset, meta.bodyOffset, meta.bodyOffset + |r.key|,
                 meta.bodyOffset + |r.key| + |r.value|);
    }
    key, value, message := ReadBody(file, meta.bodyOffset, |meta.key|, meta.valueSize);
  }

  /** What is written is read back, whatever the widths, the alignment, the padding and the first bytes asked for. */
  method WriteThenRead(f: Format, r: Fields, file: ByteFile, offset: int, minReadSize: int)
    returns (key: seq<byte>, value: seq<byte>, message: string)
    requires Fit(f, r) && offset <= |file.data| && minReadSize >= META_MIN_READ_SIZE
    modifies file
    ensures message == "" && key == r.key && value == r.value
  {
    var newOffset := Write(f, r, file, offset);
    key, value, message := Read(f, file, newOffset, minReadSize, r);
  }

  /** Nor does writing elsewhere change what is read. */
  lemma LiesStill(s: seq<byte>, data: seq<byte>, at: nat, offset: nat, buf: seq<byte>)
    requires Lies(s, data, at) && offset <= |data| && (at + |s| <= offset || offset + |buf| <= at)
    ensures Lies(s, Overwritten(data, offset, buf), at)
  {
    var t := Overwritten(data, offset, buf);
    forall i | 0 <= i < |s| ensures t[at + i] == s[i] {
      assert data[at..at + |s|][i] == s[i];
    }
  }
}
