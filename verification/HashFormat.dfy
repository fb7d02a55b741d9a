/**
 Sizes of hash database records: the record sizes are computed from the key, the value and an
 ideal size, and every one is a multiple of the file's alignment.
 */
module HashFormat {
  import opened Multiples

  type Key = string
  type Value = string

  /** Offsets count bytes from the start of the file; 0 stands for no record. */
  type Offset = int

  /** Where the i-th record begins, and after the last one the end of the section. */
  ghost function Edge(order: seq<Offset>, end: Offset, i: nat): Offset
    requires i <= |order|
  {
    if i < |order| then order[i] else end
  }

  datatype OperationType = OpVoid | OpSet | OpRemove | OpAdd

  datatype HashRecord = HashRecord(op: OperationType, key: Key, value: Value, child: Offset, size: int)

  /** The widths of offsets and checksums, and the alignment of records. */
  datatype Format = Format(offsetWidth: nat, crcWidth: nat, align: int)

  /** How many bytes a variable-length number takes. */
  function SizeVarNum(num: nat): (size: nat)
    ensures 1 <= size <= 10
    ensures forall m: nat :: m <= num ==> SizeVarNum(m) <= size
  {
    if num < 0x80 then 1
    else if num < 0x4000 then 2
    else if num < 0x20_0000 then 3
    else if num < 0x1000_0000 then 4
    else if num < 0x8_0000_0000 then 5
    else if num < 0x400_0000_0000 then 6
    else if num < 0x2_0000_0000_0000 then 7
    else if num < 0x100_0000_0000_0000 then 8
    else if num < 0x8000_0000_0000_0000 then 9
    else 10
  }

  /** The next size that is a multiple of the alignment. */
  function AlignNumber(num: nat, alignment: int): (r: nat)
    requires alignment >= 1
    ensures Aligned(r, alignment) && num <= r < num + alignment
    ensures Aligned(num, alignment) ==> r == num
  {
    var diff := num % alignment;
    AlignedHasNoRest(num, alignment);
    if diff > 0 then
      DivMod(num, alignment);
      TimesSum(alignment, num / alignment, 1);
      DivIs(num + alignment - diff, alignment, num / alignment + 1, 0);
      AlignedHasNoRest(num + alignment - diff, alignment);
      num + alignment - diff
    else num
  }

  /** The bytes a record needs without padding. */
  function BaseSize(f: Format, keySize: nat, valueSize: nat): nat {
    1 + f.offsetWidth + SizeVarNum(keySize) + SizeVarNum(valueSize) + 1 + f.crcWidth + keySize + valueSize
  }

  /** The size SetData gives a record: at least the ideal one, aligned. */
  function WholeSize(f: Format, keySize: nat, valueSize: nat, ideal: int): (size: int)
    requires f.align >= 1
    ensures Aligned(size, f.align) && size >= BaseSize(f, keySize, valueSize) && size >= ideal
    ensures size - f.align < BaseSize(f, keySize, valueSize) || size - f.align < ideal
    ensures Aligned(ideal, f.align) && ideal >= BaseSize(f, keySize, valueSize) ==> size == ideal
  {
    var base := BaseSize(f, keySize, valueSize);
    AlignNumber(if base > ideal then base else ideal, f.align)
  }

  function MakeRecord(f: Format, op: OperationType, ideal: int, key: Key, value: Value, child: Offset): HashRecord
    requires f.align >= 1
  {
    HashRecord(op, key, value, child, WholeSize(f, |key|, |value|, ideal))
  }

  function VoidRecord(f: Format, ideal: int): HashRecord
    requires f.align >= 1
  {
    MakeRecord(f, OpVoid, ideal, "", "", 0)
  }
}
