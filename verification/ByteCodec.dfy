/**
 Numbers as bytes: with a fixed width, most significant byte first, or with as many bytes as are
 needed, seven bits in each and the highest bit set in all but the last.
 */
module ByteCodec {
  import opened Multiples
  import opened HashFormat

  type byte = x: int | 0 <= x < 0x100

  // ---------------------------------------------------------------- fixed width

  function FixNum(num: nat, width: nat): (s: seq<byte>)
    ensures |s| == width
  {
    if width == 0 then [] else FixNum(num / 0x100, width - 1) + [num % 0x100]
  }

  function FixValue(s: seq<byte>): nat {
    if |s| == 0 then 0 else FixValue(s[..|s| - 1]) * 0x100 + s[|s| - 1]
  }

  /** How many numbers the width is good for. */
  function Capacity(width: nat): (n: nat)
    ensures n >= 1
  {
    if width == 0 then 1 else 0x100 * Capacity(width - 1)
  }

  /** A number is read back just when it fits the width. */
  lemma {:induction false} FixNumRoundTrip(num: nat, width: nat)
    ensures FixValue(FixNum(num, width)) < Capacity(width)
    ensures FixValue(FixNum(num, width)) == num <==> num < Capacity(width)
  {
    if width > 0 {
      FixNumRoundTrip(num / 0x100, width - 1);
      var s := FixNum(num, width);
      assert s[|s| - 1] == num % 0x100 && s[..|s| - 1] == FixNum(num / 0x100, width - 1);
      assert num == num / 0x100 * 0x100 + num % 0x100;
    }
  }

  /** Byte by byte, the first one has the greatest weight. */
  lemma {:induction false} FixNumDigit(num: nat, width: nat, i: nat)
    requires i < width
    ensures FixNum(num, width)[i] == num / Capacity(width - 1 - i) % 0x100
  {
    if i < width - 1 {
      FixNumDigit(num / 0x100, width - 1, i);
      DivTwice(num, 0x100, Capacity(width - 2 - i), Capacity(width - 1 - i));
    }
  }

  lemma DivTwice(n: nat, a: nat, b: nat, c: nat)
    requires a >= 1 && b >= 1 && c == a * b
    ensures n / a / b == n / c
  {
    var q, t := n / a, n % a;
    var r, s := q / b, q % b;
    DivMod(n, a);
    DivMod(q, b);
    Products(a, b, r, s);
    DivIs(n, c, r, a * s + t);
  }

  lemma Products(a: nat, b: nat, r: nat, s: nat)
    requires s < b
    ensures a * (b * r + s) == (a * b) * r + a * s
    ensures a * s + a <= a * b
  {
    assert a * (b * r) == (a * b) * r;
    assert a * (s + 1) <= a * b;
  }

  /** Every string of bytes is the number it amounts to. */
  lemma {:induction false} FixValueRoundTrip(s: seq<byte>, width: nat)
    requires width == |s|
    ensures FixNum(FixValue(s), width) == s
  {
    if width > 0 {
      FixValueRoundTrip(s[..width - 1], width - 1);
      assert FixValue(s) / 0x100 == FixValue(s[..width - 1]) && FixValue(s) % 0x100 == s[width - 1];
    }
  }

  // ---------------------------------------------------------------- variable width

  /** The leading groups of seven bits, marked as not the last. */
  function Leading(num: nat): seq<byte> {
    if num == 0 then [] else Leading(num / 0x80) + [num % 0x80 + 0x80]
  }

  function VarNum(num: nat): seq<byte> {
    Leading(num / 0x80) + [num % 0x80]
  }

  /** How many groups of seven bits a number takes. */
  lemma {:induction false} LeadingSize(num: nat, n: nat, bound: nat)
    requires bound == Pow128(n) && num < bound && (n > 0 ==> num >= Pow128(n - 1))
    ensures |Leading(num)| == n
  {
    if n > 0 {
      assert Pow128(n) == 0x80 * Pow128(n - 1);
      if n > 1 { assert Pow128(n - 1) == 0x80 * Pow128(n - 2); }
      LeadingSize(num / 0x80, n - 1, Pow128(n - 1));
    }
  }

  function Pow128(n: nat): (p: nat)
    ensures p >= 1
  {
    if n == 0 then 1 else 0x80 * Pow128(n - 1)
  }

  lemma Powers()
    ensures Pow128(0) == 1 && Pow128(1) == 0x80 && Pow128(2) == 0x4000 && Pow128(3) == 0x20_0000
    ensures Pow128(4) == 0x1000_0000 && Pow128(5) == 0x8_0000_0000 && Pow128(6) == 0x400_0000_0000
    ensures Pow128(7) == 0x2_0000_0000_0000 && Pow128(8) == 0x100_0000_0000_0000 && Pow128(9) == 0x8000_0000_0000_0000
  {
    assert Pow128(0) == 1;
    assert Pow128(1) == 0x80 * Pow128(0);
    assert Pow128(2) == 0x80 * Pow128(1);
    assert Pow128(3) == 0x80 * Pow128(2);
    assert Pow128(4) == 0x80 * Pow128(3);
    assert Pow128(5) == 0x80 * Pow128(4);
    assert Pow128(6) == 0x80 * Pow128(5);
    assert Pow128(7) == 0x80 * Pow128(6);
    assert Pow128(8) == 0x80 * Pow128(7);
    assert Pow128(9) == 0x80 * Pow128(8);
  }

  /** The size function predicts the bytes, for every number of 64 bits. */
  lemma VarNumSize(num: nat)
    requires num < 0x1_0000_0000_0000_0000
    ensures |VarNum(num)| == SizeVarNum(num)
  {
    Powers();
    var q := num / 0x80;
    if num < 0x80 { LeadingSize(q, 0, 1); }
    else if num < 0x4000 { LeadingSize(q, 1, Pow128(1)); }
    else if num < 0x20_0000 { LeadingSize(q, 2, Pow128(2)); }
    else if num < 0x1000_0000 { LeadingSize(q, 3, Pow128(3)); }
    else if num < 0x8_0000_0000 { LeadingSize(q, 4, Pow128(4)); }
    else if num < 0x400_0000_0000 { LeadingSize(q, 5, Pow128(5)); }
    else if num < 0x2_0000_0000_0000 { LeadingSize(q, 6, Pow128(6)); }
    else if num < 0x100_0000_0000_0000 { LeadingSize(q, 7, Pow128(7)); }
    else if num < 0x8000_0000_0000_0000 { LeadingSize(q, 8, Pow128(8)); }
    else { LeadingSize(q, 9, Pow128(9)); }
  }

  /** What the first `n` bytes amount to. */
  ghost function VarValue(s: seq<byte>, n: nat): nat
    requires n <= |s|
  {
    if n == 0 then 0 else VarValue(s, n - 1) * 0x80 + s[n - 1] % 0x80
  }

  lemma {:induction false} VarValuePrefix(s: seq<byte>, t: seq<byte>, n: nat)
    requires n <= |s| && n <= |t| && forall i :: 0 <= i < n ==> s[i] == t[i]
    ensures VarValue(s, n) == VarValue(t, n)
  {
    if n > 0 { VarValuePrefix(s, t, n - 1); }
  }

  lemma VarValueStep(t: seq<byte>, d: byte, s: seq<byte>)
    requires s == t + [d]
    ensures VarValue(s, |s|) == VarValue(t, |t|) * 0x80 + d % 0x80
  {
    VarValuePrefix(s, t, |t|);
  }

  lemma SevenBits(num: nat, q: nat, d: nat)
    requires q == num / 0x80 && d == num % 0x80
    ensures q * 0x80 + d == num && (d + 0x80) % 0x80 == d % 0x80 == d
    ensures num > 0 ==> q < num && Leading(num) == Leading(q) + [d + 0x80]
  {
  }

  lemma {:induction false} LeadingValue(num: nat)
    ensures VarValue(Leading(num), |Leading(num)|) == num
  {
    if num > 0 {
      var q: nat, d: nat := num / 0x80, num % 0x80;
      SevenBits(num, q, d);
      LeadingValue(q);
      VarValueStep(Leading(q), d + 0x80, Leading(num));
    }
  }

  lemma {:induction false} LeadingMarked(num: nat)
    ensures forall i :: 0 <= i < |Leading(num)| ==> Leading(num)[i] >= 0x80
  {
    if num > 0 { LeadingMarked(num / 0x80); }
  }

  /** The bytes amount to the number, */
  lemma VarNumValue(num: nat)
    ensures |VarNum(num)| > 0 && VarValue(VarNum(num), |VarNum(num)|) == num
  {
    var q, d := num / 0x80, num % 0x80;
    SevenBits(num, q, d);
    LeadingValue(q);
    VarValueStep(Leading(q), d, VarNum(num));
  }

  /** and only the last one is not marked. */
  lemma VarNumMarked(num: nat)
    ensures forall i :: 0 <= i < |VarNum(num)| ==> (VarNum(num)[i] >= 0x80 <==> i < |VarNum(num)| - 1)
  {
    LeadingMarked(num / 0x80);
  }

  /** Group by group, the first one has the greatest weight. */
  lemma {:induction false} LeadingDigit(num: nat, n: nat, i: nat)
    requires i < n == |Leading(num)|
    ensures Leading(num)[i] == num / Pow128(n - 1 - i) % 0x80 + 0x80
  {
    if i < n - 1 {
      LeadingDigit(num / 0x80, n - 1, i);
      DivTwice(num, 0x80, Pow128(n - 2 - i), Pow128(n - 1 - i));
    }
  }

  /** The bytes at a place of a buffer are those. */
  ghost predicate Lies(s: seq<byte>, buf: seq<byte>, at: nat) {
    at + |s| <= |buf| && buf[at..at + |s|] == s
  }

  /**
   A number is read from `size` bytes at most. The number written there is read and its size
   returned; if the bytes end before the number does, nothing is.
   */
  method ReadVarNum(buf: seq<byte>, at: nat, size: int, ghost num: nat) returns (step: nat, n: nat)
    requires 0 <= size && at + size <= |buf|
    ensures Lies(VarNum(num), buf, at) && |VarNum(num)| <= size ==> step == |VarNum(num)| && n == num
    ensures step <= size
    ensures (forall i :: at <= i < at + size ==> buf[i] >= 0x80) ==> step == 0
  {
    VarNumValue(num);
    VarNumMarked(num);
    ghost var s, lies := VarNum(num), Lies(VarNum(num), buf, at) && |VarNum(num)| <= size;
    n, step := 0, 0;
    while true
      invariant 0 <= step <= size
      invariant forall i :: at <= i < at + step ==> buf[i] >= 0x80
      invariant lies ==> step < |s| && n == VarValue(s, step)
      decreases size - step
    {
      if step >= size {
        return 0, 0;
      }
      var c := buf[at + step];
      if lies { assert c == buf[at..at + |s|][step] == s[step]; }
      n := n * 0x80 + c % 0x80;
      step := step + 1;
      if c < 0x80 {
        return;
      }
    }
  }

  // ---------------------------------------------------------------- buffers

  /** A run of bytes goes where the pointer is, which moves past it. */
  method Put(buf: array<byte>, wp: nat, s: seq<byte>, ghost done: seq<byte>) returns (rp: nat)
    requires wp + |s| <= buf.Length && buf[..wp] == done
    modifies buf
    ensures rp == wp + |s| && buf[..rp] == done + s
  {
    forall i | 0 <= i < |s| {
      buf[wp + i] := s[i];
    }
    rp := wp + |s|;
  }
}
