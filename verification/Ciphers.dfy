/**
 The compressors that encrypt: a keystream cipher, and a block cipher that chains the blocks of the
 plain text.
 */
module Ciphers {
  import opened Basics
  import opened ByteCodec

  // ---------------------------------------------------------------- exclusive or

  /** Bit by bit, the lowest one last. */
  function XorBits(a: nat, b: nat, bits: nat): nat {
    if bits == 0 then 0 else 2 * XorBits(a / 2, b / 2, bits - 1) + XorBit(a % 2, b % 2)
  }

  function XorBit(a: nat, b: nat): nat {
    if a == b then 0 else 1
  }

  function Power(bits: nat): nat {
    if bits == 0 then 1 else 2 * Power(bits - 1)
  }

  lemma Halves(x: nat, half: nat, bit: nat)
    requires x == 2 * half + bit && bit < 2
    ensures x / 2 == half && x % 2 == bit
  {
  }

  lemma {:induction false} XorBitsBack(a: nat, b: nat, bits: nat)
    requires a < Power(bits)
    ensures XorBits(a, b, bits) < Power(bits) && XorBits(XorBits(a, b, bits), b, bits) == a
  {
    if bits > 0 {
      XorBitsBack(a / 2, b / 2, bits - 1);
      Halves(XorBits(a, b, bits), XorBits(a / 2, b / 2, bits - 1), XorBit(a % 2, b % 2));
    }
  }

  function Xor(a: byte, b: byte): (c: byte) {
    XorBitsBack(a, b, 8);
    XorBits(a, b, 8)
  }

  lemma XorBack(a: byte, b: byte)
    ensures Xor(Xor(a, b), b) == a
  {
    XorBitsBack(a, b, 8);
  }

  /** The i-th bit of a number, from the lowest one on. */
  ghost predicate Bit(a: nat, i: nat) {
    if i == 0 then a % 2 == 1 else Bit(a / 2, i - 1)
  }

  lemma {:induction false} XorBitsIs(a: nat, b: nat, bits: nat, i: nat)
    requires i < bits
    ensures Bit(XorBits(a, b, bits), i) <==> Bit(a, i) != Bit(b, i)
  {
    Halves(XorBits(a, b, bits), XorBits(a / 2, b / 2, bits - 1), XorBit(a % 2, b % 2));
    if i > 0 { XorBitsIs(a / 2, b / 2, bits - 1, i - 1); }
  }

  /** A bit of the result is set if and only if just one of the two is, */
  lemma XorIs(a: byte, b: byte, i: nat)
    requires i < 8
    ensures Bit(Xor(a, b), i) <==> Bit(a, i) != Bit(b, i)
  {
    XorBitsIs(a, b, 8, i);
  }

  /** and there is only one byte with given bits. */
  lemma {:induction false} BitsDecide(a: nat, b: nat, bits: nat)
    requires a < Power(bits) && b < Power(bits) && forall i :: 0 <= i < bits ==> Bit(a, i) == Bit(b, i)
    ensures a == b
  {
    if bits > 0 {
      assert Bit(a, 0) == Bit(b, 0);
      forall i | 0 <= i < bits - 1
        ensures Bit(a / 2, i) == Bit(b / 2, i)
      {
        assert Bit(a, i + 1) == Bit(b, i + 1);
      }
      BitsDecide(a / 2, b / 2, bits - 1);
    }
  }

  // ---------------------------------------------------------------- the keystream cipher

  const IV_SIZE := 6
  const SBOX_SIZE := 0x100

  /** Every byte is in the box, and none of them twice. */
  ghost predicate IsPermutation(s: seq<byte>) {
    && |s| == SBOX_SIZE && (forall i, j :: 0 <= i < j < |s| ==> s[i] != s[j])
    && (forall v: byte :: v in s)
  }

  function Ascending(): (s: seq<byte>)
    ensures |s| == SBOX_SIZE && forall i :: 0 <= i < SBOX_SIZE ==> s[i] == i
  {
    seq(SBOX_SIZE, (i: int) requires 0 <= i < SBOX_SIZE => i)
  }

  function Swapped(s: seq<byte>, i: byte, j: byte): (t: seq<byte>)
    requires |s| == SBOX_SIZE
    ensures |t| == SBOX_SIZE
  {
    s[i := s[j]][j := s[i]]
  }

  lemma SwappedIsPermutation(s: seq<byte>, i: byte, j: byte)
    requires IsPermutation(s)
    ensures IsPermutation(Swapped(s, i, j))
  {
    var t := Swapped(s, i, j);
    forall v: byte ensures v in t {
      assert v in s;
      var k :| 0 <= k < |s| && s[k] == v;
      assert t[if k == i then j else if k == j then i else k] == v;
    }
  }

  lemma SwappedIs(s: seq<byte>, i: byte, j: byte, k: byte)
    requires |s| == SBOX_SIZE
    ensures Swapped(s, i, j)[k] == s[if k == i then j else if k == j then i else k]
  {
  }

  /** The bytes that mix the box: the key and the initial vector, over and over. */
  function KeyByte(key: seq<byte>, iv: seq<byte>, i: nat): byte
    requires |iv| == IV_SIZE
  {
    var k := i % (|key| + IV_SIZE);
    if k < |key| then key[k] else iv[k - |key|]
  }

  lemma KeyByteIs(key: seq<byte>, iv: seq<byte>, i: nat)
    requires |iv| == IV_SIZE
    ensures KeyByte(key, iv, i) == (key + iv)[i % |key + iv|]
  {
  }

  datatype Mixing = Mixing(box: seq<byte>, at: byte)

  function Mixed(key: seq<byte>, iv: seq<byte>, n: nat): (m: Mixing)
    requires |iv| == IV_SIZE && n <= SBOX_SIZE
    ensures |m.box| == SBOX_SIZE
  {
    if n == 0 then Mixing(Ascending(), 0)
    else
      var m := Mixed(key, iv, n - 1);
      var at := (m.at + m.box[n - 1] + KeyByte(key, iv, n - 1)) % SBOX_SIZE;
      Mixing(Swapped(m.box, n - 1, at), at)
  }

  datatype Stream = Stream(box: seq<byte>, x: byte, y: byte)

  /** The state of the stream when it has given `n` bytes. */
  function Given(box: seq<byte>, n: nat): (t: Stream)
    requires |box| == SBOX_SIZE
    ensures |t.box| == SBOX_SIZE
  {
    if n == 0 then Stream(box, 0, 0)
    else
      var t := Given(box, n - 1);
      var x := (t.x + 1) % SBOX_SIZE;
      var y := (t.y + t.box[x]) % SBOX_SIZE;
      Stream(Swapped(t.box, x, y), x, y)
  }

  /** The byte it has given last. */
  function LastGiven(t: Stream): byte
    requires |t.box| == SBOX_SIZE
  {
    t.box[(t.box[t.x] + t.box[t.y]) % SBOX_SIZE]
  }

  /** The first `n` bytes, each with its byte of the stream. */
  function Crypted(s: seq<byte>, box: seq<byte>, n: nat): (t: seq<byte>)
    requires |box| == SBOX_SIZE && n <= |s|
    ensures |t| == n
  {
    if n == 0 then [] else Crypted(s, box, n - 1) + [Xor(s[n - 1], LastGiven(Given(box, n)))]
  }

  /** How the box is mixed: every entry in turn is swapped with one the key leads on to. */
  lemma MixedIs(key: seq<byte>, iv: seq<byte>, n: nat, m: nat, k: byte)
    requires |iv| == IV_SIZE && m == n + 1 <= SBOX_SIZE
    ensures Mixed(key, iv, 0).box[k] == k && Mixed(key, iv, 0).at == 0
    ensures var before, after := Mixed(key, iv, n), Mixed(key, iv, m);
            && after.at == (before.at + before.box[n] + (key + iv)[n % |key + iv|]) % SBOX_SIZE
            && after.box[k] == before.box[if k == n then after.at else if k == after.at then n else k]
  {
    KeyByteIs(key, iv, n);
    SwappedIs(Mixed(key, iv, n).box, n, Mixed(key, iv, m).at, k);
  }

  /** How the stream goes on: two entries are swapped, */
  lemma GivenIs(box: seq<byte>, n: nat, m: nat, before: Stream, after: Stream, k: byte)
    requires |box| == SBOX_SIZE && m == n + 1 && before == Given(box, n) && after == Given(box, m)
    ensures after.x == (before.x + 1) % SBOX_SIZE && after.y == (before.y + before.box[after.x]) % SBOX_SIZE
    ensures after.box[k] == before.box[if k == after.x then after.y else if k == after.y then after.x else k]
  {
    SwappedIs(before.box, after.x, after.y, k);
  }

  /** and together they lead to the byte given. It begins with the box as it is. */
  lemma LastGivenIs(box: seq<byte>, t: Stream)
    requires |box| == |t.box| == SBOX_SIZE
    ensures LastGiven(t) == t.box[(t.box[t.x] + t.box[t.y]) % SBOX_SIZE]
    ensures Given(box, 0) == Stream(box, 0, 0)
  {
  }

  lemma {:induction false} MixedIsPermutation(key: seq<byte>, iv: seq<byte>, n: nat)
    requires |iv| == IV_SIZE && n <= SBOX_SIZE
    ensures IsPermutation(Mixed(key, iv, n).box)
  {
    if n == 0 {
      forall v: byte ensures v in Ascending() { assert Ascending()[v] == v; }
    } else {
      MixedIsPermutation(key, iv, n - 1);
      SwappedIsPermutation(Mixed(key, iv, n - 1).box, n - 1, Mixed(key, iv, n).at);
    }
  }

  /** The box is a permutation of all bytes whatever the key, however much has been encrypted. */
  lemma {:induction false} BoxIsPermutation(key: seq<byte>, iv: seq<byte>, n: nat)
    requires |iv| == IV_SIZE
    ensures IsPermutation(Given(Box(key, iv), n).box)
  {
    var box := Box(key, iv);
    if n == 0 {
      MixedIsPermutation(key, iv, SBOX_SIZE);
    } else {
      BoxIsPermutation(key, iv, n - 1);
      var t := Given(box, n);
      SwappedIsPermutation(Given(box, n - 1).box, t.x, t.y);
    }
  }

  lemma {:induction false} CryptedTwice(s: seq<byte>, box: seq<byte>, n: nat, t: seq<byte>, m: nat)
    requires |box| == SBOX_SIZE && n <= m <= |s| && t == Crypted(s, box, m)
    ensures Crypted(t, box, n) == s[..n]
  {
    if n > 0 {
      CryptedTwice(s, box, n - 1, t, m);
      CryptedAt(s, box, m, n - 1);
      OneMoreBack(s, box, n, t, s[n - 1], LastGiven(Given(box, n)));
    }
  }

  lemma OneMoreBack(s: seq<byte>, box: seq<byte>, n: nat, t: seq<byte>, b: byte, k: byte)
    requires |box| == SBOX_SIZE && 0 < n <= |s| && n <= |t| && b == s[n - 1] && k == LastGiven(Given(box, n))
    requires Crypted(t, box, n - 1) == s[..n - 1] && t[n - 1] == Xor(b, k)
    ensures Crypted(t, box, n) == s[..n]
  {
    XorBack(b, k);
  }

  lemma {:induction false} CryptedAt(s: seq<byte>, box: seq<byte>, n: nat, i: nat)
    requires |box| == SBOX_SIZE && i < n <= |s|
    ensures Crypted(s, box, n)[i] == Xor(s[i], LastGiven(Given(box, i + 1)))
  {
    if i < n - 1 { CryptedAt(s, box, n - 1, i); }
  }

  lemma CryptedNext(s: seq<byte>, box: seq<byte>, n: nat, k: byte, b: byte, done: seq<byte>)
    requires |box| == SBOX_SIZE && 0 < n <= |s| && k == LastGiven(Given(box, n)) && b == Xor(s[n - 1], k)
    ensures done + Crypted(s, box, n) == done + Crypted(s, box, n - 1) + [b]
  {
  }

  function Encrypted(s: seq<byte>, box: seq<byte>): (t: seq<byte>)
    requires |box| == SBOX_SIZE
    ensures |t| == |s|
  {
    Crypted(s, box, |s|)
  }

  /** Encrypting is its own inverse. */
  lemma EncryptedTwice(s: seq<byte>, box: seq<byte>)
    requires |box| == SBOX_SIZE
    ensures Encrypted(Encrypted(s, box), box) == s
  {
    CryptedTwice(s, box, |s|, Crypted(s, box, |s|), |s|);
  }

  function Box(key: seq<byte>, ivp: seq<byte>): (box: seq<byte>)
    requires |ivp| == IV_SIZE
    ensures |box| == SBOX_SIZE
  {
    Mixed(key, ivp, SBOX_SIZE).box
  }

  /** What the compressor makes of a string: the initial vector, and the string encrypted. */
  function RC4Compressed(key: seq<byte>, s: seq<byte>, iv: nat): (t: seq<byte>)
    ensures |t| == IV_SIZE + |s|
  {
    var ivp := FixNum(iv, IV_SIZE);
    ivp + Encrypted(s, Box(key, ivp))
  }

  function RC4Decompressed(key: seq<byte>, t: seq<byte>): Option<seq<byte>> {
    if |t| < IV_SIZE then None else Some(Encrypted(t[IV_SIZE..], Box(key, t[..IV_SIZE])))
  }

  /** The vector comes first, and then each byte combined with one more byte of the stream. */
  lemma RC4CompressedIs(key: seq<byte>, s: seq<byte>, iv: nat, i: nat)
    requires i < |s|
    ensures var ivp := FixNum(iv, IV_SIZE);
            && RC4Compressed(key, s, iv)[..IV_SIZE] == ivp
            && RC4Compressed(key, s, iv)[IV_SIZE + i]
               == Xor(s[i], LastGiven(Given(Mixed(key, ivp, SBOX_SIZE).box, i + 1)))
  {
    CryptedAt(s, Box(key, FixNum(iv, IV_SIZE)), |s|, i);
  }

  /** Decompressing gives the string back, whatever key and vector. */
  lemma RC4RoundTrip(key: seq<byte>, s: seq<byte>, iv: nat)
    ensures RC4Decompressed(key, RC4Compressed(key, s, iv)) == Some(s)
  {
    var ivp := FixNum(iv, IV_SIZE);
    var t := RC4Compressed(key, s, iv);
    EncryptedTwice(s, Box(key, ivp));
    assert t[..IV_SIZE] == ivp && t[IV_SIZE..] == Encrypted(s, Box(key, ivp));
  }

  /** Nothing else decompresses to the string: what does is the string compressed with the vector in front. */
  lemma RC4OnlyCompressed(key: seq<byte>, t: seq<byte>, s: seq<byte>)
    ensures RC4Decompressed(key, t) == Some(s) <==>
              |t| >= IV_SIZE && t == RC4Compressed(key, s, FixValue(t[..IV_SIZE]))
  {
    if |t| >= IV_SIZE {
      var ivp := t[..IV_SIZE];
      FixValueRoundTrip(ivp, IV_SIZE);
      EncryptedTwice(t[IV_SIZE..], Box(key, ivp));
      assert t == ivp + t[IV_SIZE..];
      RC4RoundTrip(key, s, FixValue(ivp));
    }
  }

  class RC4Compressor {
    const key: seq<byte>

    constructor (key: seq<byte>)
      ensures this.key == key
    {
      this.key := key;
    }

    /** The box in ascending order, and the bytes of the key and the vector in turn. */
    method FillBoxes(ivp: seq<byte>) returns (sbox: array<byte>, kbox: array<byte>)
      requires |ivp| == IV_SIZE
      ensures fresh(sbox) && fresh(kbox) && sbox.Length == kbox.Length == SBOX_SIZE && sbox != kbox
      ensures sbox[..] == Ascending()
      ensures forall k :: 0 <= k < SBOX_SIZE ==> kbox[k] == KeyByte(key, ivp, k)
    {
      sbox := new byte[SBOX_SIZE];
      kbox := new byte[SBOX_SIZE];
      for i := 0 to SBOX_SIZE
        invariant forall k :: 0 <= k < i ==> sbox[k] == k && kbox[k] == KeyByte(key, ivp, k)
      {
        sbox[i] := i;
        var k := i % (|key| + IV_SIZE);
        kbox[i] := if k < |key| then key[k] else ivp[k - |key|];
      }
    }

    /** The box is mixed by the key and the vector. */
    method MakeBox(ivp: seq<byte>) returns (sbox: array<byte>)
      requires |ivp| == IV_SIZE
      ensures fresh(sbox) && sbox[..] == Box(key, ivp)
    {
      var kbox;
      sbox, kbox := FillBoxes(ivp);
      var sidx: byte := 0;
      for i := 0 to SBOX_SIZE
        invariant forall k :: 0 <= k < SBOX_SIZE ==> kbox[k] == KeyByte(key, ivp, k)
        invariant Mixed(key, ivp, i) == Mixing(sbox[..], sidx)
      {
        sidx := (sidx + sbox[i] + kbox[i]) % SBOX_SIZE;
        Swap(sbox, i, sidx);
      }
    }

    method Swap(sbox: array<byte>, i: byte, j: byte)
      requires sbox.Length == SBOX_SIZE
      modifies sbox
      ensures sbox[..] == Swapped(old(sbox[..]), i, j)
    {
      sbox[i], sbox[j] := sbox[j], sbox[i];
    }

    /** The next byte of the stream. */
    method Next(sbox: array<byte>, x: byte, y: byte, ghost box: seq<byte>, ghost n: nat)
      returns (x': byte, y': byte, k: byte)
      requires sbox.Length == SBOX_SIZE && |box| == SBOX_SIZE && n > 0 && Given(box, n - 1) == Stream(sbox[..], x, y)
      modifies sbox
      ensures Given(box, n) == Stream(sbox[..], x', y') && k == LastGiven(Given(box, n))
    {
      x' := (x + 1) % SBOX_SIZE;
      y' := (y + sbox[x']) % SBOX_SIZE;
      Swap(sbox, x', y');
      k := sbox[(sbox[x'] + sbox[y']) % SBOX_SIZE];
    }

    /** The bytes are encrypted one after the other, while the box goes on being mixed. */
    method Crypt(sbox: array<byte>, buf: seq<byte>, res: array<byte>, at: nat, ghost done: seq<byte>)
      requires sbox.Length == SBOX_SIZE && at + |buf| == res.Length && sbox != res && res[..at] == done
      modifies sbox, res
      ensures res[..] == done + Encrypted(buf, old(sbox[..]))
    {
      ghost var box := sbox[..];
      var rp := 0;
      var wp := at;
      var x: byte, y: byte := 0, 0;
      while rp < |buf|
        invariant rp <= |buf| && wp == at + rp
        invariant Given(box, rp) == Stream(sbox[..], x, y)
        invariant res[..wp] == done + Crypted(buf, box, rp)
      {
        var k;
        x, y, k := Next(sbox, x, y, box, rp + 1);
        ghost var was := done + Crypted(buf, box, rp);
        wp := Put(res, wp, [Xor(buf[rp], k)], was);
        CryptedNext(buf, box, rp + 1, k, Xor(buf[rp], k), done);
        rp := rp + 1;
      }
    }

    method Compress(buf: seq<byte>, iv: nat) returns (res: array<byte>)
      ensures fresh(res) && res[..] == RC4Compressed(key, buf, iv)
      ensures RC4Decompressed(key, res[..]) == Some(buf)
    {
      res := new byte[|buf| + IV_SIZE];
      var ivp := FixNum(iv, IV_SIZE);
      var wp := Put(res, 0, ivp, []);
      var sbox := MakeBox(ivp);
      Crypt(sbox, buf, res, wp, ivp);
      RC4RoundTrip(key, buf, iv);
    }

    method Decompress(buf: seq<byte>) returns (res: Option<seq<byte>>)
      ensures res == RC4Decompressed(key, buf)
      ensures res.Some? ==> buf == RC4Compressed(key, res.value, FixValue(buf[..IV_SIZE]))
    {
      if |buf| < IV_SIZE {
        return None;
      }
      var sbox := MakeBox(buf[..IV_SIZE]);
      var out := new byte[|buf| - IV_SIZE];
      Crypt(sbox, buf[IV_SIZE..], out, 0, []);
      res := Some(out[..]);
      RC4OnlyCompressed(key, buf, out[..]);
    }
  }
}
