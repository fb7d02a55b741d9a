/**
 The compressor that encrypts by blocks: every block of the plain text is combined with the one
 before it and then encrypted; the last one tells how many of its bytes count.

 `next` is the number after `round`: contracts name it, so that what one block's step ensures is
 literally what the next one requires.
 */
module BlockChaining {
  import opened Basics
  import opened ByteCodec
  import Ciphers

  const BLOCK := 16

  /** A block cipher, of which nothing matters but that each direction undoes the other. */
  datatype BlockCipher = BlockCipher(encrypt: seq<byte> -> seq<byte>, decrypt: seq<byte> -> seq<byte>)

  ghost predicate InvertsAt(c: BlockCipher, b: seq<byte>) {
    |c.encrypt(b)| == BLOCK && |c.decrypt(b)| == BLOCK && c.decrypt(c.encrypt(b)) == b && c.encrypt(c.decrypt(b)) == b
  }

  ghost predicate Invertible(c: BlockCipher) {
    forall b: seq<byte> :: |b| == BLOCK ==> InvertsAt(c, b)
  }

  /** Two functions that undo each other on blocks are such a cipher. */
  lemma AnyInverseDoes(c: BlockCipher)
    requires forall b: seq<byte> {:trigger c.encrypt(b), c.decrypt(b)} :: |b| == BLOCK ==>
               |c.encrypt(b)| == BLOCK && |c.decrypt(b)| == BLOCK
    requires forall b: seq<byte> {:trigger c.decrypt(c.encrypt(b))} :: |b| == BLOCK ==> c.decrypt(c.encrypt(b)) == b
    requires forall b: seq<byte> {:trigger c.encrypt(c.decrypt(b))} :: |b| == BLOCK ==> c.encrypt(c.decrypt(b)) == b
    ensures Invertible(c)
  {
    forall b: seq<byte> | |b| == BLOCK
      ensures InvertsAt(c, b)
    {
      assert c.decrypt(c.encrypt(b)) == b && c.encrypt(c.decrypt(b)) == b;
    }
  }

  function Enc(c: BlockCipher, b: seq<byte>): (e: seq<byte>)
    requires Invertible(c) && |b| == BLOCK
    ensures |e| == BLOCK && Dec(c, e) == b
  {
    assert InvertsAt(c, b);
    c.encrypt(b)
  }

  function Dec(c: BlockCipher, b: seq<byte>): (e: seq<byte>)
    requires Invertible(c) && |b| == BLOCK
    ensures |e| == BLOCK && c.encrypt(e) == b
  {
    assert InvertsAt(c, b);
    c.decrypt(b)
  }

  // ---------------------------------------------------------------- blocks

  function BlockAt(s: seq<byte>, k: nat): (b: seq<byte>)
    requires BLOCK * k + BLOCK <= |s|
    ensures |b| == BLOCK
  {
    s[BLOCK * k..BLOCK * k + BLOCK]
  }

  function XorBlock(a: seq<byte>, b: seq<byte>): (r: seq<byte>)
    requires |a| == |b| == BLOCK
    ensures |r| == BLOCK && forall i {:trigger r[i]} :: 0 <= i < BLOCK ==> r[i] == Ciphers.Xor(a[i], b[i])
  {
    seq(BLOCK, (i: int) requires 0 <= i < BLOCK => Ciphers.Xor(a[i], b[i]))
  }

  lemma XorBlockBack(a: seq<byte>, b: seq<byte>)
    requires |a| == |b| == BLOCK
    ensures XorBlock(XorBlock(a, b), b) == a
  {
    forall i | 0 <= i < BLOCK ensures XorBlock(XorBlock(a, b), b)[i] == a[i] {
      Ciphers.XorBack(a[i], b[i]);
    }
  }

  /** The block with the last bytes; where there are none, it holds their number. */
  function Tail(rest: seq<byte>, b: seq<byte>): (r: seq<byte>)
    requires |rest| < BLOCK == |b|
    ensures |r| == BLOCK
    ensures forall i {:trigger r[i]} :: 0 <= i < BLOCK ==>
            r[i] == if i < |rest| then Ciphers.Xor(rest[i], b[i]) else |rest|
  {
    seq(BLOCK, (i: int) requires 0 <= i < BLOCK => if i < |rest| then Ciphers.Xor(rest[i], b[i]) else |rest|)
  }

  /** The block that a block is combined with. */
  function Before(s: seq<byte>, iv: seq<byte>, k: nat): (b: seq<byte>)
    requires BLOCK * k <= |s| && |iv| == BLOCK
    ensures |b| == BLOCK
  {
    if k == 0 then iv else BlockAt(s, k - 1)
  }

  /** A block of the plain text encrypted, */
  function Encrypted(c: BlockCipher, s: seq<byte>, iv: seq<byte>, k: nat): (b: seq<byte>)
    requires Invertible(c) && BLOCK * k + BLOCK <= |s| && |iv| == BLOCK
    ensures |b| == BLOCK
  {
    Enc(c, XorBlock(BlockAt(s, k), Before(s, iv, k)))
  }

  /** and a block decrypted, when the blocks before it have been. */
  function Decrypted(c: BlockCipher, b: seq<byte>, p: seq<byte>, iv: seq<byte>, k: nat): (d: seq<byte>)
    requires Invertible(c) && |b| == BLOCK && BLOCK * k <= |p| && |iv| == BLOCK
    ensures |d| == BLOCK
  {
    XorBlock(Dec(c, b), Before(p, iv, k))
  }

  // ---------------------------------------------------------------- round trip

  /** What the compressor makes of a string: the vector, the whole blocks and the tail, each encrypted. */
  ghost predicate IsCompressed(c: BlockCipher, s: seq<byte>, iv: seq<byte>, z: seq<byte>, n: nat)
    requires Invertible(c) && |iv| == BLOCK
  {
    && BLOCK * n <= |s| < BLOCK * n + BLOCK && |z| == BLOCK * n + 2 * BLOCK && BlockAt(z, 0) == Enc(c, iv)
    && BlocksEncrypted(c, s, iv, z, n)
    && BlockAt(z, n + 1) == Enc(c, Tail(s[BLOCK * n..], Before(s, iv, n)))
  }

  ghost predicate BlocksEncrypted(c: BlockCipher, s: seq<byte>, iv: seq<byte>, z: seq<byte>, n: nat)
    requires Invertible(c) && |iv| == BLOCK
  {
    forall k :: 0 <= k < n ==> EncryptedAt(c, s, iv, z, k)
  }

  ghost predicate EncryptedAt(c: BlockCipher, s: seq<byte>, iv: seq<byte>, z: seq<byte>, k: nat)
    requires Invertible(c) && |iv| == BLOCK
  {
    && BLOCK * k + BLOCK <= |s| && BLOCK * k + 2 * BLOCK <= |z|
    && BlockAt(z, k + 1) == Encrypted(c, s, iv, k)
  }

  /** Byte by byte: each block is combined with the one before it, the first with the vector, and the last is filled. */
  lemma CompressedIs(c: BlockCipher, s: seq<byte>, iv: seq<byte>, z: seq<byte>, n: nat, k: nat, i: nat)
    requires Invertible(c) && |iv| == BLOCK && IsCompressed(c, s, iv, z, n) && k <= n && i < BLOCK
    ensures Dec(c, BlockAt(z, 0)) == iv
    ensures var before := if k == 0 then iv[i] else s[BLOCK * k - BLOCK + i];
            Dec(c, BlockAt(z, k + 1))[i]
            == if BLOCK * k + i < |s| then Ciphers.Xor(s[BLOCK * k + i], before) else |s| - BLOCK * n
  {
    if k < n { assert EncryptedAt(c, s, iv, z, k); }
  }

  /** What it makes of its result: the plain text of the blocks after the vector. */
  ghost predicate IsPlain(c: BlockCipher, z: seq<byte>, p: seq<byte>, n: nat)
    requires Invertible(c)
  {
    && |p| == BLOCK * n && |z| == BLOCK * n + BLOCK
    && forall k :: 0 <= k < n ==> PlainAt(c, z, Dec(c, BlockAt(z, 0)), p, k)
  }

  ghost predicate PlainAt(c: BlockCipher, z: seq<byte>, iv: seq<byte>, p: seq<byte>, k: nat)
    requires Invertible(c) && |iv| == BLOCK
  {
    && BLOCK * k + BLOCK <= |p| && BLOCK * k + 2 * BLOCK <= |z|
    && BlockAt(p, k) == Decrypted(c, BlockAt(z, k + 1), p, iv, k)
  }

  /** Byte by byte: each block is combined with the plain text of the one before it. */
  lemma PlainIs(c: BlockCipher, z: seq<byte>, p: seq<byte>, n: nat, k: nat, i: nat)
    requires Invertible(c) && IsPlain(c, z, p, n) && k < n && i < BLOCK
    ensures p[BLOCK * k + i] ==
              Ciphers.Xor(Dec(c, BlockAt(z, k + 1))[i], if k
                          == 0 then Dec(c, BlockAt(z, 0))[i] else p[BLOCK * k - BLOCK + i])
  {
    assert PlainAt(c, z, Dec(c, BlockAt(z, 0)), p, k);
    assert p[BLOCK * k + i] == BlockAt(p, k)[i];
  }

  /** A whole block is decrypted to what it was, if the one before it has been. */
  lemma BlockBack(c: BlockCipher, s: seq<byte>, iv: seq<byte>, z: seq<byte>, p: seq<byte>, k: nat)
    requires Invertible(c) && |iv| == BLOCK && EncryptedAt(c, s, iv, z, k) && PlainAt(c, z, iv, p, k)
    requires Before(p, iv, k) == Before(s, iv, k)
    ensures BlockAt(p, k) == BlockAt(s, k)
  {
    XorBlockBack(BlockAt(s, k), Before(s, iv, k));
  }

  /** So every one is. */
  lemma {:induction false} BeforeBack(c: BlockCipher, s: seq<byte>, iv: seq<byte>, z: seq<byte>, n: nat, p: seq<byte>,
                                      k: nat)
    requires Invertible(c) && |iv| == BLOCK && IsCompressed(c, s, iv, z, n) && IsPlain(c, z, p, n + 1) && k <= n
    ensures Before(p, iv, k) == Before(s, iv, k)
  {
    if k > 0 {
      BeforeBack(c, s, iv, z, n, p, k - 1);
      BlockBack(c, s, iv, z, p, k - 1);
    }
  }

  /** The last block has the rest of the string in front, and its number of bytes at the end. */
  lemma TailBack(c: BlockCipher, s: seq<byte>, iv: seq<byte>, z: seq<byte>, n: nat, p: seq<byte>)
    requires Invertible(c) && |iv| == BLOCK && IsCompressed(c, s, iv, z, n) && IsPlain(c, z, p, n + 1)
    ensures Dec(c, BlockAt(z, n + 1))[BLOCK - 1] == |s| - BLOCK * n
    ensures forall i :: 0 <= i < |s| - BLOCK * n ==> BlockAt(p, n)[i] == s[BLOCK * n..][i]
  {
    BeforeBack(c, s, iv, z, n, p, n);
    var b, rest := Before(s, iv, n), s[BLOCK * n..];
    assert PlainAt(c, z, iv, p, n);
    var d := BlockAt(p, n);
    forall i | 0 <= i < |rest| ensures d[i] == rest[i] {
      Ciphers.XorBack(rest[i], b[i]);
    }
  }

  /** Strings are the same if their blocks are, and what is left. */
  lemma ByBlocks(s: seq<byte>, p: seq<byte>, n: nat)
    requires BLOCK * n <= |s| < BLOCK * n + BLOCK == |p|
    requires forall k :: 0 <= k < n ==> BlockAt(p, k) == BlockAt(s, k)
    requires forall i :: 0 <= i < |s| - BLOCK * n ==> BlockAt(p, n)[i] == s[BLOCK * n..][i]
    ensures p[..|s|] == s
  {
    forall i | 0 <= i < |s| ensures p[i] == s[i] {
      var k, j := i / BLOCK, i % BLOCK;
      assert BlockAt(p, k)[j] == p[i];
      if k < n { assert BlockAt(s, k)[j] == s[i]; } else { assert s[BLOCK * n..][j] == s[i]; }
    }
  }

  /** Decompressing gives the string back, with the exact length. */
  lemma AESRoundTrip(c: BlockCipher, s: seq<byte>, iv: seq<byte>, z: seq<byte>, n: nat, p: seq<byte>)
    requires Invertible(c) && |iv| == BLOCK && IsCompressed(c, s, iv, z, n) && IsPlain(c, z, p, n + 1)
    ensures Dec(c, BlockAt(z, n + 1))[BLOCK - 1] == |s| - BLOCK * n
    ensures p[..|s|] == s
  {
    TailBack(c, s, iv, z, n, p);
    forall k | 0 <= k < n ensures BlockAt(p, k) == BlockAt(s, k) {
      BeforeBack(c, s, iv, z, n, p, k + 1);
    }
    ByBlocks(s, p, n);
  }

  /** Whatever decompresses to a string, with a tail as the compressor makes them, is the string compressed. */
  lemma AESOnlyCompressed(c: BlockCipher, z: seq<byte>, n: nat, p: seq<byte>, iv: seq<byte>, d: seq<byte>, s: seq<byte>)
    requires Invertible(c) && IsPlain(c, z, p, n + 1) && iv == Dec(c, BlockAt(z, 0)) && d == Dec(c, BlockAt(z, n + 1))
    requires s <= p && BLOCK * n <= |s| < BLOCK * n + BLOCK
    requires forall i :: |s| - BLOCK * n <= i < BLOCK ==> d[i] == |s| - BLOCK * n
    ensures IsCompressed(c, s, iv, z, n)
  {
    forall k | 0 <= k < n ensures EncryptedAt(c, s, iv, z, k) {
      assert PlainAt(c, z, iv, p, k);
      BlockOnly(c, z, p, iv, s, k);
    }
    assert PlainAt(c, z, iv, p, n);
    BeforePrefix(p, s, iv, n);
    TailOnly(s[BLOCK * n..], BlockAt(p, n), Before(s, iv, n), d);
  }

  lemma BlockOnly(c: BlockCipher, z: seq<byte>, p: seq<byte>, iv: seq<byte>, s: seq<byte>, k: nat)
    requires Invertible(c) && |iv| == BLOCK && PlainAt(c, z, iv, p, k) && s <= p && BLOCK * k + BLOCK <= |s|
    ensures EncryptedAt(c, s, iv, z, k)
  {
    BeforePrefix(p, s, iv, k);
    assert BlockAt(s, k) == BlockAt(p, k);
    XorBlockBack(Dec(c, BlockAt(z, k + 1)), Before(p, iv, k));
  }

  lemma TailOnly(rest: seq<byte>, e: seq<byte>, b: seq<byte>, d: seq<byte>)
    requires |rest| < BLOCK == |b| == |d| && rest <= e && e == XorBlock(d, b)
    requires forall i :: |rest| <= i < BLOCK ==> d[i] == |rest|
    ensures Tail(rest, b) == d
  {
    forall i | 0 <= i < |rest| ensures Tail(rest, b)[i] == d[i] {
      Ciphers.XorBack(d[i], b[i]);
    }
  }

  lemma BeforePrefix(p: seq<byte>, s: seq<byte>, iv: seq<byte>, k: nat)
    requires s <= p && BLOCK * k <= |s| && |iv| == BLOCK
    ensures Before(s, iv, k) == Before(p, iv, k)
  {
    if k > 0 { assert BlockAt(s, k - 1) == BlockAt(p, k - 1); }
  }

  // ---------------------------------------------------------------- the compressor

  lemma BlockOfJoin(z: seq<byte>, b: seq<byte>, t: seq<byte>, k: nat)
    requires t == z + b && BLOCK * k + BLOCK <= |z|
    ensures BlockAt(t, k) == BlockAt(z, k)
  {
  }

  /** The blocks encrypted so far, and one more. */
  lemma EncryptedGrows(c: BlockCipher, s: seq<byte>, iv: seq<byte>, z: seq<byte>, n: nat, b: seq<byte>, t: seq<byte>)
    requires Invertible(c) && |iv| == |b| == BLOCK && BlocksEncrypted(c, s, iv, z, n) && |z| == BLOCK * n + BLOCK
             && t == z + b
    ensures BlockAt(t, 0) == BlockAt(z, 0) && BlockAt(t, n + 1) == b
    ensures BlocksEncrypted(c, s, iv, t, n)
  {
    BlockOfJoin(z, b, t, 0);
    forall k | 0 <= k < n ensures EncryptedAt(c, s, iv, t, k) {
      assert EncryptedAt(c, s, iv, z, k);
      BlockOfJoin(z, b, t, k + 1);
    }
  }

  ghost predicate BlocksPlain(c: BlockCipher, z: seq<byte>, iv: seq<byte>, p: seq<byte>, n: nat)
    requires Invertible(c) && |iv| == BLOCK
  {
    forall k :: 0 <= k < n ==> PlainAt(c, z, iv, p, k)
  }

  /** The blocks decrypted so far, and one more. */
  lemma PlainGrows(c: BlockCipher, z: seq<byte>, iv: seq<byte>, p: seq<byte>, n: nat, b: seq<byte>, t: seq<byte>)
    requires Invertible(c) && |iv| == |b| == BLOCK && BlocksPlain(c, z, iv, p, n) && |p| == BLOCK * n && t == p + b
    requires BLOCK * n + 2 * BLOCK <= |z| && b == Decrypted(c, BlockAt(z, n + 1), p, iv, n)
    ensures BlocksPlain(c, z, iv, t, n + 1)
  {
    forall k | 0 <= k < n ensures PlainAt(c, z, iv, t, k) {
      PlainAtJoin(c, z, iv, p, k, b, t);
    }
    PlainAtEnd(c, z, iv, p, n, b, t);
  }

  lemma PlainAtEnd(c: BlockCipher, z: seq<byte>, iv: seq<byte>, p: seq<byte>, n: nat, b: seq<byte>, t: seq<byte>)
    requires Invertible(c) && |iv| == |b| == BLOCK && |p| == BLOCK * n && t == p + b
    requires BLOCK * n + 2 * BLOCK <= |z| && b == Decrypted(c, BlockAt(z, n + 1), p, iv, n)
    ensures PlainAt(c, z, iv, t, n)
  {
    BeforePrefix(t, p, iv, n);
    assert BlockAt(t, n) == b;
  }

  lemma PlainAtJoin(c: BlockCipher, z: seq<byte>, iv: seq<byte>, p: seq<byte>, k: nat, b: seq<byte>, t: seq<byte>)
    requires Invertible(c) && |iv| == BLOCK && PlainAt(c, z, iv, p, k) && t == p + b
    ensures PlainAt(c, z, iv, t, k)
  {
    BeforePrefix(t, p, iv, k);
    BlockOfJoin(p, b, t, k);
  }

  class AESCompressor {
    const cipher: BlockCipher

    constructor (cipher: BlockCipher)
      ensures this.cipher == cipher
    {
      this.cipher := cipher;
    }

    /** The last block: filled with the number of the bytes that are left, and these put into it. */
    method MakeTail(rest: seq<byte>, pp: seq<byte>) returns (xbuf: array<byte>)
      requires |rest| < BLOCK == |pp|
      ensures fresh(xbuf) && xbuf[..] == Tail(rest, pp)
    {
      xbuf := new byte[BLOCK](_ => |rest|);
      var i := 0;
      while i < |rest|
        invariant i <= |rest|
        invariant forall k :: 0 <= k < i ==> xbuf[k] == Ciphers.Xor(rest[k], pp[k])
        invariant forall k :: i <= k < BLOCK ==> xbuf[k] == |rest|
      {
        xbuf[i] := Ciphers.Xor(rest[i], pp[i]);
        i := i + 1;
      }
    }

    /** The whole blocks go to the buffer one after the other. */
    method EncryptBlocks(buf: seq<byte>, iv: seq<byte>, res: array<byte>) returns (wp: nat, round: nat)
      requires Invertible(cipher) && |iv| == BLOCK && res.Length == |buf| + 2 * BLOCK
      modifies res
      ensures BLOCK * round <= |buf| < BLOCK * round + BLOCK && wp == BLOCK * round + BLOCK
      ensures BlocksEncrypted(cipher, buf, iv, res[..wp], round) && BlockAt(res[..wp], 0) == Enc(cipher, iv)
    {
      wp := Put(res, 0, Enc(cipher, iv), []);
      round := 0;
      while |buf| - BLOCK * round >= BLOCK
        invariant BLOCK * round <= |buf| && wp == BLOCK * round + BLOCK
        invariant BlocksEncrypted(cipher, buf, iv, res[..wp], round) && BlockAt(res[..wp], 0) == Enc(cipher, iv)
      {
        wp := EncryptBlock(buf, iv, res, wp, round, round + 1);
        round := round + 1;
      }
    }

    method EncryptBlock(buf: seq<byte>, iv: seq<byte>, res: array<byte>, at: nat, round: nat, ghost next: nat)
      returns (wp: nat)
      requires Invertible(cipher) && |iv| == BLOCK && at == BLOCK * round + BLOCK && BLOCK * round + BLOCK <= |buf|
               && next == round + 1
      requires res.Length == |buf| + 2 * BLOCK && BlocksEncrypted(cipher, buf, iv, res[..at], round)
      modifies res
      ensures wp == at + BLOCK && BlocksEncrypted(cipher, buf, iv, res[..wp], next)
      ensures BlockAt(res[..wp], 0) == old(BlockAt(res[..at], 0))
    {
      ghost var was := res[..at];
      var e := Enc(cipher, XorBlock(BlockAt(buf, round), Before(buf, iv, round)));
      wp := Put(res, at, e, was);
      EncryptedGrows(cipher, buf, iv, was, round, e, res[..wp]);
      assert EncryptedAt(cipher, buf, iv, res[..wp], round);
    }

    method Compress(buf: seq<byte>, iv: seq<byte>) returns (z: seq<byte>, ghost n: nat)
      requires Invertible(cipher) && |iv| == BLOCK
      ensures IsCompressed(cipher, buf, iv, z, n)
    {
      var res := new byte[|buf| + 2 * BLOCK];
      var wp, round := EncryptBlocks(buf, iv, res);
      ghost var was := res[..wp];
      n := round;
      var xbuf := MakeTail(buf[BLOCK * round..], Before(buf, iv, round));
      wp := Put(res, wp, Enc(cipher, xbuf[..]), was);
      z := res[..wp];
      EncryptedGrows(cipher, buf, iv, was, round, Enc(cipher, xbuf[..]), z);
    }

    /** The blocks after the vector are decrypted one after the other. */
    method DecryptBlocks(buf: seq<byte>, iv: seq<byte>, res: array<byte>, ghost n: nat) returns (rem: byte)
      requires Invertible(cipher) && |buf| == BLOCK * n + BLOCK && n > 0 && |iv| == BLOCK && res.Length == BLOCK * n
      modifies res
      ensures BlocksPlain(cipher, buf, iv, res[..], n) && rem == Dec(cipher, BlockAt(buf, n))[BLOCK - 1]
    {
      var wp, round := 0, 0;
      rem := 0;
      while |buf| - BLOCK - wp >= BLOCK
        invariant wp == BLOCK * round && round <= n
        invariant BlocksPlain(cipher, buf, iv, res[..wp], round)
        invariant round > 0 ==> rem == Dec(cipher, BlockAt(buf, round))[BLOCK - 1]
      {
        wp, rem := DecryptBlock(buf, iv, res, wp, round, round + 1);
        round := round + 1;
      }
      assert res[..wp] == res[..];
    }

    method DecryptBlock(buf: seq<byte>, iv: seq<byte>, res: array<byte>, at: nat, round: nat, next: nat)
      returns (wp: nat, rem: byte)
      requires Invertible(cipher) && |iv| == BLOCK && at == BLOCK * round && at + BLOCK <= res.Length
               && next == round + 1
      requires BLOCK * next + BLOCK <= |buf| && BlocksPlain(cipher, buf, iv, res[..at], round)
      modifies res
      ensures wp == at + BLOCK && BlocksPlain(cipher, buf, iv, res[..wp], next)
      ensures rem == Dec(cipher, BlockAt(buf, next))[BLOCK - 1]
    {
      ghost var was := res[..at];
      var xbuf := Dec(cipher, BlockAt(buf, next));
      var pp := Before(res[..at], iv, round);
      var d := XorBlock(xbuf, pp);
      wp := Put(res, at, d, was);
      PlainGrows(cipher, buf, iv, was, round, d, res[..wp]);
      rem := Ciphers.Xor(res[wp - 1], pp[BLOCK - 1]);
      assert res[wp - 1] == d[BLOCK - 1];
      Ciphers.XorBack(xbuf[BLOCK - 1], pp[BLOCK - 1]);
    }

    /** What is no result of compressing is refused, or decrypted all the same. */
    method Decompress(buf: seq<byte>) returns (res: Option<seq<byte>>, ghost p: seq<byte>, ghost n: nat)
      requires Invertible(cipher)
      ensures |buf| < 2 * BLOCK || |buf| % BLOCK != 0 ==> res == None
      ensures |buf| >= 2 * BLOCK && |buf| % BLOCK == 0 ==> IsDecompressed(cipher, buf, n, p, res)
      ensures |buf| >= 2 * BLOCK && |buf| % BLOCK == 0 ==>
                && |buf| == BLOCK * n + BLOCK && |p| == BLOCK * n
                && var rem := Dec(cipher, BlockAt(buf, n))[BLOCK - 1];
                   res == if rem > BLOCK then None else Some(p[..|p| - BLOCK + rem])
      ensures forall s, iv, m :: |iv| == BLOCK && IsCompressed(cipher, s, iv, buf, m) ==> res == Some(s)
    {
      if |buf| < 2 * BLOCK || |buf| % BLOCK != 0 {
        return None, [], 0;
      }
      n := |buf| / BLOCK - 1;
      res, p := DecompressBlocks(buf, n);
      forall s, iv, m: nat | |iv| == BLOCK && IsCompressed(cipher, s, iv, buf, m) ensures res == Some(s) {
        Recovered(cipher, s, iv, buf, m, p, n, res);
      }
    }

    method DecompressBlocks(buf: seq<byte>, ghost n: nat) returns (res: Option<seq<byte>>, ghost p: seq<byte>)
      requires Invertible(cipher) && |buf| == BLOCK * n + BLOCK && n > 0
      ensures IsDecompressed(cipher, buf, n, p, res)
    {
      var iv := Dec(cipher, BlockAt(buf, 0));
      var out := new byte[|buf| - BLOCK];
      var rem := DecryptBlocks(buf, iv, out, n);
      p := out[..];
      res := if rem > BLOCK then None else Some(out[..][..out.Length - (BLOCK - rem)]);
    }
  }

  /** The plain text without the bytes that do not count, as the last byte before chaining tells. */
  ghost predicate IsDecompressed(c: BlockCipher, z: seq<byte>, n: nat, p: seq<byte>, res: Option<seq<byte>>)
    requires Invertible(c)
  {
    && n > 0 && IsPlain(c, z, p, n)
    && var rem := Dec(c, BlockAt(z, n))[BLOCK - 1];
    res == if rem > BLOCK then None else Some(p[..|p| - (BLOCK - rem)])
  }

  lemma Recovered(c: BlockCipher, s: seq<byte>, iv: seq<byte>, z: seq<byte>, m: nat, p: seq<byte>, n: nat,
                  res: Option<seq<byte>>)
    requires Invertible(c) && |iv| == BLOCK && IsCompressed(c, s, iv, z, m) && IsDecompressed(c, z, n, p, res)
    ensures n == m + 1 && res == Some(s)
  {
    AESRoundTrip(c, s, iv, z, m, p);
  }
}
