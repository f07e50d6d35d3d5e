/** The SHA-1 digest of a message, as FIPS PUB 180-1 defines it. */
module Sha1 {
  import opened Bytes

  type Word = bv32

  /** The five words of the hash, and of the buffer A to E. */
  datatype Words = Words(a: Word, b: Word, c: Word, d: Word, e: Word)

  const INITIAL := Words(0x67452301, 0xEFCDAB89, 0x98BADCFE, 0x10325476, 0xC3D2E1F0)

  // ---------------------------------------------------------------- section 4: padding

  function Zeros(n: nat): (s: seq<byte>)
    ensures |s| == n && forall i :: 0 <= i < n ==> s[i] == 0
  {
    seq(n, _ => 0)
  }

  /** How many zero octets follow the one bit, so that 8 octets are missing to the end of a block. */
  function ZerosFor(length: nat): nat {
    var used := length % 64;
    if used < 56 then 55 - used else 119 - used
  }

  function Padded(m: seq<byte>): seq<byte> {
    m + [0x80] + Zeros(ZerosFor(|m|)) + BigEndian(8 * |m|, 8)
  }

  lemma PaddedIsBlocks(m: seq<byte>)
    ensures |Padded(m)| % 64 == 0 && |m| + 9 <= |Padded(m)| < |m| + 9 + 64
  {
    hide BigEndian, Zeros;
    var q, used := |m| / 64, |m| % 64;
    assert |Padded(m)| == if used < 56 then 64 * (q + 1) else 64 * (q + 2);
  }

  /** Padding loses nothing: the length in the last 8 octets tells what to take off again. */
  lemma PaddedInjective(m: seq<byte>, n: seq<byte>)
    requires 8 * |m| < Pow256(8) && 8 * |n| < Pow256(8) && Padded(m) == Padded(n)
    ensures m == n
  {
    hide Zeros, BigEndian, BigEndianValue, Pow256;
    var p := Padded(m);
    assert p[|p| - 8..] == BigEndian(8 * |m|, 8) && p[|p| - 8..] == BigEndian(8 * |n|, 8);
    BigEndianRoundTrip(8 * |m|, 8);
    BigEndianRoundTrip(8 * |n|, 8);
    assert p[..|m|] == m && p[..|n|] == n;
  }

  // ---------------------------------------------------------------- section 3: words

  /** S^n(X) */
  function RotateLeft(n: bv6, x: Word): Word
    requires n <= 32
  {
    (x << n) | (x >> (32 - n))
  }

  /** Addition of words, modulo 2^32. */
  function Add(x: Word, y: Word): Word { x + y }

  function Add5(v: Word, w: Word, x: Word, y: Word, z: Word): Word {
    Add(Add(Add(Add(v, w), x), y), z)
  }

  function Xor4(w: Word, x: Word, y: Word, z: Word): Word { w ^ x ^ y ^ z }

  function WordOf(b0: byte, b1: byte, b2: byte, b3: byte): Word {
    (b0 as Word << 24) | (b1 as Word << 16) | (b2 as Word << 8) | b3 as Word
  }

  /** The octets of a word, most significant first. */
  function WordOctet(w: Word, i: nat): byte {
    if i == 0 then ((w >> 24) & 0xFF) as byte
    else if i == 1 then ((w >> 16) & 0xFF) as byte
    else if i == 2 then ((w >> 8) & 0xFF) as byte
    else (w & 0xFF) as byte
  }

  function WordOctets(w: Word): (s: seq<byte>)
    ensures |s| == 4
  {
    [WordOctet(w, 0), WordOctet(w, 1), WordOctet(w, 2), WordOctet(w, 3)]
  }

  // ---------------------------------------------------------------- sections 5 to 7: rounds

  function F(t: nat, b: Word, c: Word, d: Word): Word {
    if t < 20 then (b & c) | (!b & d)
    else if t < 40 then b ^ c ^ d
    else if t < 60 then (b & c) | (b & d) | (c & d)
    else b ^ c ^ d
  }

  function K(t: nat): Word {
    if t < 20 then 0x5A827999 else if t < 40 then 0x6ED9EBA1 else if t < 60 then 0x8F1BBCDC else 0xCA62C1D6
  }

  /** W(0) to W(n-1) for one block. */
  function Schedule(block: seq<byte>, n: nat): (w: seq<Word>)
    requires |block| == 64
    ensures |w| == n
  {
    if n == 0 then []
    else
      var w, t := Schedule(block, n - 1), n - 1;
      w + [if t < 16 then WordOf(block[4 * t], block[4 * t + 1], block[4 * t + 2], block[4 * t + 3])
           else RotateLeft(1, Xor4(w[t - 3], w[t - 8], w[t - 14], w[t - 16]))]
  }

  function Round(t: nat, s: Words, w: Word): Words {
    Words(Add5(RotateLeft(5, s.a), F(t, s.b, s.c, s.d), s.e, w, K(t)), s.a, RotateLeft(30, s.b), s.c, s.d)
  }

  /** The buffer after n rounds. */
  function Rounds(s: Words, w: seq<Word>, n: nat): Words
    requires n <= |w|
  {
    if n == 0 then s else Round(n - 1, Rounds(s, w, n - 1), w[n - 1])
  }

  function Sum(s: Words, t: Words): Words {
    Words(Add(s.a, t.a), Add(s.b, t.b), Add(s.c, t.c), Add(s.d, t.d), Add(s.e, t.e))
  }

  function Compress(h: Words, block: seq<byte>): Words
    requires |block| == 64
  {
    Sum(h, Rounds(h, Schedule(block, 80), 80))
  }

  /** The hash after the first n blocks of s. */
  function HashAfter(s: seq<byte>, n: nat): Words
    requires 64 * n <= |s|
  {
    if n == 0 then INITIAL else Compress(HashAfter(s, n - 1), s[64 * (n - 1)..64 * n])
  }

  function Digest(h: Words): (s: seq<byte>)
    ensures |s| == 20
  {
    WordOctets(h.a) + WordOctets(h.b) + WordOctets(h.c) + WordOctets(h.d) + WordOctets(h.e)
  }

  function DigestOf(m: seq<byte>): (digest: seq<byte>)
    ensures |digest| == 20
  {
    Digest(HashAfter(Padded(m), |Padded(m)| / 64))
  }

  // ---------------------------------------------------------------- facts

  /** Only the blocks counted matter. */
  lemma {:induction false} HashAfterPrefix(s: seq<byte>, t: seq<byte>, n: nat)
    requires 64 * n <= |s|
    ensures HashAfter(s + t, n) == HashAfter(s, n)
  {
    hide Compress;
    if n > 0 {
      HashAfterPrefix(s, t, n - 1);
      assert (s + t)[64 * (n - 1)..64 * n] == s[64 * (n - 1)..64 * n];
    }
  }

  function WordAt(h: Words, j: nat): Word {
    if j == 0 then h.a else if j == 1 then h.b else if j == 2 then h.c else if j == 3 then h.d else h.e
  }

  lemma DigestAt(h: Words, i: nat)
    requires i < 20
    ensures Digest(h)[i] == WordOctet(WordAt(h, i / 4), i % 4)
  {
    hide WordOctets, WordAt;
    var j, k := i / 4, i % 4;
    WordOctetsAt(WordAt(h, j), k);
    DigestWord(h, j);
    assert Digest(h)[i] == Digest(h)[4 * j..4 * j + 4][k];
  }

  lemma DigestWord(h: Words, j: nat)
    requires j < 5
    ensures Digest(h)[4 * j..4 * j + 4] == WordOctets(WordAt(h, j))
  {
    hide WordOctets;
  }

  lemma WordOctetsAt(w: Word, k: nat)
    requires k < 4
    ensures WordOctets(w)[k] == WordOctet(w, k)
  {
    hide WordOctet;
  }

  /** The blocks that padding adds to the complete blocks of m. */
  lemma LastBlocks(m: seq<byte>)
    ensures var q, used, length := |m| / 64, |m| % 64, BigEndian(8 * |m|, 8);
      var rest, h := m[64 * q..] + [0x80], HashAfter(m, q);
      HashAfter(Padded(m), |Padded(m)| / 64) ==
        if used < 56 then Compress(h, rest + Zeros(55 - used) + length)
        else Compress(Compress(h, rest + Zeros(63 - used)), Zeros(56) + length)
  {
    hide Compress, BigEndian, Zeros, HashAfter, Padded;
    if |m| % 64 < 56 {
      LastBlock(m);
    } else {
      LastTwoBlocks(m);
    }
  }

  lemma LastBlock(m: seq<byte>)
    requires |m| % 64 < 56
    ensures var q, p := |m| / 64, Padded(m);
      var end := m[64 * q..] + [0x80] + Zeros(55 - |m| % 64) + BigEndian(8 * |m|, 8);
      |end| == 64 && HashAfter(p, |p| / 64) == Compress(HashAfter(m, q), end)
  {
    hide Compress, BigEndian, Zeros;
    var q, length, p := |m| / 64, BigEndian(8 * |m|, 8), Padded(m);
    var more := [0x80] + Zeros(55 - |m| % 64) + length;
    assert p == m + more;
    HashAfterPrefix(m, more, q);
    PieceOf(m, more, 64 * q, 64 * (q + 1));
    assert m[64 * q..] + more == m[64 * q..] + [0x80] + Zeros(55 - |m| % 64) + length;
    assert |p| / 64 == q + 1;
  }

  lemma LastTwoBlocks(m: seq<byte>)
    requires |m| % 64 >= 56
    ensures var q, p := |m| / 64, Padded(m);
      var first, second := m[64 * q..] + [0x80] + Zeros(63 - |m| % 64), Zeros(56) + BigEndian(8 * |m|, 8);
      |first| == 64 && HashAfter(p, |p| / 64) == Compress(Compress(HashAfter(m, q), first), second)
  {
    hide Compress, BigEndian, Zeros;
    var q, p := |m| / 64, Padded(m);
    var some, second := [0x80] + Zeros(63 - |m| % 64), Zeros(56) + BigEndian(8 * |m|, 8);
    ZerosSplit(63 - |m| % 64, 56);
    assert p == (m + some) + second;
    HashAfterPrefix(m, some, q);
    HashAfterPrefix(m + some, second, q + 1);
    PieceOf(m, some, 64 * q, 64 * (q + 1));
    PieceOf(m + some, second, 64 * (q + 1), 64 * (q + 2));
    assert (m + some)[64 * (q + 1)..] + second == second;
    assert m[64 * q..] + some == m[64 * q..] + [0x80] + Zeros(63 - |m| % 64);
    assert |p| / 64 == q + 2;
  }

  lemma PieceOf(s: seq<byte>, t: seq<byte>, from: nat, end: nat)
    requires from <= |s| && end == |s| + |t|
    ensures (s + t)[from..end] == s[from..] + t
  {
  }

  lemma ZerosSplit(a: nat, b: nat)
    ensures Zeros(a + b) == Zeros(a) + Zeros(b)
  {
  }

  /** Eight octets made of two 32-bit numbers. */
  lemma LengthOctets(high: nat, low: nat, n: nat)
    requires n == 0x1_0000_0000 * high + low && low < 0x1_0000_0000
    ensures BigEndian(n, 8) == [Octet(high, 3), Octet(high, 2), Octet(high, 1), Octet(high, 0),
                                Octet(low, 3), Octet(low, 2), Octet(low, 1), Octet(low, 0)]
  {
    hide ByteOf;
    BigEndianOctets(n, 8);
    OctetsApart(high, low, n);
    hide BigEndian, Octet;
    var s := BigEndian(n, 8);
    assert forall i :: 0 <= i < 8 ==> s[i] == Octet(n, 7 - i);
    assert s == [s[0], s[1], s[2], s[3], s[4], s[5], s[6], s[7]];
  }

  lemma OctetsApart(high: nat, low: nat, n: nat)
    requires n == 0x1_0000_0000 * high + low && low < 0x1_0000_0000
    ensures forall k :: 0 <= k < 4 ==> Octet(n, k) == Octet(low, k) && Octet(n, k + 4) == Octet(high, k)
  {
    hide Octet;
    OctetApart(0, high, low, n);
    OctetApart(1, high, low, n);
    OctetApart(2, high, low, n);
    OctetApart(3, high, low, n);
  }

  lemma {:induction false} OctetApart(k: nat, high: nat, low: nat, n: nat)
    requires k < 4 && n == 0x1_0000_0000 * high + low && low < 0x1_0000_0000
    ensures Octet(n, k) == Octet(low, k) && Octet(n, k + 4) == Octet(high, k)
  {
    hide ByteOf;
    Shifted(high, low, n, 0x100_0000);
    Shifted(high, low / 256, n / 256, 0x1_0000);
    Shifted(high, low / 256 / 256, n / 256 / 256, 0x100);
    Shifted(high, low / 256 / 256 / 256, n / 256 / 256 / 256, 1);
    ByteOfMod(n, low);
    ByteOfMod(n / 256, low / 256);
    ByteOfMod(n / 256 / 256, low / 256 / 256);
    ByteOfMod(n / 256 / 256 / 256, low / 256 / 256 / 256);
    OctetUnfold(n, k + 4);
    OctetUnfold(n, k);
    OctetUnfold(low, k);
  }

  lemma Shifted(high: nat, low: nat, n: nat, p: nat)
    requires p > 0 && n == 256 * p * high + low && low < 256 * p
    ensures n / 256 == p * high + low / 256 && low / 256 < p && n % 256 == low % 256
  {
    assert n == 256 * (p * high + low / 256) + low % 256;
  }

  lemma ByteOfMod(n: nat, m: nat)
    requires n % 256 == m % 256
    ensures ByteOf(n) == ByteOf(m)
  {
    NumOfByte(m);
    ByteOfNum(ByteOf(m), n);
  }

  lemma OctetUnfold(n: nat, k: nat)
    ensures k == 0 ==> Octet(n, k) == ByteOf(n)
    ensures k == 1 ==> Octet(n, k) == ByteOf(n / 256)
    ensures k == 2 ==> Octet(n, k) == ByteOf(n / 256 / 256)
    ensures k == 3 ==> Octet(n, k) == ByteOf(n / 256 / 256 / 256)
    ensures k >= 4 ==> Octet(n, k) == Octet(n / 256 / 256 / 256 / 256, k - 4)
  {
    hide ByteOf;
    if k > 0 {
      assert Octet(n, k) == Octet(n / 256, k - 1);
      if k > 1 {
        assert Octet(n, k) == Octet(n / 256 / 256, k - 2);
        if k > 2 {
          assert Octet(n, k) == Octet(n / 256 / 256 / 256, k - 3);
        }
      }
    }
  }
}
