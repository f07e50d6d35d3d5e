/** Octets, and the conversions between octets and numbers that C's integer casts perform. */
module Bytes {

  type byte = bv8

  /** The number an octet stands for: what C's promotion to int yields. */
  function Num(b: byte): (n: nat)
    ensures n < 256
  {
    16 * NibbleNum(b >> 4) + NibbleNum(b & 0xF)
  }

  /** The low eight bits of n: what a C cast to unsigned char keeps. */
  function ByteOf(n: int): (b: byte) {
    (NibbleByte(n / 16 % 16) << 4) | NibbleByte(n % 16)
  }

  function NibbleNum(b: byte): (n: nat)
    ensures n < 16
  {
    if b == 0 then 0 else if b == 1 then 1 else if b == 2 then 2 else if b == 3 then 3 else if b == 4 then 4
    else if b == 5 then 5 else if b == 6 then 6 else if b == 7 then 7 else if b == 8 then 8 else if b == 9 then 9
    else if b == 10 then 10 else if b == 11 then 11 else if b == 12 then 12 else if b == 13 then 13
    else if b == 14 then 14
    else 15
  }

  function NibbleByte(n: nat): (b: byte)
    requires n < 16
    ensures b < 16
  {
    if n == 0 then 0 else if n == 1 then 1 else if n == 2 then 2 else if n == 3 then 3 else if n == 4 then 4
    else if n == 5 then 5 else if n == 6 then 6 else if n == 7 then 7 else if n == 8 then 8 else if n == 9 then 9
    else if n == 10 then 10 else if n == 11 then 11 else if n == 12 then 12 else if n == 13 then 13
    else if n == 14 then 14
    else 15
  }

  lemma NibbleRoundTrip(n: nat)
    requires n < 16
    ensures NibbleNum(NibbleByte(n)) == n
  {
  }

  lemma NibbleInverse(b: byte)
    requires b < 16
    ensures NibbleByte(NibbleNum(b)) == b
  {
  }

  lemma SplitJoined(high: byte, low: byte)
    requires high < 16 && low < 16
    ensures ((high << 4) | low) >> 4 == high && ((high << 4) | low) & 0xF == low
  {
  }

  lemma JoinSplit(b: byte)
    ensures b >> 4 < 16 && b & 0xF < 16 && ((b >> 4) << 4) | (b & 0xF) == b
  {
  }

  lemma NumOfByte(n: int)
    ensures Num(ByteOf(n)) == n % 256
  {
    hide NibbleNum, NibbleByte;
    NibbleRoundTrip(n / 16 % 16);
    NibbleRoundTrip(n % 16);
    SplitJoined(NibbleByte(n / 16 % 16), NibbleByte(n % 16));
  }

  lemma ByteOfNum(b: byte, n: int)
    requires n % 256 == Num(b)
    ensures ByteOf(n) == b
  {
    hide NibbleNum, NibbleByte;
    JoinSplit(b);
    NibbleInverse(b >> 4);
    NibbleInverse(b & 0xF);
    NibblesOf(n, NibbleNum(b >> 4), NibbleNum(b & 0xF));
  }

  lemma NibblesOf(n: int, high: nat, low: nat)
    requires high < 16 && low < 16 && n % 256 == 16 * high + low
    ensures n / 16 % 16 == high && n % 16 == low
  {
    assert n == 256 * (n / 256) + 16 * high + low;
    assert n / 16 == 16 * (n / 256) + high;
  }

  lemma NibbleIsInt(b: byte)
    requires b < 16
    ensures NibbleNum(b) == b as int
  {
  }

  lemma NibblesIsInt(b: byte)
    ensures 16 * ((b >> 4) as int) + ((b & 0xF) as int) == b as int
  {
  }

  /** The number of an octet. */
  lemma NumIsInt(b: byte)
    ensures Num(b) == b as int
  {
    hide NibbleNum;
    NibbleIsInt(b >> 4);
    NibbleIsInt(b & 0xF);
    NibblesIsInt(b);
  }

  lemma ByteOfIsInt(n: int)
    ensures ByteOf(n) as int == n % 256
  {
    hide *;
    NumOfByte(n);
    NumIsInt(ByteOf(n));
  }

  lemma SameOctet(a: byte, b: byte)
    requires a as int == b as int
    ensures a == b
  {
    NumIsInt(a);
    NumIsInt(b);
    ByteOfNum(a, Num(a));
    ByteOfNum(b, Num(b));
  }

  /** Number of octets before the first NUL: strlen over a buffer that holds one. */
  function StrLen(s: seq<byte>): (n: nat)
    requires 0 in s
    ensures n < |s| && s[n] == 0 && 0 !in s[..n]
  {
    if s[0] == 0 then 0 else
      assert s == [s[0]] + s[1..];
      var m := StrLen(s[1..]);
      assert s[..m + 1] == [s[0]] + s[1..][..m];
      m + 1
  }

  /** A C string: the octets in front of the first NUL. */
  function CText(s: seq<byte>): (t: seq<byte>)
    ensures t <= s && 0 !in t
  {
    if s == [] || s[0] == 0 then [] else [s[0]] + CText(s[1..])
  }

  lemma {:induction false} CTextEnds(s: seq<byte>)
    ensures |CText(s)| < |s| ==> s[|CText(s)|] == 0
  {
    if s != [] && s[0] != 0 {
      CTextEnds(s[1..]);
    }
  }

  // ---------------------------------------------------------------- network byte order

  function Pow256(k: nat): (p: nat)
    ensures p > 0
  {
    if k == 0 then 1 else 256 * Pow256(k - 1)
  }

  /** n as k octets, most significant first. */
  function BigEndian(n: nat, k: nat): (s: seq<byte>)
    ensures |s| == k
  {
    if k == 0 then [] else BigEndian(n / 256, k - 1) + [ByteOf(n)]
  }

  /** (n >> 8*k) & 255 */
  function Octet(n: nat, k: nat): byte {
    if k == 0 then ByteOf(n) else Octet(n / 256, k - 1)
  }

  lemma {:induction false} BigEndianOctets(n: nat, k: nat)
    ensures forall i :: 0 <= i < k ==> BigEndian(n, k)[i] == Octet(n, k - 1 - i)
  {
    if k > 0 {
      hide ByteOf;
      BigEndianOctets(n / 256, k - 1);
    }
  }

  function BigEndianValue(s: seq<byte>): nat {
    if s == [] then 0 else 256 * BigEndianValue(s[..|s| - 1]) + Num(s[|s| - 1])
  }

  lemma {:induction false} BigEndianRoundTrip(n: nat, k: nat)
    requires n < Pow256(k)
    ensures BigEndianValue(BigEndian(n, k)) == n
  {
    if k > 0 {
      hide ByteOf, Num;
      var s, m := BigEndian(n, k), n / 256;
      assert s == BigEndian(m, k - 1) + [ByteOf(n)] && Pow256(k) == 256 * Pow256(k - 1);
      hide BigEndian, Pow256;
      BigEndianRoundTrip(m, k - 1);
      NumOfByte(n);
      assert s[..k - 1] == BigEndian(m, k - 1);
    }
  }

  lemma {:induction false} BigEndianOfValue(s: seq<byte>)
    ensures BigEndianValue(s) < Pow256(|s|)
    ensures BigEndian(BigEndianValue(s), |s|) == s
  {
    if s != [] {
      hide ByteOf, Num;
      var t, b := s[..|s| - 1], s[|s| - 1];
      BigEndianOfValue(t);
      var n := BigEndianValue(s);
      Digit(BigEndianValue(t), Num(b), n);
      ByteOfNum(b, n);
      assert BigEndian(n, |s|) == BigEndian(n / 256, |t|) + [ByteOf(n)];
    }
  }

  lemma Digit(t: nat, d: nat, n: nat)
    requires d < 256 && n == 256 * t + d
    ensures n / 256 == t && n % 256 == d
  {
  }

  lemma Pow256Of2()
    ensures Pow256(2) == 0x1_0000
  {
    assert Pow256(1) == 256 * Pow256(0);
  }

  lemma Pow256Of8()
    ensures Pow256(4) == 0x1_0000_0000 && Pow256(8) == 0x1_0000_0000_0000_0000
  {
    Pow256Of2();
    assert Pow256(4) == 256 * Pow256(3) && Pow256(3) == 256 * Pow256(2);
    assert Pow256(8) == 256 * Pow256(7) && Pow256(7) == 256 * Pow256(6);
    assert Pow256(6) == 256 * Pow256(5) && Pow256(5) == 256 * Pow256(4);
  }

  lemma TwoOctets(s: seq<byte>)
    requires |s| == 2
    ensures BigEndianValue(s) == 256 * (s[0] as int) + s[1] as int
  {
    hide Num;
    assert s[..1][..0] == [] && s[..1][0] == s[0];
    assert BigEndianValue(s[..1]) == Num(s[0]);
    NumIsInt(s[0]);
    NumIsInt(s[1]);
  }

  lemma FourOctets(s: seq<byte>)
    requires |s| == 4
    ensures BigEndianValue(s) == 0x1_0000 * (256 * (s[0] as int) + s[1] as int) + (256 * (s[2] as int) + s[3] as int)
  {
    hide Num;
    TwoOctets(s[..2]);
    assert s[..3][..2] == s[..2] && s[..3][2] == s[2];
    assert BigEndianValue(s[..3]) == 256 * BigEndianValue(s[..2]) + Num(s[2]);
    NumIsInt(s[2]);
    NumIsInt(s[3]);
  }

  lemma {:induction false} BigEndianConcat(s: seq<byte>, t: seq<byte>)
    ensures BigEndianValue(s + t) == Pow256(|t|) * BigEndianValue(s) + BigEndianValue(t)
  {
    hide Num;
    if t == [] {
      assert s + t == s;
    } else {
      var n := |t| - 1;
      BigEndianConcat(s, t[..n]);
      assert (s + t)[..|s| + n] == s + t[..n] && (s + t)[|s| + n] == t[n];
      Distributed(Pow256(n), BigEndianValue(s), BigEndianValue(t[..n]), Num(t[n]));
    }
  }

  lemma Distributed(p: nat, a: nat, b: nat, c: nat)
    ensures 256 * (p * a + b) + c == 256 * p * a + (256 * b + c)
  {
  }

  /** The number in the first four octets of s. */
  function Word(s: seq<byte>): int
    requires |s| >= 4
  {
    0x100_0000 * (s[0] as int) + 0x1_0000 * (s[1] as int) + 0x100 * (s[2] as int) + s[3] as int
  }

  lemma EightOctets(s: seq<byte>)
    requires |s| == 8
    ensures BigEndianValue(s) == 0x1_0000_0000 * Word(s) + Word(s[4..])
  {
    FourOctets(s[..4]);
    FourOctets(s[4..]);
    assert s == s[..4] + s[4..];
    BigEndianConcat(s[..4], s[4..]);
    Pow256Of8();
  }
}
