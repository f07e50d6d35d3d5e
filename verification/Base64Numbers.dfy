/** base64 as section 4 of RFC 4648 describes it: groups of 24 bits, in numbers. */
module Base64Numbers {
  import opened Bytes
  import opened Wrappers
  import opened Base64

  // ---------------------------------------------------------------- alphabet and groups

  /** A to Z, a to z, 0 to 9, plus and slash. */
  lemma AlphabetInNumbers(v: byte)
    requires v < 64
    ensures var n, c := v as int, Letter(v) as int;
      c == if n < 26 then 65 + n else if n < 52 then 97 + (n - 26) else if n < 62 then 48 + (n - 52)
           else if n == 62 then 43
           else 47
  {
  }

  /** The characters that count when decoding; the padding counts as 0. */
  lemma KeptInNumbers(c: byte)
    ensures var n := c as int;
      Kept(c) ==
        if 65 <= n <= 90 || 97 <= n <= 122 || 48 <= n <= 57 || n == 43 || n == 47 || n == 61 then [c] else []
    ensures Value(0x3D) == 0
  {
    assert 0x41 <= c <= 0x5A <==> 65 <= c as int <= 90;
    assert 0x61 <= c <= 0x7A <==> 97 <= c as int <= 122;
    assert 0x30 <= c <= 0x39 <==> 48 <= c as int <= 57;
    assert c == 0x2B <==> c as int == 43;
    assert c == 0x2F <==> c as int == 47;
    assert c == 0x3D <==> c as int == 61;
    KeptByValue(c);
  }

  lemma KeptByValue(c: byte)
    ensures Kept(c) ==
      if 0x41 <= c <= 0x5A || 0x61 <= c <= 0x7A || 0x30 <= c <= 0x39 || c in {0x2B, 0x2F, 0x3D} then [c] else []
  {
  }

  /** Three octets as a number of 24 bits. */
  function Bits(a: byte, b: byte, c: byte): bv32 {
    0x1_0000 * (a as bv32) + 0x100 * (b as bv32) + c as bv32
  }

  /** The characters of a group stand for the four digits of that number to the base of 64. */
  lemma GroupInNumbers(a: byte, b: byte, c: byte)
    ensures Value0(a) as bv32 == Bits(a, b, c) / 0x4_0000 && Value1(a, b) as bv32 == Bits(a, b, c) / 0x1000 % 0x40
    ensures Value2(b, c) as bv32 == Bits(a, b, c) / 0x40 % 0x40 && Value3(c) as bv32 == Bits(a, b, c) % 0x40
  {
  }

  /** Four values of six bits are the three octets of their number of 24 bits. */
  lemma OctetsInNumbers(v: byte, w: byte, x: byte, y: byte)
    requires v < 64 && w < 64 && x < 64 && y < 64
    ensures var n := 0x4_0000 * (v as bv32) + 0x1000 * (w as bv32) + 0x40 * (x as bv32) + y as bv32;
      && Octet0(v, w) as bv32 == n / 0x1_0000 && Octet1(w, x) as bv32 == n / 0x100 % 0x100
      && Octet2(x, y) as bv32 == n % 0x100
  {
  }

  // ---------------------------------------------------------------- texts

  /** Group k of the text is that of octets 3k to 3k + 2. */
  lemma {:induction false} BareAt(s: seq<byte>, k: nat)
    requires 3 * k + 2 < |s|
    ensures |Bare(s)| >= 4 * k + 4 && Bare(s)[4 * k..4 * k + 4] == Group(s[3 * k], s[3 * k + 1], s[3 * k + 2])
    decreases k
  {
    hide Group;
    BareStep(s);
    if k > 0 {
      BareAt(s[3..], k - 1);
      Shifted(Group(s[0], s[1], s[2]), Bare(s[3..]), 4 * k - 4);
    }
  }

  lemma Shifted(g: seq<byte>, t: seq<byte>, i: nat)
    requires |g| == 4 && i + 4 <= |t|
    ensures (g + t)[i + 4..i + 8] == t[i..i + 4]
  {
  }

  /** One octet left over is two characters and two of padding, two are three and one. */
  lemma {:induction false} BareEnds(s: seq<byte>)
    ensures var n, last := |s|, |s| / 3 * 4;
      if n % 3 == 0 then |Bare(s)| == last
      else
        && |Bare(s)| == last + 4
        && Bare(s)[last..] ==
             if n % 3 == 1 then Group(s[n - 1], 0, 0)[..2] + [0x3D, 0x3D]
             else Group(s[n - 2], s[n - 1], 0)[..3] + [0x3D]
    decreases |s|
  {
    hide Group, Bare;
    BareStep(s);
    if |s| >= 3 {
      BareEnds(s[3..]);
      LastBehind(s, Group(s[0], s[1], s[2]), Bare(s[3..]));
    }
  }

  lemma LastBehind(s: seq<byte>, g: seq<byte>, t: seq<byte>)
    requires |s| >= 3 && |g| == 4 && |s[3..]| / 3 * 4 <= |t|
    ensures var k := |s[3..]| / 3 * 4;
      |s| / 3 * 4 == k + 4 && |s| % 3 == |s[3..]| % 3 && (g + t)[k + 4..] == t[k..]
    ensures |s| % 3 > 0 ==> s[3..][|s[3..]| - 1] == s[|s| - 1]
    ensures |s| % 3 > 1 ==> s[3..][|s[3..]| - 2] == s[|s| - 2]
  {
  }

  /** base64_encode() writes those characters, and a line feed behind every 72 and behind the last. */
  lemma EncodedAt(s: seq<byte>, i: nat)
    requires i < |Bare(s)|
    ensures var t := Encoded(s, 0);
      && |t| == |Bare(s)| + (|Bare(s)| + 71) / 72
      && i + i / 72 < |t| && t[i + i / 72] == Bare(s)[i]
  {
    EncodedLength(s, 0);
    EncodedFrom(s, 0, i);
  }

  /** The same in a line that has length characters already. */
  lemma {:induction false} EncodedFrom(s: seq<byte>, length: nat, i: nat)
    requires length < 72 && length % 4 == 0 && i < |Bare(s)|
    ensures var j := i + (length + i) / 72; j < |Encoded(s, length)| && Encoded(s, length)[j] == Bare(s)[i]
    decreases |s|
  {
    hide Group, LastGroup, Encoded, Bare;
    BareStep(s);
    Columns(length, i);
    if |s| >= 3 {
      EncodedStep(s, length);
    } else {
      EncodedEnd(s, length);
    }
    if |s| >= 3 && i >= 4 {
      var g, next := Group(s[0], s[1], s[2]), if length == 68 then 0 else length + 4;
      EncodedFrom(s[3..], next, i - 4);
      var j := i - 4 + (next + i - 4) / 72;
      Behind4(g, Encoded(s[3..], next), j);
    }
  }

  lemma Columns(length: nat, i: nat)
    requires length < 72 && length % 4 == 0
    ensures i < 4 ==> (length + i) / 72 == 0
    ensures i >= 4 && length == 68 ==> (length + i) / 72 == 1 + (i - 4) / 72
  {
  }

  lemma Behind4(g: seq<byte>, t: seq<byte>, j: nat)
    requires |g| == 4 && j < |t|
    ensures (g + t)[4 + j] == t[j] && (g + ([0x0A] + t))[5 + j] == t[j]
  {
  }

  /** What base64_encode() allocates. */
  lemma BufferInNumbers(n: nat)
    ensures BufferLength(n) == n * 4 / 3 + 4 + (n * 4 / 3 + 4) / 72 + 1
  {
  }

  /** Characters outside of the alphabet make no difference to what a text decodes to. */
  lemma ForeignSkipped(s: seq<byte>, c: byte, t: seq<byte>)
    requires Kept(c) == []
    ensures Decoded(s + [c] + t) == Decoded(s + t)
  {
    SignificantOfTwo(s, [c] + t);
    SignificantOfTwo([c], t);
    SignificantOfTwo(s, t);
    assert s + [c] + t == s + ([c] + t);
    assert Significant([c]) == [] by { assert [c][1..] == []; }
    assert [] + Significant(t) == Significant(t);
  }

  lemma {:induction false} SignificantOfTwo(s: seq<byte>, t: seq<byte>)
    ensures Significant(s + t) == Significant(s) + Significant(t)
  {
    hide Kept;
    if s == [] {
      assert s + t == t;
    } else {
      assert (s + t)[1..] == s[1..] + t;
      SignificantOfTwo(s[1..], t);
    }
  }

  // ---------------------------------------------------------------- decoding

  /** The number of six bits that a character stands for. */
  function Six(c: byte): bv32 {
    (if 0x41 <= c <= 0x5A then c - 0x41 else if 0x61 <= c <= 0x7A then c - 0x61 + 26
     else if 0x30 <= c <= 0x39 then c - 0x30 + 52
     else if c == 0x2B then 62
     else if c == 0x2F then 63
     else 0) as bv32
  }

  predicate InAlphabet(c: byte) {
    0x41 <= c <= 0x5A || 0x61 <= c <= 0x7A || 0x30 <= c <= 0x39 || c in {0x2B, 0x2F, 0x3D}
  }

  lemma SixIsValue(c: byte)
    requires InAlphabet(c)
    ensures Value(c) < 64 && Value(c) as bv32 == Six(c)
  {
  }

  function PadsIn(g: seq<byte>): nat {
    if g == [] then 0 else (if g[0] == 0x3D then 1 else 0) + PadsIn(g[1..])
  }

  /** A group of four characters is three octets of the same 24 bits. */
  lemma GroupDecoded(g: seq<byte>)
    requires |g| == 4 && forall i :: 0 <= i < 4 ==> InAlphabet(g[i])
    ensures Pads(g) == PadsIn(g)
    ensures var n := 0x4_0000 * Six(g[0]) + 0x1000 * Six(g[1]) + 0x40 * Six(g[2]) + Six(g[3]);
      && |GroupOctets(g)| == 3
      && GroupOctets(g)[0] as bv32 == n / 0x1_0000 && GroupOctets(g)[1] as bv32 == n / 0x100 % 0x100
      && GroupOctets(g)[2] as bv32 == n % 0x100
  {
    SixIsValue(g[0]);
    SixIsValue(g[1]);
    SixIsValue(g[2]);
    SixIsValue(g[3]);
    PadsOfFour(g);
    hide Value, Six, InAlphabet, Octet0, Octet1, Octet2;
    OctetsInNumbers(Value(g[0]), Value(g[1]), Value(g[2]), Value(g[3]));
  }

  lemma PadsOfFour(g: seq<byte>)
    requires |g| == 4
    ensures Pads(g) == PadsIn(g)
  {
    var a, b, c := g[1..], g[2..], g[3..];
    assert a[1..] == b && b[1..] == c && c[1..] == [];
    assert PadsIn(c) == if g[3] == 0x3D then 1 else 0;
    assert PadsIn(b) == (if g[2] == 0x3D then 1 else 0) + PadsIn(c);
    assert PadsIn(a) == (if g[1] == 0x3D then 1 else 0) + PadsIn(b);
  }

  /** Groups are decoded one by one, up to the first with padding, which is cut; no text is left undecided. */
  lemma GroupsDecoded(s: seq<byte>)
    ensures var c := Significant(s);
      Decoded(s) == if c == [] || |c| % 4 != 0 then None else DecodedGroups(c)
    ensures DecodedGroups([]) == Some([])
    ensures forall c: seq<byte> :: |c| >= 4 ==>
      var pads := PadsIn(c[..4]);
      DecodedGroups(c) ==
        if pads > 2 then None
        else if pads > 0 then Some(GroupOctets(c[..4])[..3 - pads])
        else match DecodedGroups(c[4..]) case None => None case Some(more) => Some(GroupOctets(c[..4]) + more)
  {
    hide GroupOctets, Pads, PadsIn;
    forall c: seq<byte> | |c| >= 4
      ensures PadsIn(c[..4]) == Pads(c[..4])
    {
      PadsOfFour(c[..4]);
    }
  }
}
