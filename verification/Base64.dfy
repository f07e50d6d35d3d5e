/** base64.c: octets as text in lines of 72 characters, and back. */
module Base64 {
  import opened Bytes
  import opened Wrappers

  const PAD: byte := 0x3D
  const NEWLINE: byte := 0x0A

  /** What dtable holds for a character outside the alphabet. */
  const NO_VALUE: byte := 0x80

  const LINE_LENGTH := 72

  /** SIZE_MAX + 1 */
  const SIZE_LIMIT := 0x1_0000_0000_0000_0000

  // ---------------------------------------------------------------- alphabet

  /** base64_table */
  function Letter(v: byte): byte
    requires v < 64
  {
    if v < 26 then 0x41 + v else if v < 52 then 0x47 + v else if v < 62 then v - 4 else if v == 62 then 0x2B else 0x2F
  }

  /** dtable: the inverse of base64_table, and 0 for the padding. */
  function Value(c: byte): byte {
    if 0x41 <= c <= 0x5A then c - 0x41
    else if 0x61 <= c <= 0x7A then c - 0x47
    else if 0x30 <= c <= 0x39 then c + 4
    else if c == 0x2B then 62
    else if c == 0x2F then 63
    else if c == PAD then 0
    else NO_VALUE
  }

  lemma ValueOfLetter(v: byte)
    requires v < 64
    ensures Value(Letter(v)) == v && Letter(v) !in {PAD, NEWLINE, 0}
  {
  }

  lemma LetterOfValue(c: byte)
    requires Value(c) != NO_VALUE && c != PAD
    ensures Value(c) < 64 && Letter(Value(c)) == c
  {
  }

  /** Three octets as four values of six bits. */
  function Value0(a: byte): byte { a >> 2 }
  function Value1(a: byte, b: byte): byte { ((a & 0x03) << 4) | (b >> 4) }
  function Value2(b: byte, c: byte): byte { ((b & 0x0F) << 2) | (c >> 6) }
  function Value3(c: byte): byte { c & 0x3F }

  /** Four values of six bits as three octets. */
  function Octet0(v: byte, w: byte): byte { (v << 2) | (w >> 4) }
  function Octet1(w: byte, x: byte): byte { (w << 4) | (x >> 2) }
  function Octet2(x: byte, y: byte): byte { (x << 6) | y }

  lemma SixBits(a: byte, b: byte, c: byte)
    ensures Value0(a) < 64 && Value1(a, b) < 64 && Value2(b, c) < 64 && Value3(c) < 64
  {
  }

  lemma OctetsOfValues(a: byte, b: byte, c: byte)
    ensures Octet0(Value0(a), Value1(a, b)) == a
    ensures Octet1(Value1(a, b), Value2(b, c)) == b
    ensures Octet2(Value2(b, c), Value3(c)) == c
  {
  }

  lemma WithoutThirdOctet(b: byte)
    ensures (b & 0x0F) << 2 == Value2(b, 0)
  {
  }

  lemma WithoutSecondOctet(a: byte)
    ensures (a & 0x03) << 4 == Value1(a, 0)
  {
  }

  // ---------------------------------------------------------------- encoding

  function Group(a: byte, b: byte, c: byte): (s: seq<byte>)
    ensures |s| == 4
  {
    SixBits(a, b, c);
    [Letter(Value0(a)), Letter(Value1(a, b)), Letter(Value2(b, c)), Letter(Value3(c))]
  }

  /** One or two octets, and what stands for those missing. */
  function LastGroup(s: seq<byte>): (t: seq<byte>)
    requires 1 <= |s| <= 2
    ensures |t| == 4
  {
    if |s| == 1 then Group(s[0], 0, 0)[..2] + [PAD, PAD] else Group(s[0], s[1], 0)[..3] + [PAD]
  }

  /** The text of s where length characters of a line are written. */
  function Encoded(s: seq<byte>, length: nat): seq<byte>
    decreases |s|
  {
    if s == [] then (if length > 0 then [NEWLINE] else [])
    else if |s| < 3 then LastGroup(s) + [NEWLINE]
    else
      Group(s[0], s[1], s[2]) +
      if length + 4 >= LINE_LENGTH then [NEWLINE] + Encoded(s[3..], 0) else Encoded(s[3..], length + 4)
  }

  /** Characters of the groups alone. */
  function Characters(n: nat): nat {
    (n + 2) / 3 * 4
  }

  lemma {:induction false} EncodedLength(s: seq<byte>, length: nat)
    requires length < LINE_LENGTH && length % 4 == 0
    ensures |Encoded(s, length)| + length == EndOfLines(length + Characters(|s|))
    decreases |s|
  {
    hide Group, LastGroup, Encoded;
    LengthStep(|s|, length);
    if |s| >= 3 {
      EncodedStep(s, length);
      if length + 4 >= LINE_LENGTH {
        EncodedLength(s[3..], 0);
      } else {
        EncodedLength(s[3..], length + 4);
      }
    } else {
      EncodedEnd(s, length);
    }
  }

  /** How a group counts among the characters and lines. */
  lemma LengthStep(n: nat, length: nat)
    requires length < LINE_LENGTH && length % 4 == 0
    ensures n >= 3 ==> Characters(n) == 4 + Characters(n - 3)
    ensures n >= 3 && length == 68 ==> EndOfLines(72 + Characters(n - 3)) == 73 + EndOfLines(Characters(n - 3))
    ensures Characters(0) == 0 && Characters(1) == Characters(2) == 4
    ensures EndOfLines(length) == length + (if length > 0 then 1 else 0) && EndOfLines(length + 4) == length + 5
  {
  }

  /** n characters, with a line feed behind each 72 and behind the last. */
  function EndOfLines(n: nat): nat {
    n + (n + LINE_LENGTH - 1) / LINE_LENGTH
  }

  /** The size of the buffer that base64_encode() allocates. */
  function BufferLength(n: nat): nat {
    var olen := n * 4 / 3 + 4;
    olen + olen / LINE_LENGTH + 1
  }

  lemma EncodedFits(s: seq<byte>)
    ensures |Encoded(s, 0)| + 1 <= BufferLength(|s|)
    ensures |s| == 1 ==> |Encoded(s, 0)| + 1 == BufferLength(|s|)
  {
    hide Encoded;
    EncodedLength(s, 0);
    var n, t := |s|, |s| * 4 / 3 + 4;
    assert Characters(n) <= t - 1;
  }

  /**
    * Line feeds, and no NUL, stand where lines of 72 characters end, the first of which begins length characters
    * earlier.
    */
  ghost predicate InLines(t: seq<byte>, length: nat) {
    forall i :: 0 <= i < |t| ==> t[i] != 0 && (t[i] == NEWLINE <==> EndsLine(length + i) || i == |t| - 1)
  }

  predicate EndsLine(column: nat) {
    column % (LINE_LENGTH + 1) == LINE_LENGTH
  }

  lemma {:induction false} EncodedLines(s: seq<byte>, length: nat)
    requires length < LINE_LENGTH && length % 4 == 0
    ensures InLines(Encoded(s, length), length)
    decreases |s|
  {
    hide Group, LastGroup, InLines;
    var t := Encoded(s, length);
    if |s| < 3 {
      if s != [] {
        LastGroupLetters(s);
      }
      LastLine(t, length);
    } else {
      EncodedNotEmpty(s[3..], length + 4);
      GroupLetters(s[0], s[1], s[2]);
      if length + 4 >= LINE_LENGTH {
        EncodedLines(s[3..], 0);
        assert t[5..] == Encoded(s[3..], 0);
        LineThenMore(t[..4], t[5..], length);
        assert t == t[..4] + [NEWLINE] + t[5..];
      } else {
        EncodedLines(s[3..], length + 4);
        GroupThenMore(t[..4], t[4..], length);
        assert t == t[..4] + t[4..];
      }
    }
  }

  lemma LastLine(t: seq<byte>, length: nat)
    requires |t| <= 5 && length + 4 <= LINE_LENGTH
    requires forall i :: 0 <= i < |t| ==> t[i] != 0 && (t[i] == NEWLINE <==> i == |t| - 1)
    ensures InLines(t, length)
  {
  }

  lemma LineThenMore(g: seq<byte>, t: seq<byte>, length: nat)
    requires length + 4 == LINE_LENGTH && InLines(t, 0)
    requires |g| == 4 && forall i :: 0 <= i < 4 ==> g[i] !in {NEWLINE, 0}
    ensures InLines(g + [NEWLINE] + t, length)
  {
    var u := g + [NEWLINE] + t;
    forall i | 0 <= i < |u|
      ensures u[i] != 0 && (u[i] == NEWLINE <==> EndsLine(length + i) || i == |u| - 1)
    {
      if i >= 5 {
        assert u[i] == t[i - 5];
        assert length + i == (i - 5) + (LINE_LENGTH + 1);
      }
    }
  }

  lemma GroupThenMore(g: seq<byte>, t: seq<byte>, length: nat)
    requires length + 4 < LINE_LENGTH && t != [] && InLines(t, length + 4)
    requires |g| == 4 && forall i :: 0 <= i < 4 ==> g[i] !in {NEWLINE, 0}
    ensures InLines(g + t, length)
  {
    var u := g + t;
    forall i | 0 <= i < |u|
      ensures u[i] != 0 && (u[i] == NEWLINE <==> EndsLine(length + i) || i == |u| - 1)
    {
      if i >= 4 {
        assert u[i] == t[i - 4];
        assert length + i == length + 4 + (i - 4);
      }
    }
  }

  lemma EncodedNotEmpty(s: seq<byte>, length: nat)
    requires s != [] || length > 0
    ensures Encoded(s, length) != []
  {
  }

  lemma GroupLetters(a: byte, b: byte, c: byte)
    ensures forall i :: 0 <= i < 4 ==> Group(a, b, c)[i] !in {PAD, NEWLINE, 0}
    ensures forall i :: 0 <= i < 4 ==> Value(Group(a, b, c)[i]) != NO_VALUE
  {
    hide Letter, Value, Value0, Value1, Value2, Value3;
    SixBits(a, b, c);
    ValueOfLetter(Value0(a));
    ValueOfLetter(Value1(a, b));
    ValueOfLetter(Value2(b, c));
    ValueOfLetter(Value3(c));
  }

  lemma LastGroupLetters(s: seq<byte>)
    requires 1 <= |s| <= 2
    ensures forall i :: 0 <= i < 4 ==> LastGroup(s)[i] !in {NEWLINE, 0} && Value(LastGroup(s)[i]) != NO_VALUE
  {
    hide Group;
    GroupLetters(s[0], if |s| == 1 then 0 else s[1], 0);
  }

  /** How base64_encode() computes the size of its buffer, in the arithmetic of size_t. */
  method Allocate(len: nat) returns (olen: nat)
    ensures olen == ComputedLength(len)
  {
    olen := len * 4 % SIZE_LIMIT / 3 + 4;
    olen := (olen + olen / 72) % SIZE_LIMIT;
    olen := (olen + 1) % SIZE_LIMIT;
  }

  /** base64_encode() for any length that a size_t can hold: NULL if and only if four times the length is too much. */
  method Encode(src: seq<byte>) returns (out: array?<byte>, outLen: nat)
    requires |src| < SIZE_LIMIT
    ensures out == null <==> |src| * 4 >= 0x1_0000_0000_0000_0000
    ensures out != null ==> fresh(out) && out.Length == BufferLength(|src|) < 0x1_0000_0000_0000_0000
    ensures out != null ==> outLen < out.Length && out[..outLen] == Encoded(src, 0) && out[outLen] == 0
  {
    hide Encoded, BufferLength, ComputedLength;
    CheckIsExact(|src|);
    outLen := 0;
    var olen := Allocate(|src|);
    if olen < |src| {
      return null, 0;
    }
    OutputLength(|src|);
    out := new byte[olen];
    outLen := Fill(src, out);
  }

  /** What base64_encode() computes for the length, with every step modulo SIZE_MAX + 1. */
  function ComputedLength(n: nat): nat {
    var olen := n * 4 % SIZE_LIMIT / 3 + 4;
    ((olen + olen / 72) % SIZE_LIMIT + 1) % SIZE_LIMIT
  }

  /** The check for overflow, olen < len, notices every overflow of len * 4, and nothing else. */
  lemma CheckIsExact(n: nat)
    requires n < SIZE_LIMIT
    ensures ComputedLength(n) < n <==> n * 4 >= SIZE_LIMIT
  {
    var m := n * 4 % SIZE_LIMIT;
    var t := m / 3 + 4;
    ThirdFits(m, t);
    LinesFit(t);
    NoWrap(t + t / 72);
    NoWrap(t + t / 72 + 1);
    Overflows(n, n * 4 / SIZE_LIMIT);
  }

  lemma Overflows(n: nat, j: nat)
    requires n < SIZE_LIMIT && SIZE_LIMIT * j <= n * 4 < SIZE_LIMIT * (j + 1)
    ensures n * 4 % SIZE_LIMIT == n * 4 - SIZE_LIMIT * j && j <= 3
    ensures var t := (n * 4 - SIZE_LIMIT * j) / 3 + 4; t + t / 72 + 1 < n <==> j > 0
  {
  }

  /** The loop of base64_encode() and what follows it. */
  method Fill(src: seq<byte>, out: array<byte>) returns (outLen: nat)
    requires out.Length == BufferLength(|src|)
    modifies out
    ensures outLen < out.Length && out[..outLen] == Encoded(src, 0) && out[outLen] == 0
  {
    hide Group, LastGroup, Encoded, BufferLength;
    EncodedFits(src);
    ghost var all := Encoded(src, 0);
    var at, pos, lineLen := 0, 0, 0;
    assert src[0..] == src && out[..0] == [];
    while |src| - at >= 3
      invariant at <= |src| && lineLen < 72 && pos + |Encoded(src[at..], lineLen)| == |all|
      invariant out[..pos] + Encoded(src[at..], lineLen) == all
      decreases |src| - at
    {
      ghost var group := Group(src[at], src[at + 1], src[at + 2]);
      ghost var done, rest := out[..pos], src[at..];
      EncodedStep(rest, lineLen);
      assert rest[3..] == src[at + 3..];
      StoreGroup(out, pos, src[at], src[at + 1], src[at + 2]);
      pos := pos + 4;
      at := at + 3;
      lineLen := lineLen + 4;
      assert out[..pos] == done + group;
      if lineLen >= 72 {
        pos := StoreLineFeed(out, pos);
        lineLen := 0;
        Regroup(done, group, [NEWLINE], Encoded(src[at..], lineLen));
      } else {
        Regroup(done, group, [], Encoded(src[at..], lineLen));
      }
    }
    pos := StoreEnd(out, pos, src[at..], lineLen);
    out[pos] := 0;
    outLen := pos;
  }

  lemma OutputLength(n: nat)
    requires n * 4 < SIZE_LIMIT
    ensures ComputedLength(n) == BufferLength(n) < SIZE_LIMIT
  {
    NoWrap(n * 4);
    var t := n * 4 / 3 + 4;
    ThirdFits(n * 4, t);
    LinesFit(t);
  }

  lemma NoWrap(m: nat)
    requires m < SIZE_LIMIT
    ensures m % SIZE_LIMIT == m
  {
  }

  lemma ThirdFits(m: nat, t: nat)
    requires m < SIZE_LIMIT && t == m / 3 + 4
    ensures 2 * t < SIZE_LIMIT
  {
  }

  lemma LinesFit(t: nat)
    requires 2 * t < SIZE_LIMIT && t > 1
    ensures t + t / 72 + 1 < SIZE_LIMIT
  {
  }

  lemma Regroup(a: seq<byte>, b: seq<byte>, c: seq<byte>, d: seq<byte>)
    ensures a + (b + (c + d)) == a + b + c + d && a + b + [] == a + b && [] + d == d
  {
  }

  method StoreLineFeed(out: array<byte>, pos: nat) returns (next: nat)
    requires pos < out.Length
    modifies out
    ensures next == pos + 1 && out[..next] == old(out[..pos]) + [NEWLINE]
  {
    out[pos] := NEWLINE;
    next := pos + 1;
  }

  /** What follows base64_encode()'s loop, up to the NUL. */
  method StoreEnd(out: array<byte>, pos: nat, rest: seq<byte>, lineLen: nat) returns (next: nat)
    requires |rest| < 3 && pos + |Encoded(rest, lineLen)| < out.Length
    modifies out
    ensures next == pos + |Encoded(rest, lineLen)| && out[..next] == old(out[..pos]) + Encoded(rest, lineLen)
  {
    hide LastGroup, Encoded;
    EncodedEnd(rest, lineLen);
    next := pos;
    var length := lineLen;
    if |rest| > 0 {
      StoreLastGroup(out, next, rest);
      next := next + 4;
      length := length + 4;
    }
    if length > 0 {
      next := StoreLineFeed(out, next);
    }
  }

  method StoreGroup(out: array<byte>, pos: nat, a: byte, b: byte, c: byte)
    requires pos + 4 <= out.Length
    modifies out
    ensures out[..pos + 4] == old(out[..pos]) + Group(a, b, c)
  {
    hide Letter, Value0, Value1, Value2, Value3;
    SixBits(a, b, c);
    out[pos] := Letter(Value0(a));
    out[pos + 1] := Letter(Value1(a, b));
    out[pos + 2] := Letter(Value2(b, c));
    out[pos + 3] := Letter(Value3(c));
    assert out[..pos + 4] == out[..pos] + [out[pos], out[pos + 1], out[pos + 2], out[pos + 3]];
  }

  /** The branch for one or two octets left over. */
  method StoreLastGroup(out: array<byte>, pos: nat, s: seq<byte>)
    requires pos + 4 <= out.Length && 1 <= |s| <= 2
    modifies out
    ensures out[..pos + 4] == old(out[..pos]) + LastGroup(s)
  {
    hide Letter, Value0, Value1, Value2, LastGroup;
    SixBits(s[0], 0, 0);
    WithoutSecondOctet(s[0]);
    LastGroupParts(s);
    out[pos] := Letter(Value0(s[0]));
    if |s| == 1 {
      out[pos + 1] := Letter((s[0] & 0x03) << 4);
      out[pos + 2] := PAD;
    } else {
      SixBits(s[0], s[1], 0);
      WithoutThirdOctet(s[1]);
      out[pos + 1] := Letter(Value1(s[0], s[1]));
      out[pos + 2] := Letter((s[1] & 0x0F) << 2);
    }
    out[pos + 3] := PAD;
    assert out[..pos + 4] == out[..pos] + [out[pos], out[pos + 1], out[pos + 2], out[pos + 3]];
  }

  lemma LastGroupParts(s: seq<byte>)
    requires 1 <= |s| <= 2
    ensures var a, b := s[0], if |s| == 1 then 0 else s[1];
      && Value0(a) < 64 && Value1(a, b) < 64 && Value2(b, 0) < 64
      && LastGroup(s) == [Letter(Value0(a)), Letter(Value1(a, b)), if |s| == 1 then PAD else Letter(Value2(b, 0)), PAD]
  {
    hide Letter, Value0, Value1, Value2, Value3;
    SixBits(s[0], if |s| == 1 then 0 else s[1], 0);
  }

  lemma EncodedStep(s: seq<byte>, length: nat)
    requires |s| >= 3
    ensures Encoded(s, length) == Group(s[0], s[1], s[2]) +
      if length + 4 >= LINE_LENGTH then [NEWLINE] + Encoded(s[3..], 0) else Encoded(s[3..], length + 4)
  {
  }

  lemma EncodedEnd(s: seq<byte>, length: nat)
    requires |s| < 3
    ensures Encoded(s, length)
      == (if s == [] then [] else LastGroup(s)) + (if s != [] || length > 0 then [NEWLINE] else [])
  {
  }

  // ---------------------------------------------------------------- decoding

  /** The characters that stand for something: all others are passed over. */
  function Significant(s: seq<byte>): seq<byte> {
    if s == [] then [] else Kept(s[0]) + Significant(s[1..])
  }

  function Kept(c: byte): seq<byte> {
    if Value(c) != NO_VALUE then [c] else []
  }

  /** The padding characters among at most four. */
  function Pads(s: seq<byte>): nat {
    IsPad(s, 0) + IsPad(s, 1) + IsPad(s, 2) + IsPad(s, 3)
  }

  function IsPad(s: seq<byte>, i: nat): nat {
    if i < |s| && s[i] == PAD then 1 else 0
  }

  function GroupOctets(g: seq<byte>): (s: seq<byte>)
    requires |g| == 4
    ensures |s| == 3
  {
    [Octet0(Value(g[0]), Value(g[1])), Octet1(Value(g[1]), Value(g[2])), Octet2(Value(g[2]), Value(g[3]))]
  }

  /** The octets of complete groups, up to the first group with padding. */
  function DecodedGroups(c: seq<byte>): Option<seq<byte>> {
    if |c| < 4 then Some([])
    else
      var octets, pads := GroupOctets(c[..4]), Pads(c[..4]);
      if pads > 2 then None
      else if pads > 0 then Some(octets[..3 - pads])
      else
        match DecodedGroups(c[4..])
        case None => None
        case Some(more) => Some(octets + more)
  }

  /** base64_decode() */
  function Decoded(s: seq<byte>): Option<seq<byte>> {
    var c := Significant(s);
    if |c| == 0 || |c| % 4 != 0 then None else DecodedGroups(c)
  }

  lemma {:induction false} SignificantIsAlphabet(s: seq<byte>)
    ensures forall i :: 0 <= i < |Significant(s)| ==> Value(Significant(s)[i]) != NO_VALUE
  {
    if s != [] {
      hide Value;
      SignificantIsAlphabet(s[1..]);
    }
  }

  lemma {:induction false} SignificantConcat(s: seq<byte>, t: seq<byte>)
    ensures Significant(s + t) == Significant(s) + Significant(t)
  {
    if s == [] {
      assert s + t == t;
    } else {
      hide *;
      SignificantConcat(s[1..], t);
      SignificantFirst(s, []);
      SignificantFirst(s, t);
      Append(Kept(s[0]), Significant(s[1..]), Significant(t));
      assert s + [] == s && s[1..] + [] == s[1..];
    }
  }

  lemma SignificantFirst(s: seq<byte>, t: seq<byte>)
    requires s != []
    ensures Significant(s + t) == Kept(s[0]) + Significant(s[1..] + t)
  {
    hide Kept;
    assert (s + t)[1..] == s[1..] + t;
  }

  lemma Append(a: seq<byte>, b: seq<byte>, c: seq<byte>)
    ensures a + (b + c) == a + b + c
  {
  }

  lemma {:induction false} AllSignificant(s: seq<byte>)
    requires forall i :: 0 <= i < |s| ==> Value(s[i]) != NO_VALUE
    ensures Significant(s) == s
  {
    if s != [] {
      AllSignificant(s[1..]);
    }
  }

  /** A text that fits a line has its only line feed at the end. */
  lemma {:induction false} OneLine(s: seq<byte>, length: nat)
    requires s != [] && length + Characters(|s|) < LINE_LENGTH
    ensures Encoded(s, length) == Bare(s) + [NEWLINE]
    decreases |s|
  {
    hide Group, LastGroup;
    if |s| >= 3 {
      var g := Group(s[0], s[1], s[2]);
      if |s| == 3 {
        assert Encoded(s, length) == g + [NEWLINE] && Bare(s) == g + [];
      } else {
        OneLine(s[3..], length + 4);
        assert g + (Bare(s[3..]) + [NEWLINE]) == g + Bare(s[3..]) + [NEWLINE];
      }
    }
  }

  lemma LineFeedIsNot(s: seq<byte>)
    ensures Significant([NEWLINE]) == [] && Significant([NEWLINE] + s) == Significant(s)
  {
    assert ([NEWLINE] + s)[1..] == s;
  }

  /** The characters of the encoded text without its line feeds. */
  function Bare(s: seq<byte>): (t: seq<byte>)
    ensures |t| == Characters(|s|)
  {
    if s == [] then [] else if |s| < 3 then LastGroup(s) else Group(s[0], s[1], s[2]) + Bare(s[3..])
  }

  lemma DecodedIs(s: seq<byte>)
    ensures var c := Significant(s);
      Decoded(s) == if |c| == 0 || |c| % 4 != 0 then None else DecodedGroups(c)
  {
  }

  lemma BareStep(s: seq<byte>)
    ensures Bare(s) ==
      if s == [] then [] else if |s| < 3 then LastGroup(s) else Group(s[0], s[1], s[2]) + Bare(s[3..])
  {
  }

  lemma {:induction false} SignificantOfEncoded(s: seq<byte>, length: nat)
    ensures Significant(Encoded(s, length)) == Bare(s)
    decreases |s|
  {
    hide Group, LastGroup, Significant;
    if s == [] {
      LineFeedIsNot([]);
      AllSignificant([]);
    } else if |s| < 3 {
      LastGroupLetters(s);
      AllSignificant(LastGroup(s));
      SignificantConcat(LastGroup(s), [NEWLINE]);
      LineFeedIsNot([]);
    } else {
      var g, more := Group(s[0], s[1], s[2]), if length + 4 >= LINE_LENGTH then 0 else length + 4;
      GroupLetters(s[0], s[1], s[2]);
      AllSignificant(g);
      SignificantOfEncoded(s[3..], more);
      LineFeedIsNot(Encoded(s[3..], more));
      SignificantConcat(g, if more == 0 then [NEWLINE] + Encoded(s[3..], 0) else Encoded(s[3..], more));
    }
  }

  lemma GroupRoundTrip(a: byte, b: byte, c: byte)
    ensures GroupOctets(Group(a, b, c)) == [a, b, c]
  {
    hide Letter, Value, Value0, Value1, Value2, Value3, Octet0, Octet1, Octet2;
    SixBits(a, b, c);
    ValueOfLetter(Value0(a));
    ValueOfLetter(Value1(a, b));
    ValueOfLetter(Value2(b, c));
    ValueOfLetter(Value3(c));
    OctetsOfValues(a, b, c);
  }

  lemma LastGroupRoundTrip(s: seq<byte>)
    requires 1 <= |s| <= 2
    ensures Pads(LastGroup(s)) == 3 - |s| && GroupOctets(LastGroup(s))[..|s|] == s
  {
    hide Group, Value, Octet0, Octet1, Octet2;
    var g := Group(s[0], if |s| == 1 then 0 else s[1], 0);
    GroupRoundTrip(s[0], if |s| == 1 then 0 else s[1], 0);
    GroupLetters(s[0], if |s| == 1 then 0 else s[1], 0);
  }

  lemma {:induction false} BareRoundTrip(s: seq<byte>)
    ensures DecodedGroups(Bare(s)) == Some(s)
    decreases |s|
  {
    hide Group, LastGroup, GroupOctets;
    if 0 < |s| < 3 {
      LastGroupRoundTrip(s);
      assert LastGroup(s)[..4] == LastGroup(s);
    } else if |s| >= 3 {
      var g := Group(s[0], s[1], s[2]);
      GroupRoundTrip(s[0], s[1], s[2]);
      GroupLetters(s[0], s[1], s[2]);
      assert Pads(g) == 0 && [s[0], s[1], s[2]] == s[..3];
      BareRoundTrip(s[3..]);
      assert Bare(s)[..4] == g && Bare(s)[4..] == Bare(s[3..]);
      assert s == s[..3] + s[3..];
    }
  }

  /** Decoding the encoded text, line feeds and padding included, gives back the octets; no octets are the exception. */
  lemma RoundTrip(s: seq<byte>)
    ensures Decoded(Encoded(s, 0)) == if s == [] then None else Some(s)
  {
    hide Encoded, Bare, DecodedGroups, Significant, Characters;
    SignificantOfEncoded(s, 0);
    BareRoundTrip(s);
    WholeGroups(|s|);
  }

  lemma WholeGroups(n: nat)
    ensures Characters(n) % 4 == 0 && (Characters(n) == 0 <==> n == 0)
  {
  }

  /** The first loop of base64_decode(). */
  method CountSignificant(src: seq<byte>) returns (count: nat)
    ensures count == |Significant(src)|
  {
    hide Value;
    count := 0;
    assert src[0..] == src;
    for i := 0 to |src|
      invariant count + |Significant(src[i..])| == |Significant(src)|
    {
      SignificantStep(src, i);
      if Value(src[i]) != NO_VALUE {
        count := count + 1;
      }
    }
    assert src[|src|..] == [];
  }

  lemma SignificantStep(s: seq<byte>, i: nat)
    requires i < |s|
    ensures Significant(s[i..]) == (if Value(s[i]) != NO_VALUE then [s[i]] else []) + Significant(s[i + 1..])
  {
    hide Value;
    assert s[i..][1..] == s[i + 1..];
  }

  /** The values of the characters collected for a group. */
  ghost predicate Filled(block: array<byte>, pending: seq<byte>)
    reads block
  {
    block.Length == 4 && |pending| <= 4 && forall j :: 0 <= j < |pending| ==> block[j] == Value(pending[j])
  }

  lemma InGroups(count: nat)
    requires count % 4 == 0
    ensures count == 4 * (count / 4) && count / 4 * 3 == 3 * (count / 4)
  {
  }

  lemma NothingFilled(block: array<byte>)
    requires block.Length == 4
    ensures Filled(block, [])
  {
  }

  /** One more value for a group of four. */
  method PutValue(block: array<byte>, count: nat, value: byte, ghost pending: seq<byte>, ghost c: byte)
    requires Filled(block, pending) && count == |pending| < 4 && value == Value(c)
    modifies block
    ensures Filled(block, pending + [c])
  {
    hide Value;
    block[count] := value;
  }

  /**
    * The octets of one group, less those that padding stands for, and what that makes of the text from this group on.
    */
  method StoreOctets(out: array<byte>, pos: nat, block: array<byte>, pad: nat, ghost g: seq<byte>,
    ghost rest: seq<byte>)
    returns (next: nat, valid: bool)
    requires pos + 3 <= out.Length && out != block && block.Length == 4 && |g| == 4 && pad == Pads(g)
    requires Filled(block, g)
    modifies out
    ensures pos <= next <= pos + 3 && (pad == 0 ==> next == pos + 3)
    ensures var r := Behind(old(out[..pos]), DecodedGroups(g + rest));
      if !valid then r == None
      else if pad > 0 then r == Some(out[..next])
      else r == Behind(out[..next], DecodedGroups(rest))
  {
    hide Value, Octet0, Octet1, Octet2, Behind, DecodedGroups, Pads;
    DecodedStep(out[..pos], g, rest);
    out[pos] := Octet0(block[0], block[1]);
    out[pos + 1] := Octet1(block[1], block[2]);
    out[pos + 2] := Octet2(block[2], block[3]);
    next := pos + 3;
    assert out[..next] == out[..pos] + [out[pos], out[pos + 1], out[pos + 2]];
    valid := true;
    if pad > 0 {
      if pad == 1 {
        next := next - 1;
      } else if pad == 2 {
        next := next - 2;
      } else {
        valid := false;
      }
    }
    assert valid ==> out[..next] == old(out[..pos]) + GroupOctets(g)[..3 - pad];
  }

  function Behind(done: seq<byte>, r: Option<seq<byte>>): Option<seq<byte>> {
    match r
    case None => None
    case Some(more) => Some(done + more)
  }

  /** base64_decode() */
  method Decode(src: seq<byte>) returns (r: Option<seq<byte>>)
    ensures r == Decoded(src)
  {
    hide Value, Significant, DecodedGroups, GroupOctets, Pads, Behind, Decoded, Filled;
    DecodedIs(src);
    var count := CountSignificant(src);
    if count == 0 || count % 4 != 0 {
      return None;
    }
    var olen := count / 4 * 3;
    ghost var groups: nat := count / 4;
    InGroups(count);
    var out, block := new byte[olen], new byte[4];
    ghost var all := DecodedGroups(Significant(src));
    var pos, pad := 0, 0;
    ghost var pending: seq<byte> := [];
    count := 0;
    assert src[0..] == src && out[..0] == [];
    BehindNothing(all);
    assert [] + Significant(src) == Significant(src);
    NothingFilled(block);
    var i := 0;
    while i < |src|
      invariant i <= |src| && count == |pending| < 4 && pad == Pads(pending) && pos <= out.Length
      invariant Filled(block, pending)
      invariant all == Behind(out[..pos], DecodedGroups(pending + Significant(src[i..])))
      invariant count + |Significant(src[i..])| == 4 * groups && pos + 3 * groups == olen
      decreases |src| - i
    {
      ghost var before, rest := pending, Significant(src[i + 1..]);
      SignificantStep(src, i);
      var tmp := Value(src[i]);
      i := i + 1;
      if tmp == NO_VALUE {
        assert pending + ([] + rest) == pending + rest;
        continue;
      }
      PendingStep(pending, src[i - 1], rest);
      PutValue(block, count, tmp, pending, src[i - 1]);
      pending := pending + [src[i - 1]];
      if src[i - 1] == PAD {
        pad := pad + 1;
      }
      count := count + 1;
      if count == 4 {
        var valid;
        pos, valid := StoreOctets(out, pos, block, pad, pending, rest);
        count := 0;
        groups := groups - 1;
        if !valid {
          return None;
        }
        if pad > 0 {
          return Some(out[..pos]);
        }
        pending := [];
        NothingFilled(block);
        assert [] + rest == rest;
      }
    }
    NothingLeft(out[..pos], src[i..], pending, groups);
    r := Some(out[..pos]);
  }

  lemma PendingStep(pending: seq<byte>, c: byte, rest: seq<byte>)
    requires |pending| < 4
    ensures pending + ([c] + rest) == (pending + [c]) + rest
    ensures Pads(pending + [c]) == Pads(pending) + (if c == PAD then 1 else 0) && Pads([]) == 0
  {
  }

  lemma BehindNothing(r: Option<seq<byte>>)
    ensures Behind([], r) == r && Pads([]) == 0
  {
    if r.Some? {
      assert [] + r.value == r.value;
    }
  }

  lemma NothingLeft(done: seq<byte>, s: seq<byte>, pending: seq<byte>, groups: nat)
    requires s == [] && |pending| + |Significant(s)| == 4 * groups && |pending| < 4
    ensures Behind(done, DecodedGroups(pending + Significant(s))) == Some(done)
  {
    assert done + [] == done;
  }

  lemma DecodedStep(done: seq<byte>, g: seq<byte>, rest: seq<byte>)
    requires |g| == 4
    ensures var r := Behind(done, DecodedGroups(g + rest));
      if Pads(g) > 2 then r == None
      else if Pads(g) > 0 then r == Some(done + GroupOctets(g)[..3 - Pads(g)])
      else r == Behind(done + GroupOctets(g)[..3], DecodedGroups(rest))
  {
    hide GroupOctets, Pads;
    var c := g + rest;
    assert c[..4] == g && c[4..] == rest && GroupOctets(g)[..3] == GroupOctets(g);
    if Pads(g) == 0 && DecodedGroups(rest).Some? {
      assert done + (GroupOctets(g) + DecodedGroups(rest).value) == done + GroupOctets(g) + DecodedGroups(rest).value;
    }
  }

  // ---------------------------------------------------------------- which texts are accepted

  /** Section 4 of RFC 4648: padding stands for the last one or two characters of the last group, and nowhere else. */
  predicate PadsAtEnd(g: seq<byte>)
    requires |g| == 4
  {
    g[0] != PAD && g[1] != PAD && (g[2] == PAD ==> g[3] == PAD)
  }

  predicate WellFormed(c: seq<byte>) {
    if |c| < 4 then c == []
    else PadsAtEnd(c[..4]) && (Pads(c[..4]) == 0 || |c| == 4) && WellFormed(c[4..])
  }

  /** Where the first group with padding begins. */
  function FirstPadded(c: seq<byte>): (p: nat)
    ensures p <= |c| && (p < |c| && |c| % 4 == 0 ==> p + 4 <= |c|)
    decreases |c|
  {
    if |c| < 4 then |c| else if Pads(c[..4]) > 0 then 0 else 4 + FirstPadded(c[4..])
  }

  /** base64_decode() accepts whole groups of which the first with padding has at most two padding characters. */
  lemma AcceptedTexts(s: seq<byte>)
    ensures Decoded(s).Some? <==>
      var c := Significant(s);
      var p := FirstPadded(c);
      c != [] && |c| % 4 == 0 && (p < |c| ==> Pads(c[p..p + 4]) <= 2)
  {
    hide Significant, Pads;
    if |Significant(s)| % 4 == 0 {
      GroupsAccepted(Significant(s));
    }
  }

  lemma {:induction false} GroupsAccepted(c: seq<byte>)
    requires |c| % 4 == 0
    ensures var p := FirstPadded(c);
      DecodedGroups(c).Some? <==> (p < |c| ==> Pads(c[p..p + 4]) <= 2)
    decreases |c|
  {
    if c != [] {
      hide Pads, GroupOctets;
      GroupsAccepted(c[4..]);
      var q := FirstPadded(c[4..]);
      assert q < |c[4..]| ==> c[4..][q..q + 4] == c[4 + q..4 + q + 4];
    }
  }

  /**
    * A text that is not base64 is accepted if and only if its first group with padding has one or two padding
    * characters that are not at its end, or has more text behind it.
    */
  lemma MalformedAccepted(s: seq<byte>)
    ensures Decoded(s).Some? && !WellFormed(Significant(s)) <==>
      var c := Significant(s);
      var p := FirstPadded(c);
      |c| % 4 == 0 && p < |c| && Pads(c[p..p + 4]) <= 2 && (!PadsAtEnd(c[p..p + 4]) || p + 4 < |c|)
  {
    hide Significant, Pads, PadsAtEnd;
    AcceptedTexts(s);
    if |Significant(s)| % 4 == 0 {
      GroupsWellFormed(Significant(s));
    }
  }

  lemma {:induction false} GroupsWellFormed(c: seq<byte>)
    requires |c| % 4 == 0
    ensures var p := FirstPadded(c);
      WellFormed(c) <==> (p < |c| ==> PadsAtEnd(c[p..p + 4]) && p + 4 == |c|)
    decreases |c|
  {
    if c != [] {
      GroupsWellFormed(c[4..]);
      var q := FirstPadded(c[4..]);
      assert q < |c[4..]| ==> c[4..][q..q + 4] == c[4 + q..4 + q + 4];
      assert |c| == 4 ==> c[4..] == [] && c[..4] == c;
    }
  }

  /** What the encoder writes is base64. */
  lemma EncodedIsWellFormed(s: seq<byte>)
    ensures WellFormed(Significant(Encoded(s, 0)))
  {
    hide Encoded, Bare, WellFormed, Significant;
    SignificantOfEncoded(s, 0);
    BareIsWellFormed(s);
  }

  lemma {:induction false} BareIsWellFormed(s: seq<byte>)
    ensures WellFormed(Bare(s))
    decreases |s|
  {
    hide Group;
    if 0 < |s| < 3 {
      GroupLetters(s[0], if |s| == 1 then 0 else s[1], 0);
      assert LastGroup(s)[..4] == LastGroup(s) && LastGroup(s)[4..] == [];
    } else if |s| >= 3 {
      var g := Group(s[0], s[1], s[2]);
      GroupLetters(s[0], s[1], s[2]);
      BareIsWellFormed(s[3..]);
      assert Bare(s)[..4] == g && Bare(s)[4..] == Bare(s[3..]);
    }
  }

  /** The padding of =AAA is at the wrong end, and behind AA== more text follows. */
  const PAD_FIRST: seq<byte> := [PAD, 0x41, 0x41, 0x41]
  const PAD_INSIDE: seq<byte> := [0x41, 0x41, PAD, PAD, 0x41, 0x41, 0x41, 0x41]

  lemma MalformedExamples()
    ensures Decoded(PAD_FIRST) == Some([0, 0]) && !WellFormed(Significant(PAD_FIRST))
    ensures Decoded(PAD_INSIDE) == Some([0]) && !WellFormed(Significant(PAD_INSIDE))
  {
    AllSignificant(PAD_FIRST);
    AllSignificant(PAD_INSIDE);
    var inside := PAD_INSIDE[..4];
    assert PAD_FIRST[..4] == PAD_FIRST && inside == [0x41, 0x41, PAD, PAD];
    ZeroOctets(PAD_FIRST);
    ZeroOctets(inside);
    hide GroupOctets, Significant;
    var octets: seq<byte> := [0, 0, 0];
    assert octets[..2] == [0, 0] && octets[..1] == [0];
    assert Pads(PAD_FIRST) == 1 && Pads(inside) == 2;
    assert DecodedGroups(PAD_FIRST) == Some(octets[..2]) && DecodedGroups(PAD_INSIDE) == Some(octets[..1]);
  }

  lemma ZeroOctets(g: seq<byte>)
    requires |g| == 4 && forall i :: 0 <= i < 4 ==> g[i] in {PAD, 0x41}
    ensures GroupOctets(g) == [0, 0, 0]
  {
    assert Value(g[0]) == 0 && Value(g[1]) == 0 && Value(g[2]) == 0 && Value(g[3]) == 0;
  }
}
