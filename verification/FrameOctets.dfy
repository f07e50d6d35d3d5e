/** Frames octet by octet, as section 5 of RFC 6455 lays them out, and what next_frame() makes of each. */
module FrameOctets {
  import opened Bytes
  import opened Frames
  import opened Messages
  import Utf8

  // ---------------------------------------------------------------- frames of a client

  /**
    * The first frame of s has its key at e and n octets of payload behind it. The second octet has the length in its
    * low seven bits, or 126 and two octets, or 127 and eight octets follow.
    */
  predicate FrameAt(s: seq<byte>, e: nat, n: nat) {
    && 2 <= e && e + 4 + n <= |s|
    && var small := s[1] as int % 128;
       if small == 126 then e == 4 && n == 256 * (s[2] as int) + s[3] as int
       else if small == 127 then e == 10 && n == 0x1_0000_0000 * Word(s[2..]) + Word(s[6..])
       else e == 2 && n == small
  }

  /** Octet i of the payload: exclusive or with octet i mod 4 of the key. */
  function PayloadAt(s: seq<byte>, e: nat, n: nat): (p: seq<byte>)
    requires e + 4 + n <= |s|
    ensures |p| == n && forall i :: 0 <= i < n ==> p[i] == s[e + 4 + i] ^ s[e + i % 4]
  {
    seq(n, i requires 0 <= i < n => s[e + 4 + i] ^ s[e + i % 4])
  }

  lemma SmallIsInt(b: byte)
    ensures SmallLengthOf(b) == b as int % 128
  {
    hide Num;
    LowBits(b);
    NumIsInt(b);
  }

  /** The length field is read as the number that is there. */
  lemma LengthField(s: seq<byte>, e: nat, n: nat)
    requires FrameAt(s, e, n)
    ensures var small := SmallLengthOf(s[1]);
      e == 2 + ExtendedOctets(FormOf(small)) && BodyLength(small, s[2..]) == n
  {
    hide Num, SmallLengthOf, BigEndianValue;
    SmallIsInt(s[1]);
    if e == 4 {
      assert s[2..][..2] == s[2..4];
      TwoOctets(s[2..4]);
    } else if e == 10 {
      assert s[2..][..8] == s[2..10] && s[2..10][4..] == s[6..10];
      EightOctets(s[2..10]);
    }
  }

  /** A frame that is there is read, unmasked, and what follows it is left. */
  lemma FrameIsRead(s: seq<byte>, e: nat, n: nat)
    requires FrameAt(s, e, n)
    ensures var f := ParseFrame(s);
      && f.Parsed? && f.value.head == s[0] && f.value.payload == PayloadAt(s, e, n) && f.rest == s[e + 4 + n..]
      && (f.value.form == Short <==> e == 2)
  {
    hide SmallLengthOf, BigEndianValue, FrameAt, Num;
    LengthField(s, e, n);
    LongEnough(s, e, n);
    Behind(s, e - 2, e + 2);
    Behind(s, e + 2, e + 2 + n);
    Behind(s, e + 2 + n, |s| - 2);
    MaskedByOctets(s, e, n);
    assert s[2..][e + 2 + n..] == s[2..][e + 2 + n..|s| - 2];
    hide Masked;
  }

  lemma Behind(s: seq<byte>, i: nat, j: nat)
    requires i <= j && 2 + j <= |s|
    ensures s[2..][i..j] == s[2 + i..2 + j]
  {
  }

  lemma MaskedByOctets(s: seq<byte>, e: nat, n: nat)
    requires e + 4 + n <= |s|
    ensures Masked(s[e..e + 4], s[e + 4..e + 4 + n]) == PayloadAt(s, e, n)
  {
    var key, data := s[e..e + 4], s[e + 4..e + 4 + n];
    forall i | 0 <= i < n ensures Masked(key, data)[i] == PayloadAt(s, e, n)[i] {
      assert data[i] == s[e + 4 + i] && key[i % 4] == s[e + i % 4];
    }
  }

  lemma LongEnough(s: seq<byte>, e: nat, n: nat)
    requires FrameAt(s, e, n)
    ensures 2 <= e && e + 4 + n <= |s|
  {
  }

  /** And what is read is there. */
  lemma ReadIsThere(s: seq<byte>) returns (e: nat, n: nat)
    requires ParseFrame(s).Parsed?
    ensures FrameAt(s, e, n)
  {
    hide SmallLengthOf, BigEndianValue, Masked, Num;
    var small := SmallLengthOf(s[1]);
    e, n := 2 + ExtendedOctets(FormOf(small)), BodyLength(small, s[2..]);
    SmallIsInt(s[1]);
    if e == 4 {
      assert s[2..][..2] == s[2..4];
      TwoOctets(s[2..4]);
    } else if e == 10 {
      assert s[2..][..8] == s[2..10] && s[2..10][4..] == s[6..10];
      EightOctets(s[2..10]);
    }
  }

  // ---------------------------------------------------------------- frames of the server

  /** The frame that the server sends: FIN, the opcode, no mask, the shortest length, the payload. */
  lemma ServerOctets(opcode: nat, payload: seq<byte>)
    requires opcode < 16 && |payload| < 0x1_0000_0000_0000_0000
    ensures var f, n := ServerFrame(opcode, payload), |payload|;
      && |f| >= 2 && f[0] as int == 128 + opcode
      && if n <= 125 then f[1] as int == n && f[2..] == payload
         else if n <= 65535 then
           |f| >= 4 && f[1] == 126 && 256 * (f[2] as int) + f[3] as int == n && f[4..] == payload
         else
           |f| >= 10 && f[1] == 127 && 0x1_0000_0000 * Word(f[2..]) + Word(f[6..]) == n && f[10..] == payload
  {
    hide ByteOf, BigEndian, BigEndianValue, Pow256;
    var f, n := ServerFrame(opcode, payload), |payload|;
    ByteOfIsInt(128 + opcode);
    if n <= 125 {
      ByteOfIsInt(n);
    } else if n <= 65535 {
      Pow256Of2();
      BigEndianRoundTrip(n, 2);
      assert f[2..4] == BigEndian(n, 2);
      TwoOctets(f[2..4]);
    } else {
      Pow256Of8();
      BigEndianRoundTrip(n, 8);
      assert f[2..10] == BigEndian(n, 8) && f[2..10][4..] == f[6..10];
      EightOctets(f[2..10]);
    }
  }

  /** The frames with which the server answers. */
  lemma Answer(opcode: nat, payload: seq<byte>, head: byte, length: byte)
    requires opcode < 16 && |payload| <= 125 && head as int == 128 + opcode && length as int == |payload|
    ensures ServerFrame(opcode, payload) == [head, length] + payload
  {
    hide ServerFrame;
    ServerOctets(opcode, payload);
    var f := ServerFrame(opcode, payload);
    assert f == [f[0], f[1]] + f[2..];
    SameOctet(f[0], head);
    SameOctet(f[1], length);
  }

  // ---------------------------------------------------------------- what each frame does

  /** FIN and the opcode, with RSV clear, make 32 first octets; twelve of them have an opcode of section 5.2. */
  lemma Heads(head: byte)
    requires !HasRsv(head) && Opcode(head) in {0, 1, 2, 8, 9, 10}
    ensures head as int == Opcode(head) + if IsFin(head) then 128 else 0
  {
    hide Num;
    NumIsInt(head & 0x0F);
    HeadBits(head);
  }

  lemma HeadBits(head: byte)
    requires head & 0x70 == 0
    ensures head as int == (head & 0x0F) as int + if head & 0x80 != 0 then 128 else 0
  {
  }

  lemma HeadOf(head: byte, fin: bool, opcode: byte)
    requires opcode < 16 && head == (if fin then 0x80 | opcode else opcode)
    ensures !HasRsv(head) && Opcode(head) == opcode as int && IsFin(head) == fin
  {
    hide Num;
    NumIsInt(head & 0x0F);
    HeadMade(opcode);
  }

  lemma HeadMade(opcode: byte)
    requires opcode < 16
    ensures opcode & 0x70 == 0 && opcode & 0x0F == opcode && opcode & 0x80 == 0
    ensures (0x80 | opcode) & 0x70 == 0 && (0x80 | opcode) & 0x0F == opcode && (0x80 | opcode) & 0x80 != 0
  {
  }

  /**
    * What a call makes of the frame at the start of s, by its first octet. 80 and 00 go on with the message under way,
    * 81 and 01 begin text, 82 and 02 binary data; 88, 89 and 8A are CLOSE, PING and PONG; any other octet ends it.
    */
  ghost function Reaction(s: seq<byte>, e: nat, n: nat, kind: int, data: seq<byte>, closing: bool): Outcome
    requires FrameAt(s, e, n)
    decreases |s|
  {
    var head, p, rest := s[0], PayloadAt(s, e, n), s[e + 4 + n..];
    if head == 0x88 && e == 2 then
      if n > 2 && !Utf8.Octets(p[2..]) then Failed([]) else Closed(p, [], rest)
    else if closing then Failed([])
    else if head == 0x89 && e == 2 then
      Receive(rest, kind, data, closing).After([0x8A, s[1] & 0x7F] + p)
    else if head == 0x8A && e == 2 then Receive(rest, kind, data, closing)
    else if head in {0x00, 0x01, 0x02, 0x80, 0x81, 0x82} && (head in {0x00, 0x80} <==> kind != -1)
      && |data| + n <= 16777216
    then
      var k := if head in {0x01, 0x81} then 1 else if head in {0x02, 0x82} then 2 else kind;
      var all := data + p;
      if k == 1 && !(if head >= 0x80 then Utf8.Octets(all) else Utf8.Viable(all)) then Failed([0x88, 2, 3, 0xEF])
      else if head >= 0x80 then Message(k, all, [], rest)
      else Receive(rest, k, all, closing)
    else Failed([])
  }

  lemma FrameReacts(s: seq<byte>, e: nat, n: nat, kind: int, data: seq<byte>, closing: bool)
    requires FrameAt(s, e, n) && kind in {-1, 1, 2}
    ensures Receive(s, kind, data, closing) == Reaction(s, e, n, kind, data, closing)
  {
    hide *;
    FrameIsRead(s, e, n);
    LongEnough(s, e, n);
    var f, head := ParseFrame(s).value, s[0];
    Listed(head);
    if head in {0x00, 0x01, 0x02, 0x80, 0x81, 0x82} {
      DataReacts(s, e, n, kind, data, closing);
    } else if head in {0x88, 0x89, 0x8A} {
      ControlReacts(s, e, n, kind, data, closing);
    } else {
      OtherReacts(s, e, n, kind, data, closing);
    }
  }

  /** The first octets that a frame may have. */
  lemma Listed(head: byte)
    ensures head in {0x00, 0x01, 0x02} ==> !HasRsv(head) && Opcode(head) == head as int && !IsFin(head)
    ensures head in {0x80, 0x81, 0x82, 0x88, 0x89, 0x8A} ==>
      !HasRsv(head) && Opcode(head) == head as int - 128 && IsFin(head)
    ensures head !in {0x00, 0x01, 0x02, 0x80, 0x81, 0x82, 0x88, 0x89, 0x8A} ==>
      HasRsv(head) || Opcode(head) !in {0, 1, 2, 8, 9, 10} || (Opcode(head) in {8, 9, 10} && !IsFin(head))
  {
    hide HasRsv, IsFin, Opcode;
    if head in {0x00, 0x01, 0x02} {
      HeadOf(head, false, head);
    } else if head in {0x80, 0x81, 0x82, 0x88, 0x89, 0x8A} {
      HeadOf(head, true, head & 0x0F);
    } else if !HasRsv(head) && Opcode(head) in {0, 1, 2, 8, 9, 10} && (Opcode(head) in {8, 9, 10} ==> IsFin(head)) {
      Heads(head);
      ListedNumbers(head);
    }
  }

  lemma ListedNumbers(head: byte)
    requires head as int in {0, 1, 2, 128, 129, 130, 136, 137, 138}
    ensures head in {0x00, 0x01, 0x02, 0x80, 0x81, 0x82, 0x88, 0x89, 0x8A}
  {
    SameOctet(head, if head as int == 0 then 0 else if head as int == 1 then 1 else if head as int == 2 then 2
      else if head as int == 128 then 0x80 else if head as int == 129 then 0x81 else if head as int == 130 then 0x82
      else if head as int == 136 then 0x88 else if head as int == 137 then 0x89 else 0x8A);
  }

  lemma DataReacts(s: seq<byte>, e: nat, n: nat, kind: int, data: seq<byte>, closing: bool)
    requires FrameAt(s, e, n) && kind in {-1, 1, 2} && s[0] in {0x00, 0x01, 0x02, 0x80, 0x81, 0x82}
    ensures Receive(s, kind, data, closing) == Reaction(s, e, n, kind, data, closing)
  {
    hide ParseFrame, FrameAt, HasRsv, IsFin, Opcode, ServerFrame, Utf8.Octets, Utf8.Viable;
    FrameIsRead(s, e, n);
    LongEnough(s, e, n);
    Listed(s[0]);
    Answer(8, [3, 0xEF], 0x88, 2);
    assert [0x88, 2] + [3, 0xEF] == [0x88 as byte, 2, 3, 0xEF];
  }

  lemma ControlReacts(s: seq<byte>, e: nat, n: nat, kind: int, data: seq<byte>, closing: bool)
    requires FrameAt(s, e, n) && kind in {-1, 1, 2} && s[0] in {0x88, 0x89, 0x8A}
    ensures Receive(s, kind, data, closing) == Reaction(s, e, n, kind, data, closing)
  {
    hide ParseFrame, FrameAt, HasRsv, IsFin, Opcode, ServerFrame, Utf8.Octets, Utf8.Viable;
    FrameIsRead(s, e, n);
    LongEnough(s, e, n);
    Listed(s[0]);
    if e == 2 {
      ShortLength(s, n);
      Answer(10, PayloadAt(s, e, n), 0x8A, s[1] & 0x7F);
    }
  }

  lemma OtherReacts(s: seq<byte>, e: nat, n: nat, kind: int, data: seq<byte>, closing: bool)
    requires FrameAt(s, e, n) && s[0] !in {0x00, 0x01, 0x02, 0x80, 0x81, 0x82, 0x88, 0x89, 0x8A}
    ensures Receive(s, kind, data, closing) == Reaction(s, e, n, kind, data, closing)
  {
    hide ParseFrame, FrameAt, HasRsv, IsFin, Opcode, ServerFrame, Utf8.Octets, Utf8.Viable;
    FrameIsRead(s, e, n);
    LongEnough(s, e, n);
    Listed(s[0]);
  }

  lemma ShortLength(s: seq<byte>, n: nat)
    requires FrameAt(s, 2, n)
    ensures n <= 125 && (s[1] & 0x7F) as int == n
  {
    hide Num;
    LowBits(s[1]);
    NumIsInt(s[1]);
    NumIsInt(s[1] & 0x7F);
  }

  /** A message in one frame. */
  lemma WholeMessage(s: seq<byte>, e: nat, n: nat)
    requires FrameAt(s, e, n) && n <= 16777216
    ensures var o, p, rest := Receive(s, -1, [], false), PayloadAt(s, e, n), s[e + 4 + n..];
      && (s[0] == 0x82 ==> o == Message(2, p, [], rest))
      && (s[0] == 0x81 ==> o == if Utf8.Octets(p) then Message(1, p, [], rest) else Failed([0x88, 2, 3, 0xEF]))
  {
    hide Receive, FrameAt, Utf8.Octets;
    LongEnough(s, e, n);
    FrameReacts(s, e, n, -1, [], false);
    assert [] + PayloadAt(s, e, n) == PayloadAt(s, e, n);
  }

  /** A stream that has no whole frame at its start ends the call. */
  lemma NoWholeFrame(s: seq<byte>, kind: int, data: seq<byte>, closing: bool)
    requires forall e, n :: !FrameAt(s, e, n)
    ensures Receive(s, kind, data, closing) == Failed([])
  {
    if ParseFrame(s).Parsed? {
      var e, n := ReadIsThere(s);
      assert false;
    }
  }

  // ---------------------------------------------------------------- closing, and whole sessions

  /** The answer to a CLOSE: the reason again, or 1002 for a single octet or a code that section 7.4 does not allow. */
  lemma CloseReplies(reason: seq<byte>, length: byte)
    requires |reason| <= 125 && length as int == |reason|
    ensures CloseReply(reason) ==
      if |reason| == 1 then [0x88, 2, 0x03, 0xEA]
      else if |reason| == 2 then
        var code := 256 * (reason[0] as int) + reason[1] as int;
        if 1000 <= code <= 1003 || 1007 <= code <= 1011 || 3000 <= code <= 4999 then [0x88, 2] + reason
        else [0x88, 2, 0x03, 0xEA]
      else [0x88, length] + reason
  {
    hide ServerFrame, BigEndianValue;
    Answer(8, reason, 0x88, length);
    Answer(8, [0x03, 0xEA], 0x88, 2);
    assert [0x88, 2] + [0x03, 0xEA] == [0x88 as byte, 2, 0x03, 0xEA];
    if |reason| == 2 {
      TwoOctets(reason);
      SameOctet(length, 2);
    } else if |reason| == 1 {
      OneOctet(reason);
    }
  }

  lemma OneOctet(s: seq<byte>)
    requires |s| == 1
    ensures BigEndianValue(s) < 256
  {
    hide Num;
    assert s[..0] == [];
  }

  /** A session at a frame that is a whole message, or a CLOSE, or none that is allowed there. */
  lemma SessionByOctets(s: seq<byte>, e: nat, n: nat)
    requires FrameAt(s, e, n)
    ensures var p, rest := PayloadAt(s, e, n), s[e + 4 + n..];
      && (s[0] == 0x82 && n <= 16777216 ==> Session(s) == Session(rest).After([(2, p)], []))
      && (s[0] == 0x81 && n <= 16777216 ==>
            Session(s) == if Utf8.Octets(p) then Session(rest).After([(1, p)], []) else Service([], [0x88, 2, 3, 0xEF]))
      && (s[0] == 0x88 && e == 2 ==>
            Session(s) == Service([], if n > 2 && !Utf8.Octets(p[2..]) then [] else CloseReply(p)))
      && (s[0] !in {0x01, 0x02, 0x81, 0x82, 0x88, 0x89, 0x8A} ==> Session(s) == Service([], []))
  {
    hide Receive, FrameAt, CloseReply, Utf8.Octets;
    FrameReacts(s, e, n, -1, [], false);
    LongEnough(s, e, n);
    if n <= 16777216 {
      WholeMessage(s, e, n);
    }
    var p := PayloadAt(s, e, n);
    assert [] + CloseReply(p) == CloseReply(p);
  }

  // ---------------------------------------------------------------- the examples of section 5.7

  const HELLO: seq<byte> := [0x48, 0x65, 0x6C, 0x6C, 0x6F]

  /** A single-frame masked text message. */
  lemma MaskedHello(s: seq<byte>)
    requires |s| >= 11 && s[..11] == [0x81, 0x85, 0x37, 0xFA, 0x21, 0x3D, 0x7F, 0x9F, 0x4D, 0x51, 0x58]
    ensures Receive(s, -1, [], false) == Message(1, HELLO, [], s[11..])
  {
    hide *;
    HelloOctets(s, s[..11]);
    HelloIsUtf8();
    WholeMessage(s, 2, 5);
  }

  lemma HelloIsUtf8()
    ensures Utf8.Octets(HELLO)
  {
    AsciiIsUtf8(HELLO);
  }

  lemma HelloOctets(s: seq<byte>, t: seq<byte>)
    requires |s| >= 11 && s[..11] == t == [0x81, 0x85, 0x37, 0xFA, 0x21, 0x3D, 0x7F, 0x9F, 0x4D, 0x51, 0x58]
    ensures FrameAt(s, 2, 5) && s[0] == 0x81 && PayloadAt(s, 2, 5) == HELLO
  {
    assert forall i :: 0 <= i < 11 ==> s[i] == t[i];
    NumIsInt(s[1]);
    var p := PayloadAt(s, 2, 5);
    assert p == [p[0], p[1], p[2], p[3], p[4]];
  }

  lemma {:induction false} AsciiIsUtf8(s: seq<byte>)
    requires forall i :: 0 <= i < |s| ==> s[i] <= 0x7F
    ensures Utf8.Octets(s)
  {
    if s != [] {
      assert Utf8.Char(s[..1]);
      AsciiIsUtf8(s[1..]);
    }
  }

  /** What the server sends: a single-frame unmasked text message, and a PONG. */
  lemma UnmaskedHello()
    ensures ServerFrame(1, HELLO) == [0x81, 0x05] + HELLO && ServerFrame(10, HELLO) == [0x8A, 0x05] + HELLO
  {
    Answer(1, HELLO, 0x81, 5);
    Answer(10, HELLO, 0x8A, 5);
  }

  /** 256 and 64Ki octets of binary data. */
  lemma LongFrames(p: seq<byte>, q: seq<byte>)
    requires |p| == 256 && |q| == 65536
    ensures ServerFrame(2, p) == [0x82, 0x7E, 0x01, 0x00] + p
    ensures ServerFrame(2, q) == [0x82, 0x7F, 0, 0, 0, 0, 0, 1, 0, 0] + q
  {
    hide ServerFrame;
    var f, g := ServerFrame(2, p), ServerFrame(2, q);
    ServerOctets(2, p);
    ServerOctets(2, q);
    SameOctet(f[0], 0x82);
    SameOctet(g[0], 0x82);
    SameOctet(f[2], 1);
    SameOctet(f[3], 0);
    assert f == [f[0], f[1], f[2], f[3]] + f[4..];
    SmallWord(g);
    assert g == [g[0], g[1], g[2], g[3], g[4], g[5], g[6], g[7], g[8], g[9]] + g[10..];
  }

  lemma SmallWord(g: seq<byte>)
    requires |g| >= 10 && 0x1_0000_0000 * Word(g[2..]) + Word(g[6..]) == 65536
    ensures g[2] == g[3] == g[4] == g[5] == g[6] == 0 && g[7] == 1 && g[8] == g[9] == 0
  {
    SameOctet(g[2], 0);
    SameOctet(g[3], 0);
    SameOctet(g[4], 0);
    SameOctet(g[5], 0);
    SameOctet(g[6], 0);
    SameOctet(g[7], 1);
    SameOctet(g[8], 0);
    SameOctet(g[9], 0);
  }
}
