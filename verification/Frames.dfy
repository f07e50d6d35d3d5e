/** The frame format of RFC 6455 section 5.2, as ws.c reads and writes it. */
module Frames {
  import opened Bytes

  const CONT := 0
  const TEXT := 1
  const BINARY := 2
  const CLOSE := 8
  const PING := 9
  const PONG := 10

  /** MAX_FRAME_LENGTH */
  const MAX_LENGTH := 16 * 1024 * 1024

  predicate IsControl(opcode: int) {
    opcode == CLOSE || opcode == PING || opcode == PONG
  }

  predicate IsFin(head: byte) { head & 0x80 != 0 }

  predicate HasRsv(head: byte) { head & 0x70 != 0 }

  function Opcode(head: byte): (n: nat)
    ensures n < 16
  {
    LowBits(head);
    Num(head & 0x0F)
  }

  /** The three ways to write a payload length: 7 bits, 16 bits, 64 bits. */
  datatype LengthForm = Short | Medium | Long

  /** A client frame: its first octet, the mask bit, the form of its length, the masking key and the bare payload. */
  datatype Frame = Frame(head: byte, maskBit: bool, form: LengthForm, key: seq<byte>, payload: seq<byte>) {
    predicate WellFormed() {
      && |key| == 4
      && match form
         case Short => |payload| <= 125
         case Medium => |payload| < 0x1_0000
         case Long => |payload| < Pow256(8)
    }

    function Op(): nat { Opcode(head) }

    predicate Fin() { IsFin(head) }

    predicate Data() { !IsControl(Op()) }

    /** The frame on the wire. */
    function Wire(): seq<byte> {
      [head, LengthOctet(maskBit, SmallLength())] + ExtendedLength() + key + Masked(key, payload)
    }

    function SmallLength(): nat {
      match form
      case Short => |payload|
      case Medium => 126
      case Long => 127
    }

    function ExtendedLength(): seq<byte> {
      match form
      case Short => []
      case Medium => BigEndian(|payload|, 2)
      case Long => BigEndian(|payload|, 8)
    }
  }

  function LengthOctet(maskBit: bool, n: nat): byte {
    ByteOf((if maskBit then 128 else 0) + n)
  }

  /** Section 5.3: octet i is exclusive-ored with octet i mod 4 of the key. */
  function Masked(key: seq<byte>, data: seq<byte>): (r: seq<byte>)
    ensures |r| == |data|
  {
    if |key| != 4 then data else seq(|data|, i requires 0 <= i < |data| => data[i] ^ key[i % 4])
  }

  lemma MaskedTwice(key: seq<byte>, data: seq<byte>)
    ensures Masked(key, Masked(key, data)) == data
  {
    if |key| == 4 {
      forall i | 0 <= i < |data| ensures Masked(key, Masked(key, data))[i] == data[i] {
        assert (data[i] ^ key[i % 4]) ^ key[i % 4] == data[i];
      }
    }
  }

  // ---------------------------------------------------------------- reading frames

  /** What the length octet announces: (mask bit, 7-bit length). */
  function SmallLengthOf(b: byte): (n: nat)
    ensures n < 128
  {
    LowBits(b);
    Num(b & 0x7F)
  }

  function FormOf(small: nat): LengthForm {
    if small == 126 then Medium else if small == 127 then Long else Short
  }

  function ExtendedOctets(form: LengthForm): nat {
    match form
    case Short => 0
    case Medium => 2
    case Long => 8
  }

  datatype Parsed<T> = Truncated | Parsed(value: T, rest: seq<byte>)

  datatype Body = Body(key: seq<byte>, payload: seq<byte>)

  /** Everything that follows the two header octets. */
  function ParseBody(small: nat, s: seq<byte>): (r: Parsed<Body>)
    ensures r.Parsed? ==> |r.rest| <= |s|
  {
    var e := ExtendedOctets(FormOf(small));
    if |s| < e then Truncated else
      var n := if e == 0 then small else BigEndianValue(s[..e]);
      if |s| < e + 4 + n then Truncated else
        var key := s[e..e + 4];
        Parsed(Body(key, Masked(key, s[e + 4..e + 4 + n])), s[e + 4 + n..])
  }

  /** The length ParseBody reads, once the extended length is there. */
  function BodyLength(small: nat, s: seq<byte>): nat
    requires |s| >= ExtendedOctets(FormOf(small))
  {
    var e := ExtendedOctets(FormOf(small));
    if e == 0 then small else BigEndianValue(s[..e])
  }

  function ParseFrame(s: seq<byte>): (r: Parsed<Frame>)
    ensures r.Parsed? ==> |r.rest| < |s|
  {
    if |s| < 2 then Truncated else
      var small := SmallLengthOf(s[1]);
      match ParseBody(small, s[2..])
      case Truncated => Truncated
      case Parsed(body, rest) => Parsed(Frame(s[0], s[1] >= 0x80, FormOf(small), body.key, body.payload), rest)
  }

  lemma LengthOctetRoundTrip(maskBit: bool, n: nat)
    requires n < 128
    ensures SmallLengthOf(LengthOctet(maskBit, n)) == n && (LengthOctet(maskBit, n) >= 0x80 <==> maskBit)
  {
    hide ByteOf, Num;
    NumOfByte((if maskBit then 128 else 0) + n);
    LowBits(LengthOctet(maskBit, n));
  }

  /** Masking off high bits is arithmetic modulo a power of two. */
  lemma LowBits(b: byte)
    ensures Num(b & 0x0F) == Num(b) % 16 && Num(b & 0x7F) == Num(b) % 128 && (b >= 0x80 <==> Num(b) >= 128)
  {
    hide NibbleNum;
    LowBitsSplit(b);
    NibbleLow3(b >> 4);
  }

  lemma LowBitsSplit(b: byte)
    ensures (b & 0x0F) >> 4 == 0 && (b & 0x0F) & 0xF == b & 0xF
    ensures (b & 0x7F) >> 4 == (b >> 4) & 7 && (b & 0x7F) & 0xF == b & 0xF
    ensures b >> 4 < 16 && (b >= 0x80 <==> b >> 4 >= 8)
  {
  }

  lemma NibbleLow3(h: byte)
    requires h < 16
    ensures NibbleNum(0) == 0
    ensures NibbleNum(h & 7) == (if h >= 8 then NibbleNum(h) - 8 else NibbleNum(h)) && (h >= 8 <==> NibbleNum(h) >= 8)
  {
    assert h & 7 == if h >= 8 then h - 8 else h;
  }

  lemma LengthOctetOfParts(b: byte)
    ensures LengthOctet(b >= 0x80, SmallLengthOf(b)) == b
  {
    hide ByteOf, Num;
    LowBits(b);
    ByteOfNum(b, (if b >= 0x80 then 128 else 0) + SmallLengthOf(b));
  }

  /** Reading back a frame written to the wire gives that frame and leaves what follows it. */
  lemma ParseWire(f: Frame, rest: seq<byte>)
    requires f.WellFormed()
    ensures ParseFrame(f.Wire() + rest) == Parsed(f, rest)
  {
    hide ByteOf, Num, SmallLengthOf, Masked, LengthOctet, BigEndian, BigEndianValue, Pow256;
    var s, small, n, ext, data := f.Wire() + rest, f.SmallLength(), |f.payload|, f.ExtendedLength(),
      Masked(f.key, f.payload);
    LengthOctetRoundTrip(f.maskBit, small);
    var body := ext + f.key + data + rest;
    assert s[2..] == body;
    MaskedTwice(f.key, f.payload);
    ExtendedRoundTrip(f);
    FourParts(ext, f.key, data, rest);
  }

  lemma FourParts(a: seq<byte>, b: seq<byte>, c: seq<byte>, d: seq<byte>)
    ensures var s, i, j, k := a + b + c + d, |a|, |a| + |b|, |a| + |b| + |c|;
      s[..i] == a && s[i..j] == b && s[j..k] == c && s[k..] == d
  {
  }

  lemma ExtendedRoundTrip(f: Frame)
    requires f.WellFormed()
    ensures |f.ExtendedLength()| == ExtendedOctets(f.form)
    ensures !f.form.Short? ==> BigEndianValue(f.ExtendedLength()) == |f.payload|
  {
    if f.form.Medium? {
      assert Pow256(2) == 256 * Pow256(1) && Pow256(1) == 256;
      BigEndianRoundTrip(|f.payload|, 2);
    } else if f.form.Long? {
      BigEndianRoundTrip(|f.payload|, 8);
    }
  }

  lemma WireOfBody(head: byte, maskBit: bool, small: nat, body: seq<byte>)
    requires small < 128 && ParseBody(small, body).Parsed?
    ensures var p := ParseBody(small, body);
      var f := Frame(head, maskBit, FormOf(small), p.value.key, p.value.payload);
      && f.WellFormed() && f.SmallLength() == small
      && body == f.ExtendedLength() + f.key + Masked(f.key, f.payload) + p.rest
  {
    hide ByteOf, Num, Masked, BigEndian, BigEndianValue, Pow256;
    var e, n := ExtendedOctets(FormOf(small)), BodyLength(small, body);
    var ext, key, data := body[..e], body[e..e + 4], body[e + 4..e + 4 + n];
    MaskedTwice(key, data);
    BigEndianOfValue(ext);
    Pow256Of2();
    assert body == ext + key + data + body[e + 4 + n..];
  }

  /** And whatever is read as a frame is the wire form of that frame, in front of the rest. */
  lemma WireOfParse(s: seq<byte>)
    requires ParseFrame(s).Parsed?
    ensures var p := ParseFrame(s); p.value.WellFormed() && s == p.value.Wire() + p.rest
  {
    hide ByteOf, Num, SmallLengthOf, Masked, LengthOctet, BigEndian, BigEndianValue, Pow256, ParseBody, FormOf;
    var small, body, p := SmallLengthOf(s[1]), s[2..], ParseFrame(s);
    LengthOctetOfParts(s[1]);
    WireOfBody(s[0], s[1] >= 0x80, small, body);
    assert s == [s[0], s[1]] + body;
    var f := p.value;
    assert f.Wire() + p.rest == [s[0], s[1]] + (f.ExtendedLength() + f.key + Masked(f.key, f.payload) + p.rest);
  }

  // ---------------------------------------------------------------- writing frames

  /** An unmasked server frame with FIN set, in the shortest length form. */
  function ServerFrame(opcode: nat, payload: seq<byte>): seq<byte>
    requires opcode < 16
  {
    [ByteOf(128 + opcode)] + ServerLength(|payload|) + payload
  }

  function ServerLength(n: nat): seq<byte> {
    if n <= 125 then [ByteOf(n)]
    else if n <= 65535 then [126 as byte] + BigEndian(n, 2)
    else [127 as byte] + BigEndian(n, 8)
  }

  /** The length rules of the receiving side, applied to a length field. */
  function ReadLength(s: seq<byte>): (r: Parsed<nat>)
  {
    if s == [] then Truncated else
      var small := SmallLengthOf(s[0]);
      var e := ExtendedOctets(FormOf(small));
      if |s| < 1 + e then Truncated else Parsed(BodyLength(small, s[1..]), s[1 + e..])
  }

  /** The length field is read back as the length written, whatever follows it. */
  lemma ServerLengthRoundTrip(n: nat, rest: seq<byte>)
    requires n < Pow256(8)
    ensures ReadLength(ServerLength(n) + rest) == Parsed(n, rest)
  {
    hide ByteOf, Num, SmallLengthOf, BigEndian, BigEndianValue, Pow256;
    var field := ServerLength(n);
    var s := field + rest;
    assert s[0] == field[0] && s[1..] == field[1..] + rest;
    if n <= 125 {
      LengthOctetRoundTrip(false, n);
      assert s[1..] == rest;
    } else {
      var k := if n <= 65535 then 2 else 8;
      SmallLength126();
      Pow256Of2();
      BigEndianRoundTrip(n, k);
      assert s[1..][..k] == BigEndian(n, k) && s[1 + k..] == rest;
    }
  }

  lemma SmallLength126()
    ensures SmallLengthOf(126) == 126 && SmallLengthOf(127) == 127
  {
    assert (126 as byte) & 0x7F == 126 && (127 as byte) & 0x7F == 127;
    assert (126 as byte) >> 4 == 7 && (126 as byte) & 0xF == 14 && (127 as byte) >> 4 == 7 && (127 as byte) & 0xF == 15;
  }

  /** Section 5.2 requires the minimal form: no shorter field is read back as n. */
  lemma ServerLengthMinimal(n: nat, field: seq<byte>)
    requires n < Pow256(8) && ReadLength(field) == Parsed(n, [])
    ensures |ServerLength(n)| <= |field|
  {
    hide ByteOf, Num, BigEndian, BigEndianValue, Pow256;
    var small := SmallLengthOf(field[0]);
    var e := ExtendedOctets(FormOf(small));
    if e == 2 {
      BigEndianOfValue(field[1..][..2]);
      Pow256Of2();
    }
  }
}
