/** handshake.c: the accept value for a WebSocket key, and the response that carries it. */
module Handshake {
  import opened Bytes
  import opened Wrappers
  import Sha1
  import Sha1Context
  import Sha1Vectors
  import Base64
  import opened Requests

  const WS_KEY_LEN := 24
  const WS_MS_LEN := 36
  const WS_HS_ACCLEN := 130

  const MAGIC_STRING := "258EAFA5-E914-47DA-95CA-C5AB0DC85B11"

  const SWITCHING := "HTTP/1.1 101 Switching Protocols\r\n"
  const UPGRADE := "Upgrade: websocket\r\n"
  const CONNECTION := "Connection: Upgrade\r\n"
  const ACCEPT := "Sec-WebSocket-Accept: "
  const END := "\r\n\r\n"

  // ---------------------------------------------------------------- C strings

  /** The octets of a text in ASCII. */
  function Ascii(s: string): (t: seq<byte>)
    ensures |t| == |s|
  {
    seq(|s|, i requires 0 <= i < |s| => ByteOf(s[i] as int))
  }

  lemma AsciiHasNoNul(s: string)
    requires forall i :: 0 <= i < |s| ==> 0 < s[i] as int < 256
    ensures 0 !in Ascii(s)
  {
    hide ByteOf, Num;
    forall i | 0 <= i < |s| ensures Ascii(s)[i] != 0 {
      NumOfByte(s[i] as int);
      NumOfByte(0);
      assert ByteOf(0) == 0 by { ZeroOctet(); }
    }
  }

  lemma ZeroOctet()
    ensures ByteOf(0) == 0
  {
  }

  /** The C string in a buffer. */
  ghost predicate Holds(buffer: array<byte>, text: seq<byte>)
    reads buffer
  {
    Stands(buffer, 0, text)
  }

  /** strcat() */
  method Append(buffer: array<byte>, more: seq<byte>, ghost text: seq<byte>)
    requires Holds(buffer, text) && 0 !in more && |text| + |more| < buffer.Length
    modifies buffer
    ensures Holds(buffer, text + more)
    ensures buffer[|text| + |more| + 1..] == old(buffer[|text| + |more| + 1..])
  {
    var n := Length(buffer, 0, text);
    forall i | 0 <= i < |more| {
      buffer[n + i] := more[i];
    }
    buffer[n + |more|] := 0;
    assert buffer[..n + |more|] == text + more;
  }

  /** strncpy(): at most n octets, and NULs up to n. */
  method CopyAtMost(buffer: array<byte>, text: seq<byte>, n: nat)
    requires 0 !in text && n <= buffer.Length
    modifies buffer
    ensures var kept := if |text| < n then |text| else n;
      buffer[..] == text[..kept] + Sha1.Zeros(n - kept) + old(buffer[n..])
  {
    var kept := if |text| < n then |text| else n;
    forall i | 0 <= i < n {
      buffer[i] := if i < kept then text[i] else 0;
    }
    assert buffer[..kept] == text[..kept];
    assert buffer[kept..n] == Sha1.Zeros(n - kept);
    assert buffer[..] == buffer[..kept] + buffer[kept..n] + buffer[n..];
  }

  // ---------------------------------------------------------------- accept value

  /** The octets hashed: the first 24 of the key, the GUID, and NULs where the key is too short. */
  function Hashed(key: seq<byte>): (s: seq<byte>)
    ensures |s| == WS_KEY_LEN + WS_MS_LEN
    ensures |key| == WS_KEY_LEN ==> s == key + Ascii(MAGIC_STRING)
  {
    var kept := if |key| < WS_KEY_LEN then |key| else WS_KEY_LEN;
    key[..kept] + Ascii(MAGIC_STRING) + Sha1.Zeros(WS_KEY_LEN - kept)
  }

  /** Longer keys are cut, and NULs follow behind the GUID of shorter ones. */
  lemma HashedOctets(key: seq<byte>)
    ensures Hashed(key) ==
      if |key| >= 24 then key[..24] + Ascii("258EAFA5-E914-47DA-95CA-C5AB0DC85B11")
      else key + Ascii("258EAFA5-E914-47DA-95CA-C5AB0DC85B11") + seq(24 - |key|, _ => 0)
  {
    hide Ascii;
  }

  /** The accept value: base64 without the line feed. */
  function AcceptOf(key: seq<byte>): (s: seq<byte>)
    ensures |s| == 28
  {
    Base64.Bare(Sha1.DigestOf(Hashed(key)))
  }

  /** Section 4.2.2 of RFC 6455, for the keys that section 4.1 allows. */
  lemma AcceptOfKey(key: seq<byte>)
    requires |key| == WS_KEY_LEN
    ensures Base64.Decoded(AcceptOf(key) + [Base64.NEWLINE]) == Some(Sha1.DigestOf(key + Ascii(MAGIC_STRING)))
  {
    hide Hashed, Base64.Bare, Base64.Encoded, Base64.Decoded, Sha1.DigestOf;
    var digest := Sha1.DigestOf(Hashed(key));
    Base64.OneLine(digest, 0);
    Base64.RoundTrip(digest);
  }

  /** get_handshake_accept() */
  method GetHandshakeAccept(wsKey: Option<seq<byte>>) returns (ok: bool, dest: array<byte>)
    requires wsKey.Some? ==> 0 !in wsKey.value
    ensures ok == wsKey.Some? && (ok ==> Holds(dest, AcceptOf(wsKey.value)))
  {
    hide AcceptOf, Hashed, Ascii, Sha1.DigestOf, Sha1.Zeros;
    dest := new byte[0];
    if wsKey.None? {
      return false, dest;
    }
    var str := JoinKey(wsKey.value);
    var ctx := new Sha1Context.Context();
    ctx.Reset();
    var hash := new byte[20];
    var status := ctx.Input(str, WS_KEY_LEN + WS_MS_LEN);
    assert [] + Hashed(wsKey.value) == Hashed(wsKey.value);
    status := ctx.Result(hash);
    assert hash[..] == Sha1.DigestOf(Hashed(wsKey.value));
    dest := EncodeHash(hash[..]);
    assert AcceptOf(wsKey.value) == Base64.Bare(hash[..]) by { AcceptIs(wsKey.value); }
    ok := true;
  }

  lemma AcceptIs(key: seq<byte>)
    ensures AcceptOf(key) == Base64.Bare(Sha1.DigestOf(Hashed(key)))
  {
  }

  /** The buffer of 61 octets with the key and the GUID. */
  method JoinKey(key: seq<byte>) returns (str: array<byte>)
    requires 0 !in key
    ensures str.Length == WS_KEY_LEN + WS_MS_LEN + 1 && str[..WS_KEY_LEN + WS_MS_LEN] == Hashed(key)
  {
    hide Ascii, Sha1.Zeros;
    MagicHasNoNul();
    str := new byte[WS_KEY_LEN + WS_MS_LEN + 1](_ => 0);
    CopyAtMost(str, key, WS_KEY_LEN);
    ghost var kept := if |key| < WS_KEY_LEN then |key| else WS_KEY_LEN;
    ghost var used := kept + WS_MS_LEN;
    ghost var cleared := str[kept..];
    assert AllZero(cleared) && str[..kept] == key[..kept];
    Append(str, Ascii(MAGIC_STRING), key[..kept]);
    assert str[used + 1..] == cleared[WS_MS_LEN + 1..];
    assert str[used..WS_KEY_LEN + WS_MS_LEN] == Sha1.Zeros(WS_KEY_LEN - kept) by {
      ZerosEnd(str[used..], WS_KEY_LEN - kept);
    }
    assert str[..WS_KEY_LEN + WS_MS_LEN] == str[..used] + str[used..WS_KEY_LEN + WS_MS_LEN];
  }

  predicate AllZero(s: seq<byte>) {
    forall i :: 0 <= i < |s| ==> s[i] == 0
  }

  lemma ZerosEnd(s: seq<byte>, n: nat)
    requires n < |s| && s[0] == 0 && AllZero(s[1..])
    ensures s[..n] == Sha1.Zeros(n)
  {
    assert forall i :: 0 < i < |s| ==> s[i] == s[1..][i - 1];
  }

  /** base64_encode(), and a NUL in the place of the line feed. */
  method EncodeHash(hash: seq<byte>) returns (dest: array<byte>)
    requires |hash| == 20
    ensures Holds(dest, Base64.Bare(hash))
  {
    hide Base64.Encoded, Base64.Bare;
    var encoded, outLen := Base64.Encode(hash);
    dest := encoded;
    ghost var text := Base64.Encoded(hash, 0);
    Base64.OneLine(hash, 0);
    Base64.EncodedLines(hash, 0);
    assert Holds(dest, text);
    var n := Length(dest, 0, text);
    dest[n - 1] := 0;
    assert dest[..n - 1] == text[..n - 1];
  }

  lemma MagicHasNoNul()
    ensures 0 !in Ascii(MAGIC_STRING) && |Ascii(MAGIC_STRING)| == WS_MS_LEN
  {
    hide Ascii;
    AsciiHasNoNul(MAGIC_STRING);
  }

  // ---------------------------------------------------------------- response

  function Header(): seq<byte> {
    Ascii(SWITCHING) + Ascii(UPGRADE) + Ascii(CONNECTION) + Ascii(ACCEPT)
  }

  lemma HeaderHasNoNul()
    ensures 0 !in Header() && |Header()| == 97
  {
    hide Ascii;
    AsciiHasNoNul(SWITCHING);
    AsciiHasNoNul(UPGRADE);
    AsciiHasNoNul(CONNECTION);
    AsciiHasNoNul(ACCEPT);
  }

  lemma EndHasNoNul()
    ensures 0 !in Ascii(END) && |Ascii(END)| == 4
  {
    hide Ascii;
    AsciiHasNoNul(END);
  }

  /** The response to a request with this key. */
  function ResponseTo(key: seq<byte>): (s: seq<byte>) {
    Header() + AcceptOf(key) + Ascii(END)
  }

  /**
    * get_handshake_response(): the response and its NUL fill the buffer. What follows the line with the key stays as it
    * was in the request.
    */
  method GetHandshakeResponse(hsrequest: array<byte>, ghost request: seq<byte>)
    returns (ok: bool, hsresponse: array<byte>)
    requires Stands(hsrequest, 0, request)
    modifies hsrequest
    ensures ok == KeyIn(request).Some?
    ensures ok ==> fresh(hsresponse) && hsresponse.Length == WS_HS_ACCLEN == |ResponseTo(KeyIn(request).value)| + 1
    ensures ok ==> Holds(hsresponse, ResponseTo(KeyIn(request).value))
    ensures var n := |request| - |AfterKeyLine(request)|; hsrequest[n..] == old(hsrequest[n..])
  {
    hide KeyIn, AfterKeyLine, AcceptOf;
    var key := FindKey(hsrequest, request);
    var accept;
    ok, accept := GetHandshakeAccept(key);
    hsresponse := accept;
    if ok {
      hsresponse := Respond(accept, AcceptOf(key.value));
    }
  }

  /** The second half: the response around the accept value. */
  method Respond(accept: array<byte>, ghost value: seq<byte>) returns (hsresponse: array<byte>)
    requires Holds(accept, value) && |value| == 28
    ensures fresh(hsresponse) && hsresponse.Length == WS_HS_ACCLEN == |Header() + value + Ascii(END)| + 1
    ensures Holds(hsresponse, Header() + value + Ascii(END))
  {
    hide Header, Ascii;
    hsresponse := new byte[WS_HS_ACCLEN];
    HeaderHasNoNul();
    EndHasNoNul();
    hsresponse[0] := 0;
    Append(hsresponse, Header(), []);
    assert [] + Header() == Header();
    var n := Length(accept, 0, value);
    Append(hsresponse, accept[..n], Header());
    Append(hsresponse, Ascii(END), Header() + value);
  }

  // ---------------------------------------------------------------- the example of section 1.3 of RFC 6455

  /** Ascii() in numbers. */
  lemma AsciiIsCode(s: string, i: nat)
    requires i < |s| && s[i] as int < 256
    ensures Ascii(s)[i] as int == s[i] as int
  {
    ByteOfIsInt(s[i] as int);
  }

  lemma AsciiOfTwo(s: string, t: string)
    ensures Ascii(s + t) == Ascii(s) + Ascii(t)
  {
    hide ByteOf;
  }

  /** The response, text by text. */
  lemma ResponseIsText(key: seq<byte>)
    ensures ResponseTo(key) ==
      Ascii("HTTP/1.1 101 Switching Protocols\r\n") + Ascii("Upgrade: websocket\r\n")
      + Ascii("Connection: Upgrade\r\n") + Ascii("Sec-WebSocket-Accept: ") + AcceptOf(key) + Ascii("\r\n\r\n")
  {
    hide Ascii, AcceptOf;
  }

  /** "dGhlIHNhbXBsZSBub25jZQ==" */
  const SAMPLE_KEY: seq<byte> :=
    [0x64, 0x47, 0x68, 0x6C, 0x49, 0x48, 0x4E, 0x68, 0x62, 0x58, 0x42, 0x73, 0x5A, 0x53, 0x42, 0x75,
     0x62, 0x32, 0x35, 0x6A, 0x5A, 0x51, 0x3D, 0x3D]

  lemma OneChar(c: char, b: byte)
    requires c as int == b as int
    ensures ByteOf(c as int) == b
  {
    hide ByteOf;
    OneCode(c as int, b);
  }

  lemma OneCode(n: int, b: byte)
    requires n == b as int
    ensures ByteOf(n) == b
  {
    hide Num;
    NumIsInt(b);
    ByteOfNum(b, n);
  }

  lemma FourChars(a: char, b: char, c: char, d: char, w: byte, x: byte, y: byte, z: byte)
    requires a as int == w as int && b as int == x as int && c as int == y as int && d as int == z as int
    ensures Ascii([a, b, c, d]) == [w, x, y, z]
  {
    hide ByteOf;
    OneChar(a, w);
    OneChar(b, x);
    OneChar(c, y);
    OneChar(d, z);
  }

  /** "258EAFA5-E914-47DA-95CA-C5AB0DC85B11" */
  lemma GuidOctets()
    ensures Ascii(MAGIC_STRING) ==
      [0x32, 0x35, 0x38, 0x45, 0x41, 0x46, 0x41, 0x35]
      + [0x2D, 0x45, 0x39, 0x31, 0x34, 0x2D, 0x34, 0x37, 0x44, 0x41, 0x2D, 0x39, 0x35, 0x43, 0x41, 0x2D]
      + [0x43, 0x35, 0x41, 0x42, 0x30, 0x44, 0x43, 0x38, 0x35, 0x42, 0x31, 0x31]
  {
    hide Ascii;
    GuidStart();
    GuidMiddle();
    GuidEnd();
    AsciiOfTwo("258EAFA5", "-E914-47DA-95CA-");
    AsciiOfTwo("258EAFA5" + "-E914-47DA-95CA-", "C5AB0DC85B11");
    assert "258EAFA5" + "-E914-47DA-95CA-" + "C5AB0DC85B11" == MAGIC_STRING;
  }

  lemma GuidStart()
    ensures Ascii("258EAFA5") ==
      [0x32, 0x35, 0x38, 0x45, 0x41, 0x46, 0x41, 0x35]
  {
    hide Ascii;
    FourChars('2', '5', '8', 'E', 0x32, 0x35, 0x38, 0x45);
    FourChars('A', 'F', 'A', '5', 0x41, 0x46, 0x41, 0x35);
    AsciiOfTwo("258E", "AFA5");
    assert "258E" + "AFA5" == "258EAFA5";
  }

  lemma GuidMiddle()
    ensures Ascii("-E914-47DA-95CA-") ==
      [0x2D, 0x45, 0x39, 0x31, 0x34, 0x2D, 0x34, 0x37, 0x44, 0x41, 0x2D, 0x39, 0x35, 0x43, 0x41, 0x2D]
  {
    hide Ascii;
    FourChars('-', 'E', '9', '1', 0x2D, 0x45, 0x39, 0x31);
    FourChars('4', '-', '4', '7', 0x34, 0x2D, 0x34, 0x37);
    FourChars('D', 'A', '-', '9', 0x44, 0x41, 0x2D, 0x39);
    FourChars('5', 'C', 'A', '-', 0x35, 0x43, 0x41, 0x2D);
    AsciiOfTwo("-E91", "4-47");
    assert "-E91" + "4-47" == "-E914-47";
    AsciiOfTwo("-E914-47", "DA-9");
    assert "-E914-47" + "DA-9" == "-E914-47DA-9";
    AsciiOfTwo("-E914-47DA-9", "5CA-");
    assert "-E914-47DA-9" + "5CA-" == "-E914-47DA-95CA-";
  }

  lemma GuidEnd()
    ensures Ascii("C5AB0DC85B11") ==
      [0x43, 0x35, 0x41, 0x42, 0x30, 0x44, 0x43, 0x38, 0x35, 0x42, 0x31, 0x31]
  {
    hide Ascii;
    FourChars('C', '5', 'A', 'B', 0x43, 0x35, 0x41, 0x42);
    FourChars('0', 'D', 'C', '8', 0x30, 0x44, 0x43, 0x38);
    FourChars('5', 'B', '1', '1', 0x35, 0x42, 0x31, 0x31);
    AsciiOfTwo("C5AB", "0DC8");
    assert "C5AB" + "0DC8" == "C5AB0DC8";
    AsciiOfTwo("C5AB0DC8", "5B11");
    assert "C5AB0DC8" + "5B11" == "C5AB0DC85B11";
  }

  /** "s3pPLMBiTxaQ9kYGzzhZRbK+xOo=" */
  lemma AcceptOfSample()
    ensures AcceptOf(SAMPLE_KEY) ==
      [0x73, 0x33, 0x70, 0x50, 0x4C, 0x4D, 0x42, 0x69, 0x54, 0x78, 0x61, 0x51, 0x39, 0x6B, 0x59, 0x47, 0x7A, 0x7A,
       0x68, 0x5A, 0x52, 0x62, 0x4B, 0x2B, 0x78, 0x4F, 0x6F, 0x3D]
  {
    hide Ascii, Sha1.DigestOf, Base64.Bare;
    GuidOctets();
    var m, guid := Hashed(SAMPLE_KEY), Ascii(MAGIC_STRING);
    assert m == SAMPLE_KEY + guid;
    assert m[0..16] == SAMPLE_KEY[..16] && m[16..32] == SAMPLE_KEY[16..] + guid[..8];
    assert m[32..48] == guid[8..24] && m[48..] == guid[24..36];
    Sha1Vectors.DigestOfSample(m);
    BareOfSample(Sha1.DigestOf(m));
  }

  lemma BareOfSample(d: seq<byte>)
    requires d == [0xB3, 0x7A, 0x4F, 0x2C, 0xC0, 0x62, 0x4F, 0x16, 0x90, 0xF6,
                   0x46, 0x06, 0xCF, 0x38, 0x59, 0x45, 0xB2, 0xBE, 0xC4, 0xEA]
    ensures Base64.Bare(d) ==
      [0x73, 0x33, 0x70, 0x50, 0x4C, 0x4D, 0x42, 0x69, 0x54, 0x78, 0x61, 0x51, 0x39, 0x6B, 0x59, 0x47, 0x7A, 0x7A,
       0x68, 0x5A, 0x52, 0x62, 0x4B, 0x2B, 0x78, 0x4F, 0x6F, 0x3D]
  {
    hide Base64.Bare, Base64.Group;
    BareOfTwenty(d);
    SampleGroups();
  }

  lemma BareOfTwenty(d: seq<byte>)
    requires |d| == 20
    ensures Base64.Bare(d) ==
      Base64.Group(d[0], d[1], d[2]) + (Base64.Group(d[3], d[4], d[5]) + (Base64.Group(d[6], d[7], d[8])
      + (Base64.Group(d[9], d[10], d[11]) + (Base64.Group(d[12], d[13], d[14])
      + (Base64.Group(d[15], d[16], d[17]) + (Base64.Group(d[18], d[19], 0)[..3] + [0x3D]))))))
  {
    hide Base64.Bare, Base64.Group;
    var a, b, c, e, f, g := d[3..], d[6..], d[9..], d[12..], d[15..], d[18..];
    assert a[3..] == b && b[3..] == c && c[3..] == e && e[3..] == f && f[3..] == g;
    Base64.BareStep(d);
    Base64.BareStep(a);
    Base64.BareStep(b);
    Base64.BareStep(c);
    Base64.BareStep(e);
    Base64.BareStep(f);
    Base64.BareStep(g);
  }

  lemma SampleGroups()
    ensures Base64.Group(0xB3, 0x7A, 0x4F) == [0x73, 0x33, 0x70, 0x50]
    ensures Base64.Group(0x2C, 0xC0, 0x62) == [0x4C, 0x4D, 0x42, 0x69]
    ensures Base64.Group(0x4F, 0x16, 0x90) == [0x54, 0x78, 0x61, 0x51]
    ensures Base64.Group(0xF6, 0x46, 0x06) == [0x39, 0x6B, 0x59, 0x47]
    ensures Base64.Group(0xCF, 0x38, 0x59) == [0x7A, 0x7A, 0x68, 0x5A]
    ensures Base64.Group(0x45, 0xB2, 0xBE) == [0x52, 0x62, 0x4B, 0x2B]
    ensures Base64.Group(0xC4, 0xEA, 0)[..3] == [0x78, 0x4F, 0x6F]
  {
  }
}
