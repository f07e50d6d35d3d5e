/** What parse_string() of cJSON.c does to a string literal: Unicode and buffer size. */
module JsonLiterals {
  import opened Wrappers
  import opened Bytes
  import opened JsonText
  import opened JsonParse
  import Utf8
  import Utf8Bits

  // ---------------------------------------------------------------- escapes and code points

  /** The hexadecimal digits of a 16-bit code, in the form %04x. */
  function HexOf(code: bv32): seq<byte>
    requires code <= 0xFFFF
  {
    [HexDigit(((code >> 12) & 0xF) as byte), HexDigit(((code >> 8) & 0xF) as byte),
     HexDigit(((code >> 4) & 0xF) as byte), HexDigit((code & 0xF) as byte)]
  }

  /** RFC 8259 section 7: a character of the basic plane is one escape, any other a surrogate pair. */
  function EscapeOf(v: bv32): seq<byte>
    requires Utf8Bits.IsScalar(v)
  {
    if v <= 0xFFFF then [BACKSLASH, LETTER_U] + HexOf(v)
    else [BACKSLASH, LETTER_U] + HexOf(HighOf(v)) + [BACKSLASH, LETTER_U] + HexOf(LowOf(v))
  }

  function HighOf(v: bv32): bv32 { HighUnit(Top(Above(v))) }

  function LowOf(v: bv32): bv32 { LowUnit(Bottom(Above(v))) }

  function Above(v: bv32): bv32 { v - 0x10000 }

  function Beyond(w: bv32): bv32 { 0x10000 + w }

  function Top(w: bv32): bv32 { w >> 10 }

  function Bottom(w: bv32): bv32 { w & 0x3FF }

  function Joined(h: bv32, l: bv32): bv32 { (h << 10) | l }

  function HighUnit(h: bv32): bv32 { 0xD800 + h }

  function LowUnit(l: bv32): bv32 { 0xDC00 + l }

  lemma HexValueOfDigit(n: byte)
    requires n < 16
    ensures HexValue(HexDigit(n)) == Some(n as bv32)
  {
  }

  lemma NibblesOfCode(code: bv32)
    requires code <= 0xFFFF
    ensures ((code >> 12) & 0xF) as byte < 16 && ((code >> 8) & 0xF) as byte < 16
    ensures ((code >> 4) & 0xF) as byte < 16 && (code & 0xF) as byte < 16
  {
  }

  lemma CodeOfNibbles(code: bv32)
    requires code <= 0xFFFF
    ensures JoinDigits(((code >> 12) & 0xF) as byte as bv32, ((code >> 8) & 0xF) as byte as bv32,
                       ((code >> 4) & 0xF) as byte as bv32, (code & 0xF) as byte as bv32) == code
  {
  }

  lemma Hex4OfHex(code: bv32, t: seq<byte>)
    requires code <= 0xFFFF
    ensures Hex4(HexOf(code) + t) == code
  {
    hide HexValue, HexDigit, JoinDigits;
    NibblesOfCode(code);
    HexValueOfDigit(((code >> 12) & 0xF) as byte);
    HexValueOfDigit(((code >> 8) & 0xF) as byte);
    HexValueOfDigit(((code >> 4) & 0xF) as byte);
    HexValueOfDigit((code & 0xF) as byte);
    CodeOfNibbles(code);
  }

  lemma PairOfPoint(v: bv32)
    requires 0x10000 <= v <= 0x10FFFF
    ensures HighSurrogate(HighOf(v)) && LowSurrogate(LowOf(v)) && PairValue(HighOf(v), LowOf(v)) == v
  {
    hide *;
    var w := Above(v);
    AboveAndBeyond(v);
    TopAndBottom(w);
    HighBits(Top(w));
    LowBits(Bottom(w));
    UnitsOf(v);
    PairParts(HighOf(v), LowOf(v));
  }

  lemma UnitsOf(v: bv32)
    ensures HighOf(v) == HighUnit(Top(Above(v))) && LowOf(v) == LowUnit(Bottom(Above(v)))
  {
  }

  lemma AboveAndBeyond(v: bv32)
    requires 0x10000 <= v <= 0x10FFFF
    ensures Above(v) <= 0xFFFFF && Beyond(Above(v)) == v
  {
  }

  lemma TopAndBottom(w: bv32)
    requires w <= 0xFFFFF
    ensures Top(w) <= 0x3FF && Bottom(w) <= 0x3FF && Joined(Top(w), Bottom(w)) == w
  {
  }

  lemma HighBits(h: bv32)
    requires h <= 0x3FF
    ensures HighSurrogate(HighUnit(h)) && Bottom(HighUnit(h)) == h
  {
  }

  lemma LowBits(l: bv32)
    requires l <= 0x3FF
    ensures LowSurrogate(LowUnit(l)) && Bottom(LowUnit(l)) == l
  {
  }

  lemma PairParts(high: bv32, low: bv32)
    ensures PairValue(high, low) == Beyond(Joined(Bottom(high), Bottom(low)))
  {
  }

  /**
    * parse_string() turns the escape of any character into its UTF-8 form, and the automaton of utf8.c reads it back.
    */
  lemma EscapeDecodes(v: bv32, t: seq<byte>, code: bv32)
    requires Utf8Bits.IsScalar(v)
    ensures Unit(EscapeOf(v) + t) == (Utf8.Encode(v), |EscapeOf(v)|)
    ensures Utf8.Octets(Utf8.Encode(v)) && Utf8.Emit(Utf8.ACCEPT, code, Utf8.Encode(v)) == [v]
  {
    EscapePointOf(v, t);
    assert Utf8.EncodeAll([v]) == Utf8.Encode(v) by { assert [v][1..] == []; }
    hide Utf8.Encode, Utf8.Emit, Utf8.Octets, EscapePoint;
    Utf8.EmitInvertsEncode(code, [v]);
    var s := EscapeOf(v) + t;
    assert s[0] == BACKSLASH && s[1] == LETTER_U;
  }

  lemma EscapePointOf(v: bv32, t: seq<byte>)
    requires Utf8Bits.IsScalar(v)
    ensures EscapePoint(EscapeOf(v) + t) == (v, |EscapeOf(v)|)
  {
    hide HexOf, Hex4, HighOf, LowOf, PairValue;
    var s := EscapeOf(v) + t;
    if v <= 0xFFFF {
      HexOfLength(v);
      assert s[2..] == HexOf(v) + t;
      Hex4OfHex(v, t);
    } else {
      PairOfPoint(v);
      SurrogateRange(HighOf(v));
      SurrogateRange(LowOf(v));
      HexOfLength(HighOf(v));
      HexOfLength(LowOf(v));
      var more := [BACKSLASH, LETTER_U] + HexOf(LowOf(v)) + t;
      assert s[2..] == HexOf(HighOf(v)) + more && s[8..] == HexOf(LowOf(v)) + t;
      Hex4OfHex(HighOf(v), more);
      Hex4OfHex(LowOf(v), t);
    }
  }

  lemma HexOfLength(code: bv32)
    requires code <= 0xFFFF
    ensures |HexOf(code)| == 4
  {
  }

  lemma SurrogateRange(code: bv32)
    requires HighSurrogate(code) || LowSurrogate(code)
    ensures code <= 0xFFFF && (HighSurrogate(code) ==> !LowSurrogate(code))
  {
  }

  // ---------------------------------------------------------------- UTF-8 in, UTF-8 out

  /** Inside a character the automaton tolerates no ASCII octet. */
  lemma AsciiOnlyAtStart(q: Utf8.State, s: seq<byte>)
    requires Utf8.Run(q, s) == Utf8.ACCEPT && s != [] && s[0] <= 0x7F
    ensures q == Utf8.ACCEPT
  {
    hide Utf8.Class;
    if q >= 2 {
      Utf8.StepInside(q, s[0]);
      Utf8.RejectAbsorbs(s[1..]);
    } else if q == 1 {
      Utf8.RejectAbsorbs(s);
    }
  }

  /** And inside a character the next octet is one that no character starts with. */
  lemma TailCannotStart(q: Utf8.State, s: seq<byte>, t: seq<byte>)
    requires Utf8.Run(q, s) == Utf8.ACCEPT && q != Utf8.ACCEPT && t != [] && (s != [] ==> t[0] == s[0])
    ensures s != [] && s[0] > 0x7F && Utf8.Run(Utf8.ACCEPT, t) == Utf8.REJECT
  {
    hide Utf8.Class;
    if s != [] {
      if q >= 2 {
        Utf8.StepInside(q, s[0]);
      }
      Utf8.RejectAbsorbs(s[1..]);
      Utf8.StepAtStart(t[0]);
      Utf8.RejectAbsorbs(t[1..]);
    }
  }

  lemma {:induction false} AsciiRun(s: seq<byte>)
    requires forall i :: 0 <= i < |s| ==> s[i] <= 0x7F
    ensures Utf8.Run(Utf8.ACCEPT, s) == Utf8.ACCEPT
    decreases |s|
  {
    if s != [] {
      hide Utf8.Step;
      Utf8.AsciiStep(s[0]);
      AsciiRun(s[1..]);
    }
  }

  /** Whatever an escape stands for, also a malformed one, is UTF-8. */
  lemma EscapeYieldsUtf8(s: seq<byte>)
    requires s != [] && s[0] == BACKSLASH && Unit(s).1 > 0
    ensures Unit(s).0 != [] && Utf8.Run(Utf8.ACCEPT, Unit(s).0) == Utf8.ACCEPT
  {
    hide Utf8.Run, Utf8.Octets, Utf8.Encode, EscapePoint, Utf8.Emit;
    var c, out := if |s| > 1 then s[1] else QUOTE, Unit(s).0;
    if c == LETTER_U {
      var v := EscapePoint(s).0;
      Utf8.EncodingIsChar(v);
      Utf8.CharLength(Utf8.Encode(v));
      OneCharacter(out);
      Utf8.AcceptIffGrammar(out);
    } else {
      ShortIsAscii(c);
      AsciiRun(out);
    }
  }

  lemma OneCharacter(c: seq<byte>)
    requires Utf8.Char(c)
    ensures Utf8.Octets(c)
  {
    Utf8.CharLength(c);
    assert c[..|c|] == c && Utf8.Octets(c[|c|..]);
  }

  lemma ShortIsAscii(c: byte)
    ensures ShortUnescape(c).Some? ==> c <= 0x7F && ShortUnescape(c).value <= 0x7F
  {
  }

  /** No escape takes a part of a character with it: the text of each consists of whole characters. */
  predicate WholeCharacters(s: seq<byte>)
    decreases |s|
  {
    s == [] ||
    var n := Unit(s).1;
    n == 0 || n >= |s| || ((s[0] == BACKSLASH ==> Utf8.Octets(s[..n])) && WholeCharacters(s[n..]))
  }

  lemma UnescapeStep(s: seq<byte>)
    requires s != [] && Unescape(s).Some?
    ensures var (out, n) := Unit(s);
      && n > 0 && (s[0] != BACKSLASH ==> out == s[..1] && n == 1)
      && if n >= |s| then Unescape(s).value == out && WholeCharacters(s)
         else
           && Unescape(s[n..]).Some? && Unescape(s).value == out + Unescape(s[n..]).value
           && (WholeCharacters(s) <==> (s[0] == BACKSLASH ==> Utf8.Octets(s[..n])) && WholeCharacters(s[n..]))
  {
    hide EscapePoint, Utf8.Encode, ShortUnescape, Utf8.Octets;
  }

  lemma UnescapeStartsWith(s: seq<byte>)
    requires s != [] && s[0] != BACKSLASH && Unescape(s).Some?
    ensures Unescape(s).value != [] && Unescape(s).value[0] == s[0]
  {
    UnescapeStep(s);
  }

  lemma {:induction false} PreservedFrom(q: Utf8.State, s: seq<byte>)
    requires Utf8.Run(q, s) == Utf8.ACCEPT && Unescape(s).Some?
    ensures Utf8.Run(q, Unescape(s).value) == Utf8.ACCEPT <==> WholeCharacters(s)
    decreases |s|
  {
    if s == [] {
      assert Unescape(s).value == s;
      return;
    }
    UnescapeStep(s);
    hide Utf8.Step, Utf8.Run, Utf8.Octets, Unit, Unescape, WholeCharacters;
    var (out, n) := Unit(s);
    if s[0] != BACKSLASH {
      assert n == 1 && out == s[..1];
      if n < |s| {
        RunApart(q, s, n);
        Utf8.RunConcat(q, out, Unescape(s[n..]).value);
        PreservedFrom(Utf8.Run(q, out), s[n..]);
      } else {
        assert s[..1] == s;
      }
    } else {
      AsciiOnlyAtStart(q, s);
      EscapeYieldsUtf8(s);
      if n < |s| {
        var now := Utf8.Run(q, s[..n]);
        RunApart(q, s, n);
        Utf8.RunConcat(q, out, Unescape(s[n..]).value);
        Utf8.AcceptIffGrammar(s[..n]);
        if now == Utf8.ACCEPT {
          PreservedFrom(now, s[n..]);
        } else {
          TailOfCutCharacter(now, s[n..]);
        }
      }
    }
  }

  lemma RunApart(q: Utf8.State, s: seq<byte>, n: nat)
    requires n <= |s|
    ensures Utf8.Run(q, s) == Utf8.Run(Utf8.Run(q, s[..n]), s[n..])
  {
    hide Utf8.Run;
    Utf8.RunConcat(q, s[..n], s[n..]);
    assert s == s[..n] + s[n..];
  }

  lemma TailOfCutCharacter(q: Utf8.State, s: seq<byte>)
    requires Utf8.Run(q, s) == Utf8.ACCEPT && q != Utf8.ACCEPT && s != [] && Unescape(s).Some?
    ensures Utf8.Run(Utf8.ACCEPT, Unescape(s).value) == Utf8.REJECT
  {
    TailCannotStart(q, s, s);
    UnescapeStartsWith(s);
    TailCannotStart(q, s, Unescape(s).value);
  }

  /**
    * All octets that a UTF-8 literal leaves in the buffer, also those behind a NUL, are UTF-8 exactly when no escape
    * cuts a character.
    */
  lemma Utf8Preserved(s: seq<byte>)
    requires Utf8.Octets(s) && Unescape(s).Some?
    ensures Utf8.Octets(Unescape(s).value) <==> WholeCharacters(s)
  {
    Utf8.AcceptIffGrammar(s);
    PreservedFrom(Utf8.ACCEPT, s);
    Utf8.AcceptIffGrammar(Unescape(s).value);
  }

  /** \u000 and a two-octet character: the escape reads as 0 and takes the first of the two with it, behind the NUL. */
  const CUT: seq<byte> := [BACKSLASH, LETTER_U, 0x30, 0x30, 0x30, 0xC3, 0xA9]

  lemma EscapeCanCut()
    ensures Utf8.Octets(CUT) && Unescape(CUT) == Some([0, 0xA9]) && !Utf8.Octets([0, 0xA9]) && CText([0, 0xA9]) == []
  {
    hide Unescape;
    CutIsUtf8();
    CutUnescaped();
    var t: seq<byte> := [0, 0xA9];
    Utf8.OctetsUnfold(t);
    Utf8.OctetsUnfold(t[1..]);
  }

  lemma CutIsUtf8()
    ensures Utf8.Octets(CUT)
  {
    var ascii, last := CUT[..5], CUT[5..];
    AsciiRun(ascii);
    OneCharacter(last);
    Utf8.AcceptIffGrammar(last);
    Utf8.RunConcat(Utf8.ACCEPT, ascii, last);
    assert CUT == ascii + last;
    Utf8.AcceptIffGrammar(CUT);
  }

  lemma CutUnescaped()
    ensures Unescape(CUT) == Some([0, 0xA9])
  {
    var rest := CUT[6..];
    assert rest == [0xA9] && rest[1..] == [];
    assert Unescape(rest) == Some([0xA9]) by {
      assert Unit(rest) == ([0xA9], 1);
    }
    assert Unit(CUT) == ([0], 6) by {
      hide Unescape;
      assert Hex4(CUT[2..]) == 0 by {
        assert HexValue(0xC3) == None && CUT[2..][3] == 0xC3;
      }
      assert Utf8.Encode(0) == [0];
    }
    hide Unit;
    assert [0 as byte] + [0xA9] == [0, 0xA9];
  }

  predicate IsHex(c: byte) { HexValue(c).Some? }

  predicate FourHex(s: seq<byte>) {
    |s| >= 4 && IsHex(s[0]) && IsHex(s[1]) && IsHex(s[2]) && IsHex(s[3])
  }

  /** Every \u that the copy loop meets carries four hexadecimal digits, as section 7 of RFC 8259 has it. */
  predicate WellFormedEscapes(s: seq<byte>)
    decreases |s|
  {
    s == [] ||
    var n := Unit(s).1;
    && (s[0] == BACKSLASH && |s| > 1 && s[1] == LETTER_U ==> FourHex(s[2..]) && (n == 12 ==> FourHex(s[8..])))
    && (0 < n < |s| ==> WellFormedEscapes(s[n..]))
  }

  lemma HexIsAscii(c: byte)
    requires IsHex(c)
    ensures c <= 0x7F
  {
  }

  lemma EscapeIsAscii(s: seq<byte>)
    requires s != [] && s[0] == BACKSLASH && WellFormedEscapes(s) && 0 < Unit(s).1 < |s|
    ensures forall i :: 0 <= i < Unit(s).1 ==> s[i] <= 0x7F
  {
    hide Utf8.Encode, FourHex, EscapePoint;
    if s[1] == LETTER_U {
      EscapeOctets(s);
    } else {
      ShortIsAscii(s[1]);
    }
  }

  lemma EscapeOctets(s: seq<byte>)
    requires |s| > 1 && s[0] == BACKSLASH && s[1] == LETTER_U && EscapePoint(s).1 > 0
    requires FourHex(s[2..]) && (EscapePoint(s).1 == 12 ==> FourHex(s[8..]))
    ensures forall i :: 0 <= i < EscapePoint(s).1 ==> s[i] <= 0x7F
  {
    hide IsHex, HexValue, EscapePoint;
    SecondEscape(s);
    forall i | 0 <= i < EscapePoint(s).1 ensures s[i] <= 0x7F {
      if 2 <= i < 6 {
        HexIsAscii(s[2..][i - 2]);
      } else if 8 <= i < 12 {
        HexIsAscii(s[8..][i - 8]);
      }
    }
  }

  lemma SecondEscape(s: seq<byte>)
    ensures EscapePoint(s).1 == 12 ==> s[6] == BACKSLASH && s[7] == LETTER_U
  {
  }

  lemma {:induction false} WellFormedIsWhole(s: seq<byte>)
    requires WellFormedEscapes(s)
    ensures WholeCharacters(s)
    decreases |s|
  {
    if s != [] {
      var n := Unit(s).1;
      if 0 < n < |s| {
        WellFormedIsWhole(s[n..]);
        if s[0] == BACKSLASH {
          EscapeIsAscii(s);
          AsciiRun(s[..n]);
          Utf8.AcceptIffGrammar(s[..n]);
        }
      }
    }
  }

  // ---------------------------------------------------------------- the string a caller sees

  lemma {:induction false} CTextConcat(s: seq<byte>, t: seq<byte>)
    requires 0 !in s
    ensures CText(s + t) == s + CText(t)
  {
    if s == [] {
      assert s + t == t;
    } else {
      CTextConcat(s[1..], t);
      assert (s + t)[1..] == s[1..] + t;
    }
  }

  lemma EncodeHasNoNul(v: bv32)
    requires Utf8Bits.IsScalar(v) && v != 0
    ensures 0 !in Utf8.Encode(v)
  {
    LeadsAndTails(v);
    hide Utf8Bits.Lead2, Utf8Bits.Lead3, Utf8Bits.Lead4, Utf8Bits.Tail0, Utf8Bits.Tail6, Utf8Bits.Tail12;
  }

  lemma LeadsAndTails(v: bv32)
    ensures Utf8Bits.Tail0(v) != 0 && Utf8Bits.Tail6(v) != 0 && Utf8Bits.Tail12(v) != 0
    ensures v <= 0x7FF ==> Utf8Bits.Lead2(v) != 0
    ensures v <= 0xFFFF ==> Utf8Bits.Lead3(v) != 0
    ensures v <= 0x10FFFF ==> Utf8Bits.Lead4(v) != 0
    ensures v <= 0x7F && v != 0 ==> v as byte != 0
  {
  }

  /** A malformed escape is a NUL; all others consist of ASCII and stand for something else. */
  lemma EscapeOrNul(s: seq<byte>)
    requires s != [] && s[0] == BACKSLASH && Unit(s).1 > 0
    ensures var (out, n) := Unit(s);
      out == [0] || (0 !in out && forall i :: 0 <= i < n && i < |s| ==> s[i] <= 0x7F)
  {
    hide Utf8.Encode, IsHex, HexValue, JoinDigits;
    var c := if |s| > 1 then s[1] else QUOTE;
    if c == LETTER_U {
      var v := EscapePoint(s).0;
      ZeroEncoded();
      if v != 0 {
        EncodeHasNoNul(v);
        PointNeedsHex(s);
        hide EscapePoint;
        EscapeOctets(s);
      }
    } else {
      ShortIsAscii(c);
      ShortIsNoNul(c);
    }
  }

  lemma ZeroEncoded()
    ensures Utf8.Encode(0) == [0]
  {
  }

  lemma ShortIsNoNul(c: byte)
    ensures ShortUnescape(c) != Some(0)
  {
  }

  /** A code point other than 0 was written with hexadecimal digits. */
  lemma PointNeedsHex(s: seq<byte>)
    requires EscapePoint(s).1 > 0 && EscapePoint(s).0 != 0
    ensures FourHex(s[2..]) && (EscapePoint(s).1 == 12 ==> FourHex(s[8..]))
  {
    hide HexValue, JoinDigits, PairValue;
  }

  /** However escapes are written, the value of a UTF-8 literal, read as the C string it is, is UTF-8. */
  lemma StringIsUtf8(s: seq<byte>)
    requires Utf8.Octets(s) && Unescape(s).Some?
    ensures Utf8.Octets(CText(Unescape(s).value))
  {
    Utf8.AcceptIffGrammar(s);
    StringFrom(Utf8.ACCEPT, s);
    Utf8.AcceptIffGrammar(CText(Unescape(s).value));
  }

  lemma ParsedStringIsUtf8(s: seq<byte>)
    requires ParseString(s).Read?
    ensures var n := ClosingQuote(s[1..]).value;
      Utf8.Octets(s[1..1 + n]) ==> Utf8.Octets(ParseString(s).value)
  {
    hide Utf8.Octets, Unescape, CText, ClosingQuote;
    var literal := s[1..1 + ClosingQuote(s[1..]).value];
    if Utf8.Octets(literal) {
      StringIsUtf8(literal);
    }
  }

  lemma {:induction false} StringFrom(q: Utf8.State, s: seq<byte>)
    requires Utf8.Run(q, s) == Utf8.ACCEPT && Unescape(s).Some?
    ensures Utf8.Run(q, CText(Unescape(s).value)) == Utf8.ACCEPT
    decreases |s|
  {
    if s == [] {
      assert CText(Unescape(s).value) == s;
      return;
    }
    UnescapeStep(s);
    EmptyRun(q);
    hide Utf8.Step, Utf8.Run, Utf8.Octets, Unit, Unescape, WholeCharacters, CText;
    var (out, n) := Unit(s);
    var more := if n < |s| then Unescape(s[n..]).value else [];
    assert Unescape(s).value == out + more;
    if s[0] == BACKSLASH {
      AsciiOnlyAtStart(q, s);
      EscapeYieldsUtf8(s);
      EscapeOrNul(s);
    } else if s[0] == 0 {
      AsciiOnlyAtStart(q, s);
    }
    if out == [0] {
      CTextOfNul(more);
    } else {
      assert 0 !in out;
      CTextConcat(out, more);
      Utf8.RunConcat(q, out, CText(more));
      if n < |s| {
        RunApart(q, s, n);
        if s[0] == BACKSLASH {
          AsciiRun(s[..n]);
        }
        StringFrom(Utf8.Run(q, out), s[n..]);
      } else {
        CTextOfNothing();
        EmptyRun(Utf8.Run(q, out));
        assert s[0] != BACKSLASH ==> s[..1] == s;
      }
    }
  }

  lemma EmptyRun(q: Utf8.State)
    ensures Utf8.Run(q, []) == q
  {
  }

  lemma CTextOfNul(t: seq<byte>)
    ensures CText([0] + t) == []
  {
  }

  lemma CTextOfNothing()
    ensures CText([]) == []
  {
  }

  // ---------------------------------------------------------------- the size estimate

  /** How many backslashes the measuring scan counts, and whether the first character is one it jumps over. */
  function Skips(s: seq<byte>, jumped: bool): nat {
    if s == [] then 0
    else if jumped then Skips(s[1..], false)
    else if s[0] == BACKSLASH then 1 + Skips(s[1..], true)
    else Skips(s[1..], false)
  }

  /** Whether the scan jumps over the character after s. */
  function JumpsAfter(s: seq<byte>, jumped: bool): bool {
    if s == [] then jumped else JumpsAfter(s[1..], !jumped && s[0] == BACKSLASH)
  }

  lemma {:induction false} SkipsConcat(s: seq<byte>, t: seq<byte>, jumped: bool)
    ensures Skips(s + t, jumped) == Skips(s, jumped) + Skips(t, JumpsAfter(s, jumped))
    decreases |s|
  {
    if s == [] {
      assert s + t == t;
    } else {
      assert (s + t)[1..] == s[1..] + t;
      SkipsConcat(s[1..], t, !jumped && s[0] == BACKSLASH);
    }
  }

  lemma {:induction false} SkipsBound(s: seq<byte>, jumped: bool)
    ensures 2 * Skips(s, jumped) <= |s| + if jumped then 0 else 1
    decreases |s|
  {
    if s != [] {
      SkipsBound(s[1..], !jumped && s[0] == BACKSLASH);
    }
  }

  /**
   * One unit writes no more than the characters it takes, less the backslashes the scan counted among them: also
   * where a malformed \u makes the copy loop and the scan disagree about which backslash escapes what.
   */
  lemma UnitFits(s: seq<byte>, jumped: bool)
    requires s != [] && 0 < Unit(s).1 <= |s|
    ensures var (out, n) := Unit(s);
      |out| + Skips(s, jumped) <= n + Skips(s[n..], JumpsAfter(s[..n], jumped))
  {
    hide EscapePoint, Utf8.Encode, ShortUnescape;
    var (out, n) := Unit(s);
    assert s == s[..n] + s[n..];
    SkipsConcat(s[..n], s[n..], jumped);
    if s[0] != BACKSLASH {
      assert s[..n][1..] == [];
    } else {
      SkipsBound(s[..n], jumped);
      if |s| > 1 && s[1] == LETTER_U {
        EncodeLength(EscapePoint(s).0);
        PointLength(s);
      }
    }
  }

  lemma EncodeLength(v: bv32)
    requires Utf8Bits.IsScalar(v)
    ensures |Utf8.Encode(v)| <= if v <= 0xFFFF then 3 else 4
  {
  }

  lemma PointLength(s: seq<byte>)
    ensures EscapePoint(s).1 == 6 ==> EscapePoint(s).0 <= 0xFFFF
  {
    hide Hex4;
    if |s| >= 6 {
      Hex4Bound(s[2..]);
    }
  }
}
