/** JSON texts octet by octet, as RFC 8259 writes them, what they stand for, and that the parser reads them so. */
module JsonGrammar {
  import opened Wrappers
  import opened Bytes
  import opened JsonText
  import opened JsonParse
  import Utf8
  import Utf8Bits

  // ---------------------------------------------------------------- section 7: strings

  /** An octet as it is, one of the eight short escapes, or four hexadecimal digits. */
  datatype Char = Plain(octet: byte) | Short(letter: byte) | Unicode(digits: seq<byte>)

  predicate IsHexDigit(c: byte) { 0x30 <= c <= 0x39 || 0x41 <= c <= 0x46 || 0x61 <= c <= 0x66 }

  /** cJSON takes control characters as they are; section 7 asks for escapes. */
  predicate CharOk(c: Char, strict: bool) {
    match c
    case Plain(b) => b != 0x22 && b != 0x5C && (strict ==> b >= 0x20)
    case Short(l) => l in {0x22, 0x5C, 0x2F, 0x62, 0x66, 0x6E, 0x72, 0x74}
    case Unicode(d) => |d| == 4 && IsHexDigit(d[0]) && IsHexDigit(d[1]) && IsHexDigit(d[2]) && IsHexDigit(d[3])
  }

  predicate CharsOk(cs: seq<Char>, strict: bool) {
    forall i :: 0 <= i < |cs| ==> CharOk(cs[i], strict)
  }

  function SpellChar(c: Char): (s: seq<byte>) {
    match c
    case Plain(b) => [b]
    case Short(l) => [0x5C, l]
    case Unicode(d) => [0x5C, 0x75] + d
  }

  function SpellChars(cs: seq<Char>): seq<byte> {
    if cs == [] then [] else SpellChar(cs[0]) + SpellChars(cs[1..])
  }

  function SpellString(cs: seq<Char>): seq<byte> {
    [0x22] + SpellChars(cs) + [0x22]
  }

  /** What a short escape stands for: BS, FF, LF, CR, HT, or the letter itself. */
  function ShortMeaning(l: byte): byte {
    if l == 0x62 then 0x08 else if l == 0x66 then 0x0C else if l == 0x6E then 0x0A else if l == 0x72 then 0x0D
    else if l == 0x74 then 0x09
    else l
  }

  function DigitOf(c: byte): bv32 {
    (if c <= 0x39 then c - 0x30 else if c <= 0x46 then c - 0x37 else c - 0x57) as bv32
  }

  function CodeOf(d: seq<byte>): bv32
    requires |d| == 4
  {
    0x1000 * DigitOf(d[0]) + 0x100 * DigitOf(d[1]) + 0x10 * DigitOf(d[2]) + DigitOf(d[3])
  }

  function Then(out: seq<byte>, r: Option<seq<byte>>): Option<seq<byte>> {
    match r
    case None => None
    case Some(more) => Some(out + more)
  }

  predicate IsHigh(v: bv32) { 0xD800 <= v <= 0xDBFF }

  predicate IsLow(v: bv32) { 0xDC00 <= v <= 0xDFFF }

  /** What two surrogates stand for. */
  function PairPoint(high: bv32, low: bv32): (v: bv32)
    requires IsHigh(high) && IsLow(low)
    ensures v <= 0x10FFFF
  {
    0x1_0000 + 0x400 * (high - 0xD800) + (low - 0xDC00)
  }

  /** The octets that a string stands for; a surrogate without its partner stands for nothing. */
  function Denoted(cs: seq<Char>): Option<seq<byte>>
    requires CharsOk(cs, false)
  {
    if cs == [] then Some([])
    else
      assert CharOk(cs[0], false);
      match cs[0]
      case Plain(b) => Then([b], Denoted(cs[1..]))
      case Short(l) => Then([ShortMeaning(l)], Denoted(cs[1..]))
      case Unicode(d) =>
        var v := CodeOf(d);
        CodeBound(d);
        if IsLow(v) then None
        else if !IsHigh(v) then Then(Utf8.OctetsOf(v), Denoted(cs[1..]))
        else if |cs| == 1 || !cs[1].Unicode? then None
        else
          assert CharOk(cs[1], false);
          var w := CodeOf(cs[1].digits);
          if !IsLow(w) then None
          else Then(Utf8.OctetsOf(PairPoint(v, w)), Denoted(cs[2..]))
  }

  lemma CodeBound(d: seq<byte>)
    requires CharOk(Unicode(d), false)
    ensures CodeOf(d) <= 0xFFFF
  {
    DigitBound(d[0]);
    DigitBound(d[1]);
    DigitBound(d[2]);
    DigitBound(d[3]);
    hide DigitOf;
    FourDigits(DigitOf(d[0]), DigitOf(d[1]), DigitOf(d[2]), DigitOf(d[3]));
  }

  lemma DigitBound(c: byte)
    requires IsHexDigit(c)
    ensures DigitOf(c) < 16 && HexValue(c) == Some(DigitOf(c))
  {
  }

  lemma FourDigits(a: bv32, b: bv32, c: bv32, d: bv32)
    requires a < 16 && b < 16 && c < 16 && d < 16
    ensures 0x1000 * a + 0x100 * b + 0x10 * c + d <= 0xFFFF
    ensures JoinDigits(a, b, c, d) == 0x1000 * a + 0x100 * b + 0x10 * c + d
  {
  }

  lemma HexIsCode(d: seq<byte>, t: seq<byte>)
    requires CharOk(Unicode(d), false)
    ensures Hex4(d + t) == CodeOf(d) <= 0xFFFF
  {
    DigitBound(d[0]);
    DigitBound(d[1]);
    DigitBound(d[2]);
    DigitBound(d[3]);
    hide DigitOf, HexValue, JoinDigits;
    FourDigits(DigitOf(d[0]), DigitOf(d[1]), DigitOf(d[2]), DigitOf(d[3]));
    assert (d + t)[0] == d[0] && (d + t)[1] == d[1] && (d + t)[2] == d[2] && (d + t)[3] == d[3];
  }

  lemma PairIsSum(v: bv32, w: bv32)
    requires IsHigh(v) && IsLow(w)
    ensures PairValue(v, w) == PairPoint(v, w) && Utf8Bits.IsScalar(PairValue(v, w))
  {
  }

  // ---------------------------------------------------------------- strings are read

  lemma EscapeStep(c: byte, t: seq<byte>)
    ensures ClosingQuote([0x5C, c] + t) == match ClosingQuote(t) case None => None case Some(n) => Some(n + 2)
  {
    assert ([0x5C, c] + t)[2..] == t;
  }

  lemma PlainStep(c: byte, t: seq<byte>)
    requires c != 0x22 && c != 0x5C
    ensures ClosingQuote([c] + t) == match ClosingQuote(t) case None => None case Some(n) => Some(n + 1)
  {
    assert ([c] + t)[1..] == t;
  }

  lemma HexStep(d: seq<byte>, t: seq<byte>)
    requires CharOk(Unicode(d), false)
    ensures ClosingQuote([0x5C, 0x75] + (d + t)) ==
      match ClosingQuote(t) case None => None case Some(n) => Some(n + 6)
  {
    hide ClosingQuote;
    var t1, t2, t3 := [d[3]] + t, [d[2]] + ([d[3]] + t), [d[1]] + ([d[2]] + ([d[3]] + t));
    assert d + t == [d[0]] + t3;
    EscapeStep(0x75, [d[0]] + t3);
    PlainStep(d[0], t3);
    PlainStep(d[1], t2);
    PlainStep(d[2], t1);
    PlainStep(d[3], t);
  }

  /** No quote ends the literal before its own. */
  lemma {:induction false} ClosingOfChars(cs: seq<Char>, t: seq<byte>)
    requires CharsOk(cs, false)
    ensures ClosingQuote(SpellChars(cs) + ([0x22] + t)) == Some(|SpellChars(cs)|)
  {
    hide ClosingQuote;
    if cs == [] {
      ClosingAtQuote(t);
      assert SpellChars(cs) + ([0x22] + t) == [0x22] + t;
    } else {
      var c, others, more := cs[0], cs[1..], SpellChars(cs[1..]) + ([0x22] + t);
      assert CharOk(c, false);
      ClosingOfChars(others, t);
      Regroup(SpellChar(c), SpellChars(others), [0x22] + t);
      match c
      case Plain(b) => PlainStep(b, more);
      case Short(l) => EscapeStep(l, more);
      case Unicode(d) =>
        Regroup([0x5C, 0x75], d, more);
        HexStep(d, more);
    }
  }

  lemma ClosingAtQuote(t: seq<byte>)
    ensures ClosingQuote([0x22] + t) == Some(0)
  {
  }

  lemma Regroup(a: seq<byte>, b: seq<byte>, c: seq<byte>)
    ensures a + b + c == a + (b + c)
  {
  }

  /** What a step of the copy loop makes of any octets: what it writes, and how many it takes, none if it refuses. */
  lemma UnitInOctets(s: seq<byte>)
    requires s != []
    ensures var u := Unit(s);
      if s[0] != 0x5C then u == ([s[0]], 1)
      else if |s| == 1 then u == ([0x22], 2)
      else if s[1] in {0x22, 0x5C, 0x2F, 0x62, 0x66, 0x6E, 0x72, 0x74} then u == ([ShortMeaning(s[1])], 2)
      else if s[1] != 0x75 || |s| < 6 then u == ([], 0)
      else
        var v := Hex4(s[2..]);
        if IsLow(v) then u == ([], 0)
        else if !IsHigh(v) then v <= 0x10FFFF && u == (Utf8.OctetsOf(v), 6)
        else if |s| >= 12 && s[6] == 0x5C && s[7] == 0x75 && IsLow(Hex4(s[8..])) then
          u == (Utf8.OctetsOf(PairPoint(v, Hex4(s[8..]))), 12)
        else u == ([], 0)
  {
    if s[0] == 0x5C && |s| > 1 {
      ShortInOctets(s[1]);
      if s[1] == 0x75 {
        PointInOctets(s);
      }
    }
    hide Hex4, Utf8.OctetsOf, Utf8.Encode, EscapePoint, ShortUnescape, ShortMeaning, PairPoint;
  }

  lemma ShortInOctets(c: byte)
    ensures ShortUnescape(c) ==
      if c in {0x22, 0x5C, 0x2F, 0x62, 0x66, 0x6E, 0x72, 0x74} then Some(ShortMeaning(c)) else None
  {
  }

  lemma PointInOctets(s: seq<byte>)
    requires |s| > 1 && s[0] == 0x5C && s[1] == 0x75
    ensures var p := EscapePoint(s);
      if |s| < 6 then p.1 == 0
      else
        var v := Hex4(s[2..]);
        if IsLow(v) then p.1 == 0
        else if !IsHigh(v) then
          v <= 0x10FFFF && p.1 == 6 && Utf8Bits.IsScalar(p.0) && Utf8.Encode(p.0) == Utf8.OctetsOf(v)
        else if |s| >= 12 && s[6] == 0x5C && s[7] == 0x75 && IsLow(Hex4(s[8..])) then
          && p.1 == 12 && Utf8Bits.IsScalar(p.0)
          && Utf8.Encode(p.0) == Utf8.OctetsOf(PairPoint(v, Hex4(s[8..])))
        else p.1 == 0
  {
    hide Hex4, Utf8.OctetsOf, Utf8.Encode, PairValue, PairPoint;
    if |s| >= 6 {
      var v := Hex4(s[2..]);
      Hex4Bound(s[2..]);
      if !IsHigh(v) && !IsLow(v) {
        Utf8.EncodeInNumbers(v);
      } else if IsHigh(v) && |s| >= 12 && IsLow(Hex4(s[8..])) {
        PairIsSum(v, Hex4(s[8..]));
        Utf8.EncodeInNumbers(PairValue(v, Hex4(s[8..])));
      }
    }
  }

  /** One step of the copy loop takes one character, or a pair of surrogates. */
  lemma UnitOfChar(cs: seq<Char>)
    requires CharsOk(cs, false) && cs != [] && !cs[0].Unicode?
    ensures var u := Unit(SpellChars(cs));
      u.1 == |SpellChar(cs[0])| && u.0 == match cs[0] case Plain(b) => [b] case Short(l) => [ShortMeaning(l)]
  {
    hide Unit, ShortMeaning;
    assert CharOk(cs[0], false);
    var s := SpellChars(cs);
    assert s == SpellChar(cs[0]) + SpellChars(cs[1..]);
    hide SpellChars;
    UnitInOctets(s);
    match cs[0]
    case Plain(b) => assert s[0] == b;
    case Short(l) => assert s[0] == 0x5C && s[1] == l && |s| > 1;
  }

  /** What follows an escape is another, or does not begin like one. */
  lemma StartOfChars(cs: seq<Char>)
    requires CharsOk(cs, false)
    ensures var s := SpellChars(cs);
      if cs != [] && cs[0].Unicode?
      then |s| >= 6 && s[0] == 0x5C && s[1] == 0x75 && s[2..] == cs[0].digits + SpellChars(cs[1..])
      else |s| < 2 || s[0] != 0x5C || s[1] != 0x75
  {
    if cs != [] {
      assert CharOk(cs[0], false);
      var s := SpellChars(cs);
      assert s == SpellChar(cs[0]) + SpellChars(cs[1..]);
      hide SpellChars;
      match cs[0]
      case Plain(b) => assert s[0] == b;
      case Short(l) => assert s[0] == 0x5C && s[1] == l;
      case Unicode(d) => assert s == [0x5C, 0x75] + (d + SpellChars(cs[1..]));
    }
  }

  lemma UnitOfUnicode(cs: seq<Char>)
    requires CharsOk(cs, false) && cs != [] && cs[0].Unicode?
    ensures CharOk(cs[0], false)
    ensures var u, v := Unit(SpellChars(cs)), CodeOf(cs[0].digits);
      if IsLow(v) then u == ([], 0)
      else if !IsHigh(v) then v <= 0x10FFFF && u == (Utf8.OctetsOf(v), 6)
      else if |cs| == 1 || !cs[1].Unicode? then u == ([], 0)
      else
        CharOk(cs[1], false) &&
        var w := CodeOf(cs[1].digits);
        if IsLow(w) then u == (Utf8.OctetsOf(PairPoint(v, w)), 12) else u == ([], 0)
  {
    hide Unit, Hex4, CodeOf, Utf8.OctetsOf, SpellChars, PairPoint;
    var s, d := SpellChars(cs), cs[0].digits;
    StartOfChars(cs);
    HexIsCode(d, SpellChars(cs[1..]));
    UnitInOctets(s);
    if IsHigh(CodeOf(d)) {
      var t := SpellChars(cs[1..]);
      StartOfChars(cs[1..]);
      assert s[6..] == s[2..][4..] == t;
      assert |t| > 0 ==> s[6] == t[0];
      assert |t| > 1 ==> s[7] == t[1];
      if |cs| > 1 && cs[1].Unicode? {
        assert CharOk(cs[1], false);
        assert s[8..] == t[2..];
        HexIsCode(cs[1].digits, SpellChars(cs[1..][1..]));
      }
    }
  }

  lemma {:induction false} UnescapeIsDenoted(cs: seq<Char>)
    requires CharsOk(cs, false)
    ensures Unescape(SpellChars(cs)) == Denoted(cs)
    decreases |cs|
  {
    if cs != [] {
      hide Unit, Utf8.OctetsOf, CodeOf, PairPoint;
      var s := SpellChars(cs);
      assert CharOk(cs[0], false);
      StartOfChars(cs);
      SpellNotEmpty(cs);
      if cs[0].Unicode? {
        UnitOfUnicode(cs);
      } else {
        UnitOfChar(cs);
      }
      var n := Unit(s).1;
      if n == 12 {
        UnescapeIsDenoted(cs[2..]);
        TwoChars(cs);
        UnescapeOn(s, Unit(s).0, 12);
      } else if n > 0 {
        UnescapeIsDenoted(cs[1..]);
        assert s[n..] == SpellChars(cs[1..]);
        UnescapeOn(s, Unit(s).0, n);
      }
    }
  }

  lemma SpellNotEmpty(cs: seq<Char>)
    requires cs != []
    ensures SpellChars(cs) != [] && SpellChars(cs) == SpellChar(cs[0]) + SpellChars(cs[1..])
  {
  }

  lemma TwoChars(cs: seq<Char>)
    requires |cs| >= 2 && cs[0].Unicode? && cs[1].Unicode? && |cs[0].digits| == 4 && |cs[1].digits| == 4
    ensures |SpellChars(cs)| >= 12 && SpellChars(cs)[12..] == SpellChars(cs[2..])
  {
    var a, b, t := SpellChar(cs[0]), SpellChar(cs[1]), SpellChars(cs[2..]);
    SpellNotEmpty(cs);
    SpellNotEmpty(cs[1..]);
    assert cs[1..][1..] == cs[2..];
    assert SpellChars(cs) == a + (b + t);
  }

  lemma UnescapeOn(s: seq<byte>, out: seq<byte>, n: nat)
    requires s != [] && Unit(s) == (out, n) && 0 < n <= |s|
    ensures Unescape(s) == Then(out, Unescape(s[n..]))
  {
    hide Unit;
    assert out + [] == out;
  }

  /** parse_string() reads every string of the grammar as what it stands for, up to a NUL, whatever follows it. */
  lemma StringTaken(cs: seq<Char>, rest: seq<byte>)
    requires CharsOk(cs, false)
    ensures ParseString(SpellString(cs) + rest) ==
      match Denoted(cs) case None => Failed case Some(s) => Read(CText(s), rest)
  {
    hide SpellChars, ClosingQuote, Unescape, Denoted, CText;
    var body := SpellChars(cs);
    var text := SpellString(cs) + rest;
    Regroup([0x22] + body, [0x22], rest);
    Regroup([0x22], body, [0x22] + rest);
    assert text == [0x22] + (body + ([0x22] + rest));
    StringParts(body, rest);
    ClosingOfChars(cs, rest);
    UnescapeIsDenoted(cs);
  }

  lemma StringParts(body: seq<byte>, rest: seq<byte>)
    ensures var text, n := [0x22] + (body + ([0x22] + rest)), |body|;
      text[1..] == body + ([0x22] + rest) && text[1..1 + n] == body && text[n + 2..] == rest
  {
  }

  // ---------------------------------------------------------------- section 6: numbers

  predicate AllDigits(s: seq<byte>) {
    s != [] && forall i :: 0 <= i < |s| ==> 0x30 <= s[i] <= 0x39
  }

  /** A decimal number without leading zeros. */
  predicate IntPart(s: seq<byte>) {
    AllDigits(s) && (s[0] == 0x30 ==> |s| == 1)
  }

  predicate FractionPart(s: seq<byte>) {
    s == [] || (s[0] == 0x2E && AllDigits(s[1..]))
  }

  predicate ExponentPart(s: seq<byte>) {
    s == [] || (s[0] in {0x65, 0x45} && |s| > 1 && AllDigits(if s[1] in {0x2B, 0x2D} then s[2..] else s[1..]))
  }

  predicate NumberParts(t: seq<byte>, m: seq<byte>, i: seq<byte>, f: seq<byte>, e: seq<byte>) {
    m in {[], [0x2D]} && IntPart(i) && FractionPart(f) && ExponentPart(e) && t == m + (i + (f + e))
  }

  ghost predicate IsNumber(t: seq<byte>) {
    exists m, i, f, e :: NumberParts(t, m, i, f, e)
  }

  /** The octets of numbers. */
  predicate InNumber(c: byte) {
    0x30 <= c <= 0x39 || c in {0x2B, 0x2D, 0x2E, 0x45, 0x65}
  }

  /** What cJSON hands to strtod(): also other texts of these octets, if they begin like a number. */
  predicate NumberLike(t: seq<byte>) {
    t != [] && (t[0] == 0x2D || 0x30 <= t[0] <= 0x39) && forall i :: 0 <= i < |t| ==> InNumber(t[i])
  }

  lemma NumbersAreLike(t: seq<byte>)
    requires IsNumber(t)
    ensures NumberLike(t)
  {
    var m, i, f, e :| NumberParts(t, m, i, f, e);
    FractionLike(f);
    ExponentLike(e);
    hide FractionPart, ExponentPart;
    forall k | 0 <= k < |t| ensures InNumber(t[k]) {
      var j := k - |m|;
      assert k < |m| ==> t[k] == 0x2D;
      assert 0 <= j < |i| ==> t[k] == i[j];
      assert |i| <= j < |i| + |f| ==> t[k] == f[j - |i|];
      assert |i| + |f| <= j ==> t[k] == e[j - |i| - |f|];
    }
    assert t[0] == if m == [] then i[0] else 0x2D;
  }

  lemma FractionLike(f: seq<byte>)
    requires FractionPart(f)
    ensures forall k :: 0 <= k < |f| ==> InNumber(f[k])
  {
    forall k | 0 <= k < |f| ensures InNumber(f[k]) {
      assert k > 0 ==> f[k] == f[1..][k - 1];
    }
  }

  lemma ExponentLike(e: seq<byte>)
    requires ExponentPart(e)
    ensures forall k :: 0 <= k < |e| ==> InNumber(e[k])
  {
    forall k | 0 <= k < |e| ensures InNumber(e[k]) {
      assert k > 0 ==> e[k] == e[1..][k - 1];
      assert k > 1 ==> e[k] == e[2..][k - 2];
    }
  }

  // ---------------------------------------------------------------- sections 2 to 5: values

  /** A value as it is written: with the white space inside of it. */
  datatype Node =
    | NullName
    | FalseName
    | TrueName
    | Numeral(text: seq<byte>)
    | Quotation(chars: seq<Char>)
    | EmptyArray(space: seq<byte>)
    | Elements(items: seq<Element>)
    | EmptyObject(space: seq<byte>)
    | Pairs(pairs: seq<Pair>)

  datatype Element = Element(before: seq<byte>, value: Node, after: seq<byte>)

  datatype Pair = Pair(before: seq<byte>, name: seq<Char>, afterName: seq<byte>, afterColon: seq<byte>, value: Node,
                       after: seq<byte>)

  /** White space; cJSON passes over all control characters. */
  predicate Space(w: seq<byte>, strict: bool) {
    forall i :: 0 <= i < |w| ==> if strict then w[i] in {0x20, 0x09, 0x0A, 0x0D} else w[i] <= 0x20
  }

  /** The octets of a value. */
  function Spell(n: Node): seq<byte>
    decreases n, 0
  {
    match n
    case NullName => [0x6E, 0x75, 0x6C, 0x6C]
    case FalseName => [0x66, 0x61, 0x6C, 0x73, 0x65]
    case TrueName => [0x74, 0x72, 0x75, 0x65]
    case Numeral(text) => text
    case Quotation(chars) => SpellString(chars)
    case EmptyArray(space) => [0x5B] + space + [0x5D]
    case Elements(items) => [0x5B] + SpellElements(items) + [0x5D]
    case EmptyObject(space) => [0x7B] + space + [0x7D]
    case Pairs(pairs) => [0x7B] + SpellPairs(pairs) + [0x7D]
  }

  function SpellElement(e: Element): seq<byte>
    decreases e, 1
  {
    e.before + (Spell(e.value) + e.after)
  }

  function SpellElements(items: seq<Element>): seq<byte>
    decreases items, 2
  {
    if items == [] then []
    else if |items| == 1 then SpellElement(items[0])
    else SpellElement(items[0]) + ([0x2C] + SpellElements(items[1..]))
  }

  function SpellPair(p: Pair): seq<byte>
    decreases p, 1
  {
    p.before + (SpellString(p.name) + (p.afterName + ([0x3A] + (p.afterColon + (Spell(p.value) + p.after)))))
  }

  function SpellPairs(pairs: seq<Pair>): seq<byte>
    decreases pairs, 2
  {
    if pairs == [] then []
    else if |pairs| == 1 then SpellPair(pairs[0])
    else SpellPair(pairs[0]) + ([0x2C] + SpellPairs(pairs[1..]))
  }

  /**
    * A value of the grammar, with numbers of up to 63 characters, which strtod() reads to their end. What cJSON takes
    * besides is written if it is not strict.
    */
  ghost predicate Written(strtod: Strtod, strict: bool, n: Node)
    decreases n, 0
  {
    match n
    case Numeral(t) =>
      && NumberLike(t) && (strict ==> IsNumber(t)) && |t| <= 63
      && strtod(t).Converted? && strtod(t).consumed == |t|
    case Quotation(chars) => CharsOk(chars, strict)
    case EmptyArray(space) => Space(space, strict)
    case Elements(items) => items != [] && forall e :: e in items ==> ElementWritten(strtod, strict, e)
    case EmptyObject(space) => Space(space, strict)
    case Pairs(pairs) => pairs != [] && forall p :: p in pairs ==> PairWritten(strtod, strict, p)
    case _ => true
  }

  ghost predicate ElementWritten(strtod: Strtod, strict: bool, e: Element)
    decreases e, 1
  {
    Space(e.before, strict) && Space(e.after, strict) && Written(strtod, strict, e.value)
  }

  ghost predicate PairWritten(strtod: Strtod, strict: bool, p: Pair)
    decreases p, 1
  {
    && Space(p.before, strict) && Space(p.afterName, strict) && Space(p.afterColon, strict) && Space(p.after, strict)
    && CharsOk(p.name, strict) && Written(strtod, strict, p.value)
  }

  /** Whatever the grammar has, cJSON takes. */
  lemma {:induction false} StrictIsWritten(strtod: Strtod, n: Node)
    requires Written(strtod, true, n)
    ensures Written(strtod, false, n)
    decreases n
  {
    match n
    case Elements(items) =>
      forall e | e in items ensures ElementWritten(strtod, false, e) {
        assert ElementWritten(strtod, true, e);
        StrictIsWritten(strtod, e.value);
      }
    case Pairs(pairs) =>
      forall p | p in pairs ensures PairWritten(strtod, false, p) {
        assert PairWritten(strtod, true, p);
        StrictIsWritten(strtod, p.value);
      }
    case _ =>
  }

  // ---------------------------------------------------------------- what values stand for

  /** The value; none if a string has a surrogate without its partner. Strings are C strings: a NUL ends them. */
  ghost function Meaning(strtod: Strtod, n: Node): Option<Json>
    requires Written(strtod, false, n)
    decreases n, 0
  {
    match n
    case NullName => Some(Null)
    case FalseName => Some(False)
    case TrueName => Some(True)
    case Numeral(t) => Some(Number(strtod(t).value))
    case Quotation(chars) => (match Denoted(chars) case None => None case Some(s) => Some(String(CText(s))))
    case EmptyArray(_) => Some(Array([]))
    case Elements(items) => (match MeaningOfAll(strtod, items) case None => None case Some(js) => Some(Array(js)))
    case EmptyObject(_) => Some(Object([]))
    case Pairs(pairs) => (match MeaningOfPairs(strtod, pairs) case None => None case Some(ms) => Some(Object(ms)))
  }

  ghost function MeaningOfAll(strtod: Strtod, items: seq<Element>): Option<seq<Json>>
    requires forall e :: e in items ==> ElementWritten(strtod, false, e)
    decreases items, 2
  {
    if items == [] then Some([])
    else
      assert ElementWritten(strtod, false, items[0]);
      match (Meaning(strtod, items[0].value), MeaningOfAll(strtod, items[1..]))
      case (Some(j), Some(js)) => Some([j] + js)
      case _ => None
  }

  ghost function MeaningOfPairs(strtod: Strtod, pairs: seq<Pair>): Option<seq<Member>>
    requires forall p :: p in pairs ==> PairWritten(strtod, false, p)
    decreases pairs, 2
  {
    if pairs == [] then Some([])
    else
      assert PairWritten(strtod, false, pairs[0]);
      match (Denoted(pairs[0].name), Meaning(strtod, pairs[0].value), MeaningOfPairs(strtod, pairs[1..]))
      case (Some(name), Some(j), Some(ms)) => Some([Member(CText(name), j)] + ms)
      case _ => None
  }

  // ---------------------------------------------------------------- white space

  lemma {:induction false} SkipIndent(w: seq<byte>, t: seq<byte>)
    requires Space(w, false) && t != [] && t[0] > 0x20
    ensures SkipSpace(w + t) == t && DropSpace(w + t) == t
    decreases |w|
  {
    if w == [] {
      assert w + t == t;
    } else {
      assert (w + t)[1..] == w[1..] + t;
      SkipIndent(w[1..], t);
    }
  }

  lemma SkipNothing(t: seq<byte>)
    requires t != [] && t[0] > 0x20
    ensures SkipSpace(t) == t
  {
    assert DropSpace(t) == t;
  }

  // ---------------------------------------------------------------- values are read

  /** What may follow a value: not a character that would prolong a number. */
  predicate Stops(rest: seq<byte>) {
    rest == [] || !InNumber(rest[0])
  }

  /** Reading succeeds if the value means something and is nested no more than 1000 deep where it stands. */
  function Taken(m: Option<Json>, depth: nat, rest: seq<byte>): Result<Json> {
    match m
    case None => Failed
    case Some(j) => if depth + Height(j) <= 1000 then Read(j, rest) else Failed
  }

  function AllTaken(m: Option<seq<Json>>, depth: nat, rest: seq<byte>): Result<seq<Json>> {
    match m
    case None => Failed
    case Some(js) => if depth + HeightOfItems(js) <= 1000 then Read(js, rest) else Failed
  }

  function PairsTaken(m: Option<seq<Member>>, depth: nat, rest: seq<byte>): Result<seq<Member>> {
    match m
    case None => Failed
    case Some(ms) => if depth + HeightOfMembers(ms) <= 1000 then Read(ms, rest) else Failed
  }

  lemma {:induction false} NumberPrefixStops(t: seq<byte>, rest: seq<byte>, limit: nat)
    requires |t| <= limit && (forall i :: 0 <= i < |t| ==> InNumber(t[i])) && Stops(rest)
    ensures NumberPrefix(t + rest, limit) == t
    decreases |t|
  {
    if t == [] {
      assert t + rest == rest;
    } else {
      assert (t + rest)[1..] == t[1..] + rest;
      NumberPrefixStops(t[1..], rest, limit - 1);
    }
  }

  lemma NumberTaken(strtod: Strtod, t: seq<byte>, rest: seq<byte>, depth: nat)
    requires Written(strtod, false, Numeral(t)) && Stops(rest)
    ensures ParseValue(strtod, t + rest, depth) == Read(Number(strtod(t).value), rest)
  {
    hide ParseValue;
    NumberPrefixStops(t, rest, 63);
    var s := t + rest;
    assert s[0] == t[0] && s[|t|..] == rest;
    NoLiteral(s);
    ParseByStart(strtod, s, depth);
  }

  /** Of more than 63 characters of a number strtod() gets the first 63. */
  lemma {:induction false} NumberCut(s: seq<byte>, limit: nat)
    requires limit <= |s| && forall i :: 0 <= i < limit ==> InNumber(s[i])
    ensures NumberPrefix(s, limit) == s[..limit]
    decreases limit
  {
    if limit > 0 {
      NumberCut(s[1..], limit - 1);
    }
  }

  lemma LongNumber(strtod: Strtod, s: seq<byte>)
    requires |s| >= 63 && forall i :: 0 <= i < 63 ==> InNumber(s[i])
    ensures ParseNumber(strtod, s) ==
      match strtod(s[..63])
      case NoNumber => Failed
      case Converted(v, n) => if 0 < n <= 63 then Read(Number(v), s[n..]) else Failed
  {
    NumberCut(s, 63);
  }

  lemma QuotationTaken(strtod: Strtod, cs: seq<Char>, rest: seq<byte>, depth: nat)
    requires CharsOk(cs, false)
    ensures ParseValue(strtod, SpellString(cs) + rest, depth) ==
      match Denoted(cs) case None => Failed case Some(s) => Read(String(CText(s)), rest)
  {
    hide ParseValue, ParseString, SpellChars, Denoted, CText;
    StringTaken(cs, rest);
    var text := SpellString(cs) + rest;
    assert text[0] == 0x22;
    NoLiteral(text);
    ParseByStart(strtod, text, depth);
  }

  lemma SpellStart(strtod: Strtod, n: Node)
    requires Written(strtod, false, n)
    ensures var t := Spell(n); t != [] && t[0] > 0x20 && t[0] !in {0x5D, 0x7D, 0xEF}
  {
    hide SpellChars, SpellElements, SpellPairs;
  }

  /** A value is read as what it stands for, and the rest of the text is left. */
  lemma {:induction false} ValueTaken(strtod: Strtod, n: Node, rest: seq<byte>, depth: nat)
    requires Written(strtod, false, n) && depth <= 1000 && Stops(rest)
    ensures ParseValue(strtod, Spell(n) + rest, depth) == Taken(Meaning(strtod, n), depth, rest)
    decreases n, 0
  {
    hide ParseValue, SpellString, Denoted, CText;
    match n
    case Numeral(t) => NumberTaken(strtod, t, rest, depth);
    case Quotation(chars) => QuotationTaken(strtod, chars, rest, depth);
    case EmptyArray(space) => EmptyArrayTaken(strtod, space, rest, depth);
    case EmptyObject(space) => EmptyObjectTaken(strtod, space, rest, depth);
    case Elements(items) => ArrayTaken(strtod, items, rest, depth);
    case Pairs(pairs) => ObjectTaken(strtod, pairs, rest, depth);
    case _ => ParseLiteral(strtod, rest, depth);
  }

  lemma EmptyArrayTaken(strtod: Strtod, space: seq<byte>, rest: seq<byte>, depth: nat)
    requires Space(space, false) && depth <= 1000
    ensures ParseValue(strtod, [0x5B] + space + [0x5D] + rest, depth) == Taken(Some(Array([])), depth, rest)
  {
    hide ParseValue, SkipSpace, DropSpace;
    var s := [0x5B] + space + [0x5D] + rest;
    if depth == 1000 {
      TooDeep(strtod, s, depth);
    } else {
      assert s[1..] == space + ([0x5D] + rest);
      SkipIndent(space, [0x5D] + rest);
      ParseArray(strtod, s, depth);
    }
  }

  lemma EmptyObjectTaken(strtod: Strtod, space: seq<byte>, rest: seq<byte>, depth: nat)
    requires Space(space, false) && depth <= 1000
    ensures ParseValue(strtod, [0x7B] + space + [0x7D] + rest, depth) == Taken(Some(Object([])), depth, rest)
  {
    hide ParseValue, SkipSpace, DropSpace;
    var s := [0x7B] + space + [0x7D] + rest;
    if depth == 1000 {
      TooDeep(strtod, s, depth);
    } else {
      assert s[1..] == space + ([0x7D] + rest);
      SkipIndent(space, [0x7D] + rest);
      ParseObject(strtod, s, depth);
    }
  }

  /** Behind the white space in front of the first element. */
  function BareElements(items: seq<Element>, rest: seq<byte>): seq<byte>
    requires items != []
  {
    Spell(items[0].value) + (items[0].after + AfterFirst(items, rest))
  }

  /** What follows the first element, from a comma or the closing bracket on. */
  function AfterFirst(items: seq<Element>, rest: seq<byte>): seq<byte>
    requires items != []
  {
    if |items| == 1 then rest else [0x2C] + (SpellElements(items[1..]) + rest)
  }

  lemma ElementsParts(items: seq<Element>, rest: seq<byte>)
    requires items != []
    ensures SpellElements(items) + rest == items[0].before + BareElements(items, rest)
    ensures |items| > 1 ==>
      AfterFirst(items, rest)[1..] == items[1].before + BareElements(items[1..], rest)
  {
    hide Spell, SpellElements;
    OneElement(items, rest);
    if |items| > 1 {
      OneElement(items[1..], rest);
    }
  }

  lemma OneElement(items: seq<Element>, rest: seq<byte>)
    requires items != []
    ensures SpellElements(items) + rest == items[0].before + BareElements(items, rest)
  {
    hide Spell;
    var e := items[0];
    var more := if |items| == 1 then [] else [0x2C] + SpellElements(items[1..]);
    assert more + rest == AfterFirst(items, rest);
    assert SpellElements(items) == SpellElement(e) + more;
    hide SpellElements, AfterFirst;
    ElementInFront(e, more, rest);
  }

  lemma ElementInFront(e: Element, more: seq<byte>, rest: seq<byte>)
    ensures SpellElement(e) + more + rest == e.before + (Spell(e.value) + (e.after + (more + rest)))
  {
    hide Spell;
    var value := Spell(e.value);
    Regroup(e.before, value, e.after + (more + rest));
    assert SpellElement(e) + more + rest == e.before + value + (e.after + (more + rest));
  }

  lemma ArrayTaken(strtod: Strtod, items: seq<Element>, rest: seq<byte>, depth: nat)
    requires Written(strtod, false, Elements(items)) && depth <= 1000
    ensures ParseValue(strtod, Spell(Elements(items)) + rest, depth)
      == Taken(Meaning(strtod, Elements(items)), depth, rest)
    decreases items, 3
  {
    hide ParseValue, ParseElements, SkipSpace, DropSpace, SpellElements, ElementWritten;
    var s, last := Spell(Elements(items)) + rest, [0x5D] + rest;
    assert s == [0x5B] + (SpellElements(items) + last) && last[1..] == rest;
    hide Spell;
    if depth == 1000 {
      TooDeep(strtod, s, depth);
    } else {
      var e, body := items[0], BareElements(items, last);
      assert ElementWritten(strtod, false, e);
      assert Space(e.before, false) && Written(strtod, false, e.value) by { ElementParts(strtod, e); }
      ElementsParts(items, last);
      SpellStart(strtod, e.value);
      assert body[0] == Spell(e.value)[0];
      SkipIndent(e.before, body);
      SkipNothing(body);
      ParseArray(strtod, s, depth);
      hide BareElements;
      ElementsTaken(strtod, items, body, last, depth + 1);
    }
  }

  lemma ElementParts(strtod: Strtod, e: Element)
    requires ElementWritten(strtod, false, e)
    ensures Space(e.before, false) && Space(e.after, false) && Written(strtod, false, e.value)
  {
    hide Written;
  }

  lemma {:induction false} ElementsTaken(strtod: Strtod, items: seq<Element>, s: seq<byte>, rest: seq<byte>, depth: nat)
    requires items != [] && (forall e :: e in items ==> ElementWritten(strtod, false, e)) && depth <= 1000
    requires rest != [] && rest[0] == 0x5D && SkipSpace(s) == BareElements(items, rest)
    ensures ParseElements(strtod, s, depth) == AllTaken(MeaningOfAll(strtod, items), depth, rest)
    decreases items, 2
  {
    hide ParseValue, ParseElements, SkipSpace, DropSpace, Spell, SpellElements, ElementWritten, Height, Meaning;
    var e, others, tail := items[0], items[1..], AfterFirst(items, rest);
    assert ElementWritten(strtod, false, e);
    ElementParts(strtod, e);
    EndStops(e.after, tail);
    ValueTaken(strtod, e.value, e.after + tail, depth);
    SkipIndent(e.after, tail);
    match Taken(Meaning(strtod, e.value), depth, e.after + tail)
    case Failed =>
      ElementsFail(strtod, s, depth);
      FirstHeight(strtod, items);
    case Read(j, _) =>
      ElementsStep(strtod, s, depth, j, e.after + tail);
      if others == [] {
        OneMeaning(strtod, items);
      } else {
        ElementsParts(items, rest);
        assert ElementWritten(strtod, false, others[0]);
        ElementParts(strtod, others[0]);
        var body := BareElements(others, rest);
        SpellStart(strtod, others[0].value);
        assert body[0] == Spell(others[0].value)[0];
        SkipIndent(others[0].before, body);
        hide BareElements;
        ElementsTaken(strtod, others, tail[1..], rest, depth);
      }
  }

  lemma EndStops(w: seq<byte>, tail: seq<byte>)
    requires Space(w, false) && tail != [] && tail[0] in {0x2C, 0x5D, 0x7D}
    ensures Stops(w + tail) && tail[0] > 0x20
  {
    assert (w + tail)[0] == if w == [] then tail[0] else w[0];
  }

  lemma FirstHeight(strtod: Strtod, items: seq<Element>)
    requires items != [] && (forall e :: e in items ==> ElementWritten(strtod, false, e))
    ensures ElementWritten(strtod, false, items[0])
    ensures MeaningOfAll(strtod, items).Some? ==>
      && Meaning(strtod, items[0].value).Some?
      && HeightOfItems(MeaningOfAll(strtod, items).value) >= Height(Meaning(strtod, items[0].value).value)
  {
    hide Height, Meaning, ElementWritten;
  }

  lemma OneMeaning(strtod: Strtod, items: seq<Element>)
    requires |items| == 1 && (forall e :: e in items ==> ElementWritten(strtod, false, e))
    ensures ElementWritten(strtod, false, items[0])
    ensures MeaningOfAll(strtod, items) ==
      match Meaning(strtod, items[0].value) case None => None case Some(j) => Some([j])
    ensures forall j :: HeightOfItems([j]) == Height(j)
  {
    hide Height, Meaning, ElementWritten;
    assert items[1..] == [] && MeaningOfAll(strtod, []) == Some([]);
    assert ElementWritten(strtod, false, items[0]);
    ElementParts(strtod, items[0]);
    match Meaning(strtod, items[0].value)
    case None =>
    case Some(j) => assert [j] + [] == [j];
  }

  /** Behind the white space in front of a name. */
  function BarePair(p: Pair, tail: seq<byte>): seq<byte> {
    SpellString(p.name) + (p.afterName + ([0x3A] + (p.afterColon + (Spell(p.value) + (p.after + tail)))))
  }

  function AfterFirstPair(pairs: seq<Pair>, rest: seq<byte>): seq<byte>
    requires pairs != []
  {
    if |pairs| == 1 then rest else [0x2C] + (SpellPairs(pairs[1..]) + rest)
  }

  function BarePairs(pairs: seq<Pair>, rest: seq<byte>): seq<byte>
    requires pairs != []
  {
    BarePair(pairs[0], AfterFirstPair(pairs, rest))
  }

  lemma PairsParts(pairs: seq<Pair>, rest: seq<byte>)
    requires pairs != []
    ensures SpellPairs(pairs) + rest == pairs[0].before + BarePairs(pairs, rest)
    ensures |pairs| > 1 ==>
      AfterFirstPair(pairs, rest)[1..] == pairs[1].before + BarePairs(pairs[1..], rest)
  {
    hide SpellPairs, BarePairs;
    OnePair(pairs, rest);
    if |pairs| > 1 {
      OnePair(pairs[1..], rest);
    }
  }

  lemma OnePair(pairs: seq<Pair>, rest: seq<byte>)
    requires pairs != []
    ensures SpellPairs(pairs) + rest == pairs[0].before + BarePairs(pairs, rest)
  {
    hide Spell, SpellString;
    var p := pairs[0];
    var more := if |pairs| == 1 then [] else [0x2C] + SpellPairs(pairs[1..]);
    assert more + rest == AfterFirstPair(pairs, rest);
    assert SpellPairs(pairs) == SpellPair(p) + more;
    hide SpellPairs, AfterFirstPair;
    PairInFront(p, more, rest);
  }

  lemma PairInFront(p: Pair, more: seq<byte>, rest: seq<byte>)
    ensures SpellPair(p) + more + rest == p.before + BarePair(p, more + rest)
  {
    hide Spell, SpellString;
    var name, value := SpellString(p.name), Spell(p.value);
    SixParts(p.before, name, p.afterName + [0x3A], p.afterColon, value, p.after + more + rest);
    assert SpellPair(p) + more + rest
      == p.before + name + (p.afterName + [0x3A]) + p.afterColon + value + (p.after + more + rest);
  }

  lemma SixParts(a: seq<byte>, b: seq<byte>, c: seq<byte>, d: seq<byte>, e: seq<byte>, f: seq<byte>)
    ensures a + b + c + d + e + f == a + (b + (c + (d + (e + f))))
  {
  }

  lemma ObjectTaken(strtod: Strtod, pairs: seq<Pair>, rest: seq<byte>, depth: nat)
    requires Written(strtod, false, Pairs(pairs)) && depth <= 1000
    ensures ParseValue(strtod, Spell(Pairs(pairs)) + rest, depth) == Taken(Meaning(strtod, Pairs(pairs)), depth, rest)
    decreases pairs, 3
  {
    hide ParseValue, ParseMembers, SkipSpace, DropSpace, SpellPairs, PairWritten;
    var s, last := Spell(Pairs(pairs)) + rest, [0x7D] + rest;
    assert s == [0x7B] + (SpellPairs(pairs) + last) && last[1..] == rest;
    hide Spell;
    if depth == 1000 {
      TooDeep(strtod, s, depth);
    } else {
      var p, body := pairs[0], BarePairs(pairs, last);
      assert PairWritten(strtod, false, p);
      PairParts(strtod, p);
      PairsParts(pairs, last);
      assert body[0] == 0x22;
      SkipIndent(p.before, body);
      SkipNothing(body);
      ParseObject(strtod, s, depth);
      hide BarePairs;
      MembersTaken(strtod, pairs, body, last, depth + 1);
    }
  }

  lemma PairParts(strtod: Strtod, p: Pair)
    requires PairWritten(strtod, false, p)
    ensures Space(p.before, false) && Space(p.afterName, false) && Space(p.afterColon, false) && Space(p.after, false)
    ensures CharsOk(p.name, false) && Written(strtod, false, p.value)
  {
    hide Written;
  }

  /** What parse_object() makes of one name with its value. */
  ghost function PairTaken(strtod: Strtod, p: Pair, depth: nat, rest: seq<byte>): Result<Member>
    requires CharsOk(p.name, false) && Written(strtod, false, p.value)
  {
    match (Denoted(p.name), Taken(Meaning(strtod, p.value), depth, rest))
    case (Some(name), Read(j, _)) => Read(Member(CText(name), j), rest)
    case _ => Failed
  }

  lemma OnePairTaken(strtod: Strtod, p: Pair, s: seq<byte>, tail: seq<byte>, depth: nat)
    requires PairWritten(strtod, false, p) && depth <= 1000
    requires tail != [] && tail[0] in {0x2C, 0x7D} && SkipSpace(s) == BarePair(p, tail)
    ensures CharsOk(p.name, false) && Written(strtod, false, p.value)
    ensures ParseMember(strtod, s, depth) == PairTaken(strtod, p, depth, p.after + tail)
    decreases p, 1
  {
    hide ParseValue, ParseString, SkipSpace, DropSpace, Spell, SpellString, Denoted, CText, Meaning, PairWritten,
      Written;
    PairParts(strtod, p);
    var value := Spell(p.value) + (p.after + tail);
    var colon := [0x3A] + (p.afterColon + value);
    StringTaken(p.name, p.afterName + colon);
    SkipIndent(p.afterName, colon);
    assert colon[1..] == p.afterColon + value;
    SpellStart(strtod, p.value);
    assert value[0] == Spell(p.value)[0];
    SkipIndent(p.afterColon, value);
    EndStops(p.after, tail);
    ValueTaken(strtod, p.value, p.after + tail, depth);
  }

  lemma {:induction false} MembersTaken(strtod: Strtod, pairs: seq<Pair>, s: seq<byte>, rest: seq<byte>, depth: nat)
    requires pairs != [] && (forall p :: p in pairs ==> PairWritten(strtod, false, p)) && depth <= 1000
    requires rest != [] && rest[0] == 0x7D && SkipSpace(s) == BarePairs(pairs, rest)
    ensures ParseMembers(strtod, s, depth) == PairsTaken(MeaningOfPairs(strtod, pairs), depth, rest)
    decreases pairs, 2
  {
    hide ParseMember, ParseMembers, SkipSpace, DropSpace, BarePair, SpellPairs, PairWritten, Height, Meaning, Denoted,
      CText;
    var p, others, tail := pairs[0], pairs[1..], AfterFirstPair(pairs, rest);
    assert PairWritten(strtod, false, p);
    OnePairTaken(strtod, p, s, tail, depth);
    PairParts(strtod, p);
    EndStops(p.after, tail);
    SkipIndent(p.after, tail);
    match PairTaken(strtod, p, depth, p.after + tail)
    case Failed =>
      MembersFail(strtod, s, depth);
      FirstPairHeight(strtod, pairs);
    case Read(m, _) =>
      MembersStep(strtod, s, depth, m, p.after + tail);
      if others == [] {
        OnePairMeaning(strtod, pairs);
      } else {
        PairsParts(pairs, rest);
        var next := others[0];
        assert PairWritten(strtod, false, next);
        PairParts(strtod, next);
        var body := BarePairs(others, rest);
        assert body[0] == 0x22 by { BareStart(others, rest); }
        SkipIndent(next.before, body);
        hide BarePairs;
        MembersTaken(strtod, others, tail[1..], rest, depth);
      }
  }

  lemma BareStart(pairs: seq<Pair>, rest: seq<byte>)
    requires pairs != []
    ensures BarePairs(pairs, rest) != [] && BarePairs(pairs, rest)[0] == 0x22
  {
    hide Spell, SpellChars;
  }

  lemma FirstPairHeight(strtod: Strtod, pairs: seq<Pair>)
    requires pairs != [] && (forall p :: p in pairs ==> PairWritten(strtod, false, p))
    ensures PairWritten(strtod, false, pairs[0])
    ensures MeaningOfPairs(strtod, pairs).Some? ==>
      && Meaning(strtod, pairs[0].value).Some? && Denoted(pairs[0].name).Some?
      && HeightOfMembers(MeaningOfPairs(strtod, pairs).value) >= Height(Meaning(strtod, pairs[0].value).value)
  {
    hide Height, Meaning, Denoted, CText;
  }

  lemma OnePairMeaning(strtod: Strtod, pairs: seq<Pair>)
    requires |pairs| == 1 && (forall p :: p in pairs ==> PairWritten(strtod, false, p))
    ensures PairWritten(strtod, false, pairs[0])
    ensures MeaningOfPairs(strtod, pairs) ==
      match (Denoted(pairs[0].name), Meaning(strtod, pairs[0].value))
      case (Some(name), Some(j)) => Some([Member(CText(name), j)])
      case _ => None
    ensures forall m :: HeightOfMembers([m]) == Height(m.value)
  {
    hide Height, Meaning, Denoted, CText, PairWritten;
    assert pairs[1..] == [] && MeaningOfPairs(strtod, []) == Some([]);
    assert PairWritten(strtod, false, pairs[0]);
    PairParts(strtod, pairs[0]);
    match (Denoted(pairs[0].name), Meaning(strtod, pairs[0].value))
    case (Some(name), Some(j)) => assert [Member(CText(name), j)] + [] == [Member(CText(name), j)];
    case _ =>
  }

  // ---------------------------------------------------------------- whole texts

  /** A text of section 2, and the NUL behind it as a C string. */
  function SpellText(bom: bool, before: seq<byte>, n: Node, after: seq<byte>): seq<byte> {
    (if bom then [0xEF, 0xBB, 0xBF] else []) + (before + (Spell(n) + (after + [0])))
  }

  /**
    * cJSON_Parse() and its strict variant read every text of RFC 8259 as what it stands for, white space and a byte
    * order mark included, if and only if it is nested no more than 1000 deep and its surrogates come in pairs.
    */
  lemma TextTaken(strtod: Strtod, bom: bool, before: seq<byte>, n: Node, after: seq<byte>, wholeText: bool)
    requires Written(strtod, false, n) && Space(before, false) && Space(after, false)
    ensures Parse(strtod, SpellText(bom, before, n, after), wholeText) ==
      match Meaning(strtod, n) case None => None case Some(j) => if Height(j) <= 1000 then Some(j) else None
    ensures wholeText && Parse(strtod, SpellText(bom, before, n, after), wholeText).Some? ==>
      ParseRest(strtod, SpellText(bom, before, n, after), wholeText) == [0]
  {
    hide ParseValue, SkipSpace, DropSpace, Spell, Written, Meaning, Height;
    var rest := after + [0];
    var value := Spell(n) + rest;
    var s := SpellText(bom, before, n, after);
    SpellStart(strtod, n);
    assert value[0] == Spell(n)[0];
    SkipIndent(before, value);
    BomSkipped(bom, before, value);
    assert rest[0] == if after == [] then 0 else after[0];
    ValueTaken(strtod, n, rest, 0);
    OnlyNul(after);
  }

  lemma BomSkipped(bom: bool, before: seq<byte>, value: seq<byte>)
    requires Space(before, false) && |value| >= 2 && value[0] != 0xEF
    ensures SkipBom((if bom then [0xEF, 0xBB, 0xBF] else []) + (before + value)) == before + value
  {
    var t := before + value;
    assert t[0] == if before == [] then value[0] else before[0];
    assert [] + t == t;
    assert ([0xEF, 0xBB, 0xBF] + t)[3..] == t;
  }

  lemma {:induction false} OnlyNul(after: seq<byte>)
    requires Space(after, false)
    ensures DropSpace(after + [0]) == [] && SkipSpace(after + [0]) == [0]
    decreases |after|
  {
    var s := after + [0];
    assert s[|s| - 1..] == [0];
    if after == [] {
      assert s[1..] == [];
    } else {
      assert s[1..] == after[1..] + [0];
      OnlyNul(after[1..]);
    }
  }
}
