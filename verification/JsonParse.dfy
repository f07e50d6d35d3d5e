/** What the recursive-descent parser of cJSON.c makes of a text, as functions of the text that is left. */
module JsonParse {
  import opened Wrappers
  import opened Bytes
  import opened JsonText
  import Utf8
  import Utf8Bits

  const NESTING_LIMIT := 1000

  /** number_c_string holds 63 characters and a NUL. */
  const NUMBER_CHARS := 63

  /** The value read, and the text after it. */
  datatype Result<+T> = Failed | Read(value: T, rest: seq<byte>)

  // ---------------------------------------------------------------- whitespace

  function DropSpace(s: seq<byte>): (r: seq<byte>)
    ensures |r| <= |s|
    decreases |s|
  {
    if s != [] && s[0] <= 32 then DropSpace(s[1..]) else s
  }

  /** buffer_skip_whitespace(): over characters up to 32, but one step back from the end of the buffer. */
  function SkipSpace(s: seq<byte>): (r: seq<byte>)
    ensures |r| <= |s| && (s != [] ==> r != [])
  {
    if s == [] then s else if DropSpace(s) == [] then s[|s| - 1..] else DropSpace(s)
  }

  // ---------------------------------------------------------------- strings

  /** Where the literal that starts behind its opening quote ends: the first quote that no backslash precedes. */
  function ClosingQuote(s: seq<byte>): (r: Option<nat>)
    ensures r.Some? ==> r.value < |s| && s[r.value] == QUOTE
    decreases |s|
  {
    if s == [] then None
    else if s[0] == QUOTE then Some(0)
    else
      var k := if s[0] == BACKSLASH then 2 else 1;
      if |s| < k then None else
        match ClosingQuote(s[k..])
        case None => None
        case Some(n) => Some(n + k)
  }

  /** One hexadecimal digit of parse_hex4(). */
  function HexValue(c: byte): Option<bv32> {
    if 0x30 <= c <= 0x39 then Some((c - 0x30) as bv32)
    else if 0x41 <= c <= 0x46 then Some(10 + (c - 0x41) as bv32)
    else if 0x61 <= c <= 0x66 then Some(10 + (c - 0x61) as bv32)
    else None
  }

  /** parse_hex4(): the value of four hexadecimal digits, 0 when one of them is none. */
  function Hex4(s: seq<byte>): bv32
    requires |s| >= 4
  {
    match (HexValue(s[0]), HexValue(s[1]), HexValue(s[2]), HexValue(s[3]))
    case (Some(a), Some(b), Some(c), Some(d)) => JoinDigits(a, b, c, d)
    case _ => 0
  }

  function JoinDigits(a: bv32, b: bv32, c: bv32, d: bv32): bv32 {
    (a << 12) + (b << 8) + (c << 4) + d
  }

  lemma HexValueBound(c: byte)
    ensures HexValue(c).Some? ==> HexValue(c).value < 16
  {
  }

  lemma Hex4Bound(s: seq<byte>)
    requires |s| >= 4
    ensures Hex4(s) <= 0xFFFF
  {
    hide HexValue, JoinDigits;
    HexValueBound(s[0]);
    HexValueBound(s[1]);
    HexValueBound(s[2]);
    HexValueBound(s[3]);
    if HexValue(s[0]).Some? && HexValue(s[1]).Some? && HexValue(s[2]).Some? && HexValue(s[3]).Some? {
      FourNibbles(HexValue(s[0]).value, HexValue(s[1]).value, HexValue(s[2]).value, HexValue(s[3]).value);
    }
  }

  lemma FourNibbles(a: bv32, b: bv32, c: bv32, d: bv32)
    requires a < 16 && b < 16 && c < 16 && d < 16
    ensures JoinDigits(a, b, c, d) <= 0xFFFF
  {
  }

  lemma PairIsScalar(high: bv32, low: bv32)
    requires HighSurrogate(high) && LowSurrogate(low)
    ensures 0x10000 <= PairValue(high, low) <= 0x10FFFF
  {
  }

  predicate HighSurrogate(code: bv32) { 0xD800 <= code <= 0xDBFF }

  predicate LowSurrogate(code: bv32) { 0xDC00 <= code <= 0xDFFF }

  function PairValue(high: bv32, low: bv32): bv32 {
    0x10000 + (((high & 0x3FF) << 10) | (low & 0x3FF))
  }

  /** The code point of the escape at the front of the literal's text, and its length; 0 for the length on failure. */
  function EscapePoint(s: seq<byte>): (r: (bv32, nat))
    ensures r.1 == 0 || (r.1 == 6 && |s| >= 6) || (r.1 == 12 && |s| >= 12)
    ensures r.1 != 0 ==> Utf8Bits.IsScalar(r.0)
  {
    if |s| < 6 then (0, 0) else
      var first := Hex4(s[2..]);
      Hex4Bound(s[2..]);
      if LowSurrogate(first) then (0, 0)
      else if HighSurrogate(first) then
        if |s| < 12 || s[6] != BACKSLASH || s[7] != LETTER_U then (0, 0) else
          var second := Hex4(s[8..]);
          if !LowSurrogate(second) then (0, 0) else
            PairIsScalar(first, second);
            (PairValue(first, second), 12)
      else (first, 6)
  }

  /** The character of a two-character escape, if it is one. */
  function ShortUnescape(c: byte): Option<byte> {
    match c
    case 0x62 => Some(0x08)
    case 0x66 => Some(0x0C)
    case 0x6E => Some(0x0A)
    case 0x72 => Some(0x0D)
    case 0x74 => Some(0x09)
    case 0x22 => Some(c)
    case 0x5C => Some(c)
    case 0x2F => Some(c)
    case _ => None
  }

  /** One step of the copy loop of parse_string(): the octets written, and the characters taken; 0 taken on failure. */
  function Unit(s: seq<byte>): (r: (seq<byte>, nat))
    requires s != []
  {
    if s[0] != BACKSLASH then ([s[0]], 1)
    else
      // a lone backslash at the end is followed by the closing quote
      var c := if |s| > 1 then s[1] else QUOTE;
      if c == LETTER_U then
        var (point, n) := EscapePoint(s);
        if n == 0 then ([], 0) else (Utf8.Encode(point), n)
      else
        match ShortUnescape(c)
        case None => ([], 0)
        case Some(b) => ([b], 2)
  }

  function Unescape(s: seq<byte>): Option<seq<byte>>
    decreases |s|
  {
    if s == [] then Some([]) else
      var (out, n) := Unit(s);
      if n == 0 then None
      else if n >= |s| then Some(out)
      else
        match Unescape(s[n..])
        case None => None
        case Some(more) => Some(out + more)
  }

  /** parse_string(), and what its value is as a C string */
  function ParseString(s: seq<byte>): (r: Result<seq<byte>>)
    ensures r.Read? ==> |r.rest| + 2 <= |s| && 0 !in r.value
  {
    if s == [] || s[0] != QUOTE then Failed else
      match ClosingQuote(s[1..])
      case None => Failed
      case Some(n) =>
        match Unescape(s[1..1 + n])
        case None => Failed
        case Some(chars) => Read(CText(chars), s[n + 2..])
  }

  // ---------------------------------------------------------------- numbers

  /** The characters parse_number() hands to strtod(). */
  function NumberPrefix(s: seq<byte>, limit: nat): (r: seq<byte>)
    ensures r <= s && |r| <= limit
  {
    if limit == 0 || s == [] || !NumberChar(s[0]) then [] else [s[0]] + NumberPrefix(s[1..], limit - 1)
  }

  /** parse_number() */
  function ParseNumber(strtod: Strtod, s: seq<byte>): (r: Result<Json>)
    ensures r.Read? ==> |r.rest| < |s|
  {
    var text := NumberPrefix(s, NUMBER_CHARS);
    match strtod(text)
    case NoNumber => Failed
    case Converted(v, n) => if 0 < n <= |text| then Read(Number(v), s[n..]) else Failed
  }

  // ---------------------------------------------------------------- values

  /** After the elements, parse_array() wants a closing bracket. */
  function FinishArray(r: Result<seq<Json>>): Result<Json> {
    match r
    case Failed => Failed
    case Read(items, u) => if u != [] && u[0] == CLOSE_ARRAY then Read(Array(items), u[1..]) else Failed
  }

  /** After the members, parse_object() wants a closing brace. */
  function FinishObject(r: Result<seq<Member>>): Result<Json> {
    match r
    case Failed => Failed
    case Read(members, u) => if u != [] && u[0] == CLOSE_OBJECT then Read(Object(members), u[1..]) else Failed
  }

  function Consed<T>(x: T, r: Result<seq<T>>): Result<seq<T>> {
    match r
    case Failed => Failed
    case Read(more, rest) => Read([x] + more, rest)
  }

  /** parse_value(), inside depth open arrays and objects. */
  function ParseValue(strtod: Strtod, s: seq<byte>, depth: nat): (r: Result<Json>)
    ensures r.Read? ==> |r.rest| < |s|
    decreases |s|, 0
  {
    if NULL_TEXT <= s then Read(Null, s[4..])
    else if FALSE_TEXT <= s then Read(False, s[5..])
    else if TRUE_TEXT <= s then Read(True, s[4..])
    else if s == [] then Failed
    else if s[0] == QUOTE then
      match ParseString(s)
      case Failed => Failed
      case Read(chars, rest) => Read(String(chars), rest)
    else if s[0] == MINUS || 0x30 <= s[0] <= 0x39 then ParseNumber(strtod, s)
    else if s[0] == OPEN_ARRAY && depth < NESTING_LIMIT then
      var t := SkipSpace(s[1..]);
      if t == [] then Failed
      else if t[0] == CLOSE_ARRAY then Read(Array([]), t[1..])
      else
        FinishArray(ParseElements(strtod, t, depth + 1))
    else if s[0] == OPEN_OBJECT && depth < NESTING_LIMIT then
      var t := SkipSpace(s[1..]);
      if t == [] then Failed
      else if t[0] == CLOSE_OBJECT then Read(Object([]), t[1..])
      else
        FinishObject(ParseMembers(strtod, t, depth + 1))
    else Failed
  }

  /** The loop of parse_array(), from the start of an element. */
  function ParseElements(strtod: Strtod, s: seq<byte>, depth: nat): (r: Result<seq<Json>>)
    ensures r.Read? ==> |r.rest| < |s|
    decreases |s|, 1
  {
    match ParseValue(strtod, SkipSpace(s), depth)
    case Failed => Failed
    case Read(v, rest) =>
      var u := SkipSpace(rest);
      if u == [] || u[0] != COMMA then Read([v], u) else Consed(v, ParseElements(strtod, u[1..], depth))
  }

  /** One name, colon and value of parse_object(). */
  function ParseMember(strtod: Strtod, s: seq<byte>, depth: nat): (r: Result<Member>)
    ensures r.Read? ==> |r.rest| < |s|
    decreases |s|, 1
  {
    match ParseString(SkipSpace(s))
    case Failed => Failed
    case Read(name, rest) =>
      var u := SkipSpace(rest);
      if u == [] || u[0] != COLON then Failed
      else
        match ParseValue(strtod, SkipSpace(u[1..]), depth)
        case Failed => Failed
        case Read(v, last) => Read(Member(name, v), last)
  }

  /** The loop of parse_object(), from the start of a name. */
  function ParseMembers(strtod: Strtod, s: seq<byte>, depth: nat): (r: Result<seq<Member>>)
    ensures r.Read? ==> |r.rest| < |s|
    decreases |s|, 2
  {
    match ParseMember(strtod, s, depth)
    case Failed => Failed
    case Read(m, rest) =>
      var u := SkipSpace(rest);
      if u == [] || u[0] != COMMA then Read([m], u) else Consed(m, ParseMembers(strtod, u[1..], depth))
  }

  // one lemma for each way parse_value() can go

  lemma ParseLiteral(strtod: Strtod, rest: seq<byte>, depth: nat)
    ensures ParseValue(strtod, NULL_TEXT + rest, depth) == Read(Null, rest)
    ensures ParseValue(strtod, FALSE_TEXT + rest, depth) == Read(False, rest)
    ensures ParseValue(strtod, TRUE_TEXT + rest, depth) == Read(True, rest)
  {
    assert (NULL_TEXT + rest)[4..] == rest && (FALSE_TEXT + rest)[5..] == rest && (TRUE_TEXT + rest)[4..] == rest;
    assert (FALSE_TEXT + rest)[0] == FALSE_TEXT[0] && (TRUE_TEXT + rest)[0] == TRUE_TEXT[0];
  }

  predicate IsLiteral(s: seq<byte>) {
    NULL_TEXT <= s || FALSE_TEXT <= s || TRUE_TEXT <= s
  }

  lemma NoLiteral(s: seq<byte>)
    requires s != [] && s[0] !in {0x6E, 0x66, 0x74}
    ensures !IsLiteral(s)
  {
  }

  lemma ParseByStart(strtod: Strtod, s: seq<byte>, depth: nat)
    requires s != [] && !IsLiteral(s)
    ensures var r := ParseValue(strtod, s, depth);
      if s[0] == QUOTE then
        r == (match ParseString(s) case Failed => Failed case Read(chars, rest) => Read(String(chars), rest))
      else if s[0] == MINUS || 0x30 <= s[0] <= 0x39 then r == ParseNumber(strtod, s)
      else s[0] !in {OPEN_ARRAY, OPEN_OBJECT} || depth >= NESTING_LIMIT ==> r == Failed
  {
    hide ParseString, ParseNumber;
  }

  /** One bracket too many. */
  lemma TooDeep(strtod: Strtod, s: seq<byte>, depth: nat)
    requires s != [] && s[0] in {OPEN_ARRAY, OPEN_OBJECT} && depth >= NESTING_LIMIT
    ensures ParseValue(strtod, s, depth) == Failed
  {
    hide ParseValue;
    NoLiteral(s);
    ParseByStart(strtod, s, depth);
  }

  lemma ParseArray(strtod: Strtod, s: seq<byte>, depth: nat)
    requires s != [] && s[0] == OPEN_ARRAY && depth < NESTING_LIMIT
    ensures var r, t := ParseValue(strtod, s, depth), SkipSpace(s[1..]);
      r == if t == [] then Failed
           else if t[0] == CLOSE_ARRAY then Read(Array([]), t[1..])
           else FinishArray(ParseElements(strtod, t, depth + 1))
  {
    hide ParseElements, SkipSpace;
  }

  lemma ParseObject(strtod: Strtod, s: seq<byte>, depth: nat)
    requires s != [] && s[0] == OPEN_OBJECT && depth < NESTING_LIMIT
    ensures var r, t := ParseValue(strtod, s, depth), SkipSpace(s[1..]);
      r == if t == [] then Failed
           else if t[0] == CLOSE_OBJECT then Read(Object([]), t[1..])
           else FinishObject(ParseMembers(strtod, t, depth + 1))
  {
    hide ParseMembers, SkipSpace;
  }

  lemma ElementsStep(strtod: Strtod, s: seq<byte>, depth: nat, v: Json, rest: seq<byte>)
    requires ParseValue(strtod, SkipSpace(s), depth) == Read(v, rest)
    ensures var u := SkipSpace(rest);
      ParseElements(strtod, s, depth) ==
      if u == [] || u[0] != COMMA then Read([v], u) else Consed(v, ParseElements(strtod, u[1..], depth))
  {
    hide ParseValue, SkipSpace;
  }

  lemma MembersStep(strtod: Strtod, s: seq<byte>, depth: nat, m: Member, rest: seq<byte>)
    requires ParseMember(strtod, s, depth) == Read(m, rest)
    ensures var u := SkipSpace(rest);
      ParseMembers(strtod, s, depth) ==
      if u == [] || u[0] != COMMA then Read([m], u) else Consed(m, ParseMembers(strtod, u[1..], depth))
  {
    hide ParseMember, SkipSpace;
  }

  lemma ParseNothing(strtod: Strtod, depth: nat)
    ensures ParseValue(strtod, [], depth) == Failed
  {
  }

  lemma ElementsFail(strtod: Strtod, s: seq<byte>, depth: nat)
    requires ParseValue(strtod, SkipSpace(s), depth) == Failed
    ensures ParseElements(strtod, s, depth) == Failed
  {
    hide ParseValue, SkipSpace;
  }

  lemma MembersFail(strtod: Strtod, s: seq<byte>, depth: nat)
    requires ParseMember(strtod, s, depth) == Failed
    ensures ParseMembers(strtod, s, depth) == Failed
  {
    hide ParseMember, SkipSpace;
  }

  /** skip_utf8_bom() */
  function SkipBom(s: seq<byte>): seq<byte> {
    if |s| > 4 && s[0] == 0xEF && s[1] == 0xBB && s[2] == 0xBF then s[3..] else s
  }

  /** cJSON_ParseWithOpts() on a C string, its NUL included. */
  function Parse(strtod: Strtod, s: seq<byte>, wholeText: bool): Option<Json> {
    match ParseValue(strtod, SkipSpace(SkipBom(s)), 0)
    case Failed => None
    case Read(v, rest) =>
      var t := SkipSpace(rest);
      if wholeText && (t == [] || t[0] != 0) then None else Some(v)
  }

  /** What is left of the text behind the value: return_parse_end. */
  function ParseRest(strtod: Strtod, s: seq<byte>, wholeText: bool): seq<byte>
    requires Parse(strtod, s, wholeText).Some?
  {
    var rest := ParseValue(strtod, SkipSpace(SkipBom(s)), 0).rest;
    if wholeText then SkipSpace(rest) else rest
  }
}
