/** JSON values of cJSON.c, and the text it prints for them. */
module JsonText {
  import opened Bytes

  const QUOTE: byte := 0x22
  const BACKSLASH: byte := 0x5C
  const COMMA: byte := 0x2C
  const COLON: byte := 0x3A
  const MINUS: byte := 0x2D
  const OPEN_ARRAY: byte := 0x5B
  const CLOSE_ARRAY: byte := 0x5D
  const OPEN_OBJECT: byte := 0x7B
  const CLOSE_OBJECT: byte := 0x7D
  const TAB: byte := 0x09
  const NEWLINE: byte := 0x0A
  const SPACE: byte := 0x20
  const LETTER_U: byte := 0x75

  const INT_MAX: int := 0x7FFF_FFFF
  const INT_MIN: int := -0x8000_0000

  const NUMERAL_CHARS := 25

  /** 1 / DBL_EPSILON */
  const EPSILON_INVERSE: real := 4503599627370496.0

  const NULL_TEXT: seq<byte> := [0x6E, 0x75, 0x6C, 0x6C]
  const FALSE_TEXT: seq<byte> := [0x66, 0x61, 0x6C, 0x73, 0x65]
  const TRUE_TEXT: seq<byte> := [0x74, 0x72, 0x75, 0x65]

  /** A double, its finite values as real numbers. */
  datatype Double = Finite(value: real) | Infinity | MinusInfinity | NaN

  /** A number is its valuedouble; a string or raw text is without its terminating NUL. */
  datatype Json =
    | Null
    | False
    | True
    | Number(value: Double)
    | String(chars: seq<byte>)
    | Raw(text: seq<byte>)
    | Array(items: seq<Json>)
    | Object(members: seq<Member>)

  datatype Member = Member(name: seq<byte>, value: Json)

  /** valueint: valuedouble cut to an int, saturating. C leaves it open for a NaN. */
  function IntOf(value: Double): int {
    match value
    case Finite(v) =>
      if v >= INT_MAX as real then INT_MAX
      else if v <= INT_MIN as real then INT_MIN
      else if v >= 0.0 then v.Floor
      else -(-v).Floor
    case Infinity => INT_MAX
    case MinusInfinity => INT_MIN
    case NaN => 0
  }

  predicate AtLeast(value: Double, v: real) { value.Infinity? || (value.Finite? && value.value >= v) }

  predicate AtMost(value: Double, v: real) { value.MinusInfinity? || (value.Finite? && value.value <= v) }

  predicate IsInt(value: Double) {
    value == Finite(IntOf(value) as real)
  }

  /** All strings of a tree are C strings. */
  predicate Printable(j: Json) {
    match j
    case String(s) => 0 !in s
    case Raw(s) => 0 !in s
    case Array(items) => forall x :: x in items ==> Printable(x)
    case Object(members) => forall m :: m in members ==> 0 !in m.name && Printable(m.value)
    case _ => true
  }

  /** How many arrays and objects are nested in j. */
  function Height(j: Json): nat {
    match j
    case Array(items) => 1 + HeightOfItems(items)
    case Object(members) => 1 + HeightOfMembers(members)
    case _ => 0
  }

  function HeightOfItems(items: seq<Json>): nat {
    if items == [] then 0 else Max(Height(items[0]), HeightOfItems(items[1..]))
  }

  function HeightOfMembers(members: seq<Member>): nat {
    if members == [] then 0 else Max(Height(members[0].value), HeightOfMembers(members[1..]))
  }

  function Max(a: nat, b: nat): nat { if a < b then b else a }

  // ---------------------------------------------------------------- numbers

  function Digits(n: nat): (s: seq<byte>)
    ensures s != [] && forall b :: b in s ==> 0x30 <= b <= 0x39
  {
    if n < 10 then [0x30 + NibbleByte(n)] else Digits(n / 10) + [0x30 + NibbleByte(n % 10)]
  }

  /** sprintf("%d", n) */
  function Decimal(n: int): seq<byte> {
    if n < 0 then [MINUS] + Digits(-n) else Digits(n)
  }

  predicate NumberChar(c: byte) {
    0x30 <= c <= 0x39 || c == 0x2B || c == MINUS || c == 0x65 || c == 0x45 || c == 0x2E
  }

  /** What can be in number_buffer, which holds 25 characters and a NUL. */
  predicate Numeral(t: seq<byte>) {
    && 0 < |t| <= NUMERAL_CHARS && (t[0] == MINUS || 0x30 <= t[0] <= 0x39)
    && forall b :: b in t ==> NumberChar(b)
  }

  /** A format of sprintf() for finite doubles, with '.' for the decimal point of the locale. */
  type Sprintf = f: real -> seq<byte> | forall v :: Numeral(f(v)) witness (_ => [0x30])

  /** What strtod() makes of a text: nothing, or a value and how many characters it took. */
  datatype Conversion = NoNumber | Converted(value: Double, consumed: nat)

  type Strtod = seq<byte> -> Conversion

  /** What the C library does with doubles; the formats are "%1.15g" and "%1.17g". */
  datatype Library = Library(strtod: Strtod, shorter: Sprintf, longer: Sprintf)

  /** compare_double(): infinities are never further apart than they are large. */
  predicate CompareDouble(test: Double, v: real) {
    match test
    case Finite(w) => Abs(w - v) * EPSILON_INVERSE <= if Abs(w) > Abs(v) then Abs(w) else Abs(v)
    case NaN => false
    case _ => true
  }

  function Abs(v: real): (r: real)
    ensures r >= 0.0
  {
    if v < 0.0 then -v else v
  }

  /** sscanf() with "%lg" reads the number that strtod() does. */
  predicate Recovers(lib: Library, v: real) {
    var r := lib.strtod(lib.shorter(v));
    r.Converted? && CompareDouble(r.value, v)
  }

  /** The text of print_number(). */
  function NumberText(lib: Library, value: Double): seq<byte> {
    if !value.Finite? then NULL_TEXT
    else if IsInt(value) then Decimal(IntOf(value))
    else if Recovers(lib, value.value) then lib.shorter(value.value)
    else lib.longer(value.value)
  }

  lemma {:induction false} DigitsLength(n: nat, k: nat, bound: nat)
    requires k > 0 && n < bound && bound == PowerOfTen(k)
    ensures |Digits(n)| <= k
    decreases k
  {
    if n >= 10 {
      DigitsLength(n / 10, k - 1, PowerOfTen(k - 1));
    }
  }

  function PowerOfTen(k: nat): nat { if k == 0 then 1 else 10 * PowerOfTen(k - 1) }

  lemma DecimalIsNumeral(n: int)
    requires INT_MIN <= n <= INT_MAX
    ensures Numeral(Decimal(n))
  {
    var m := if n < 0 then -n else n;
    assert PowerOfTen(5) == 100000 by {
      assert PowerOfTen(2) == 100 && PowerOfTen(4) == 10000;
    }
    assert PowerOfTen(10) == 10000000000 by {
      assert PowerOfTen(7) == 10000000 && PowerOfTen(9) == 1000000000;
    }
    DigitsLength(m, 10, PowerOfTen(10));
    assert Digits(m)[0] in Digits(m);
  }

  lemma IntOfRange(v: Double)
    ensures INT_MIN <= IntOf(v) <= INT_MAX
  {
  }

  /** Saturation and truncation in numbers. */
  lemma IntOfInNumbers(v: real)
    ensures var n := IntOf(Finite(v));
      if v >= 2147483647.0 then n == 2147483647
      else if v <= -2147483648.0 then n == -2147483648
      else if v >= 0.0 then n as real <= v < n as real + 1.0
      else n as real - 1.0 < v <= n as real
    ensures IntOf(Infinity) == 2147483647 && IntOf(MinusInfinity) == -2147483648
  {
  }

  /** The tolerance of compare_double() is 2^-52 of the larger number. */
  lemma CompareInNumbers(w: real, v: real)
    ensures CompareDouble(Finite(w), v) <==>
      && (w - v) * 4503599627370496.0 <= (if Abs(w) > Abs(v) then Abs(w) else Abs(v))
      && (v - w) * 4503599627370496.0 <= (if Abs(w) > Abs(v) then Abs(w) else Abs(v))
    ensures CompareDouble(Infinity, v) && CompareDouble(MinusInfinity, v) && !CompareDouble(NaN, v)
  {
  }

  /** sprintf("%d"): the last digit stands for n modulo 10, the others for the tens. */
  lemma DigitsInNumbers(n: nat)
    ensures var s := Digits(n);
      && s[|s| - 1] as int == 48 + n % 10 && s[..|s| - 1] == if n < 10 then [] else Digits(n / 10)
  {
    LastDigit(n % 10);
  }

  lemma LastDigit(d: nat)
    requires d < 10
    ensures (0x30 + NibbleByte(d)) as int == 48 + d
  {
  }

  /** number_buffer is large enough. */
  lemma NumberFits(lib: Library, value: Double)
    ensures 0 < |NumberText(lib, value)| <= 25
    ensures if value.Finite? then Numeral(NumberText(lib, value)) else NumberText(lib, value) == NULL_TEXT
  {
    hide IntOf, Decimal, Recovers, NumberChar;
    IntOfRange(value);
    DecimalIsNumeral(IntOf(value));
  }

  // ---------------------------------------------------------------- strings

  /** The letter of a two-character escape, or 0. */
  function ShortEscape(c: byte): byte {
    match c
    case 0x22 => QUOTE
    case 0x5C => BACKSLASH
    case 0x08 => 0x62
    case 0x0C => 0x66
    case 0x0A => 0x6E
    case 0x0D => 0x72
    case 0x09 => 0x74
    case _ => 0
  }

  function HexDigit(n: byte): byte {
    if n < 10 then 0x30 + n else 0x57 + n
  }

  /** One character as print_string_ptr() writes it: as it is, \x, or u%04x. */
  function Escaped(c: byte): seq<byte> {
    if ShortEscape(c) != 0 then [BACKSLASH, ShortEscape(c)]
    else if c < 32 then [BACKSLASH, LETTER_U, 0x30, 0x30, HexDigit(c >> 4), HexDigit(c & 0xF)]
    else [c]
  }

  function EscapedAll(s: seq<byte>): seq<byte> {
    if s == [] then [] else Escaped(s[0]) + EscapedAll(s[1..])
  }

  function Quoted(s: seq<byte>): seq<byte> {
    [QUOTE] + EscapedAll(s) + [QUOTE]
  }

  // ---------------------------------------------------------------- trees

  function Tabs(n: nat): (s: seq<byte>)
    ensures |s| == n && forall i :: 0 <= i < n ==> s[i] == TAB
  {
    seq(n, _ => TAB)
  }

  /** The text of j where it starts inside depth open arrays and objects. */
  function Text(lib: Library, j: Json, format: bool, depth: nat): seq<byte>
    decreases j, 0
  {
    match j
    case Null => NULL_TEXT
    case False => FALSE_TEXT
    case True => TRUE_TEXT
    case Number(v) => NumberText(lib, v)
    case String(s) => Quoted(s)
    case Raw(s) => s
    case Array(items) => [OPEN_ARRAY] + ItemsText(lib, items, format, depth + 1) + [CLOSE_ARRAY]
    case Object(members) =>
      [OPEN_OBJECT] + (if format then [NEWLINE] else []) + MembersText(lib, members, format, depth + 1)
      + (if format then Tabs(depth) else []) + [CLOSE_OBJECT]
  }

  function ItemsText(lib: Library, items: seq<Json>, format: bool, depth: nat): seq<byte>
    decreases items, 1
  {
    if items == [] then []
    else if |items| == 1 then Text(lib, items[0], format, depth)
    else Text(lib, items[0], format, depth) + ItemSeparator(format) + ItemsText(lib, items[1..], format, depth)
  }

  function ItemSeparator(format: bool): seq<byte> {
    if format then [COMMA, SPACE] else [COMMA]
  }

  function MembersText(lib: Library, members: seq<Member>, format: bool, depth: nat): seq<byte>
    decreases members, 1
  {
    if members == [] then []
    else
      MemberText(lib, members[0], format, depth) + MemberEnd(format, |members| == 1)
      + MembersText(lib, members[1..], format, depth)
  }

  function MemberText(lib: Library, m: Member, format: bool, depth: nat): seq<byte>
    decreases m, 1
  {
    (if format then Tabs(depth) else []) + Quoted(m.name) + MemberColon(format) + Text(lib, m.value, format, depth)
  }

  function MemberColon(format: bool): seq<byte> {
    if format then [COLON, TAB] else [COLON]
  }

  function MemberEnd(format: bool, last: bool): seq<byte> {
    (if last then [] else [COMMA]) + (if format then [NEWLINE] else [])
  }
}
