/** What the printer writes is JSON, and parsing it gives the tree back. */
module JsonRoundTrip {
  import opened Wrappers
  import opened Bytes
  import opened JsonText
  import opened JsonParse
  import opened JsonGrammar

  // ---------------------------------------------------------------- what comes back

  /** Printed ints are converted exactly and completely. */
  ghost predicate ExactOnInts(strtod: Strtod) {
    forall n :: INT_MIN <= n <= INT_MAX ==> strtod(Decimal(n)) == Converted(Finite(n as real), |Decimal(n)|)
  }

  /** All that is assumed of the C library: strtod() reads printed ints exactly, and printed doubles to their end. */
  ghost predicate Reads(lib: Library) {
    && ExactOnInts(lib.strtod)
    && (forall v :: Whole(lib.strtod, lib.shorter(v)))
    && (forall v :: Whole(lib.strtod, lib.longer(v)))
  }

  predicate Whole(strtod: Strtod, t: seq<byte>) {
    strtod(t).Converted? && strtod(t).consumed == |t|
  }

  /** What reading a printed number gives. */
  function NumberBack(lib: Library, d: Double): Json {
    if !d.Finite? then Null else
      var r := lib.strtod(NumberText(lib, d));
      Number(if r.Converted? then r.value else NaN)
  }

  lemma NumberIsWhole(lib: Library, d: Double)
    requires Reads(lib) && d.Finite?
    ensures Whole(lib.strtod, NumberText(lib, d)) && (IsInt(d) ==> NumberBack(lib, d) == Number(d))
  {
    hide IntOf, Decimal, Recovers;
    IntOfRange(d);
  }

  /** Trees whose text is JSON: strings are C strings, and no text is printed as it is. */
  predicate Readable(j: Json) {
    match j
    case String(s) => 0 !in s
    case Raw(_) => false
    case Array(items) => forall x :: x in items ==> Readable(x)
    case Object(members) => forall m :: m in members ==> 0 !in m.name && Readable(m.value)
    case _ => true
  }

  /** What reading a printed tree gives. */
  function Back(lib: Library, j: Json): Json
    decreases j, 0
  {
    match j
    case Number(d) => NumberBack(lib, d)
    case Array(items) => Array(BackAll(lib, items))
    case Object(members) => Object(MembersBack(lib, members))
    case _ => j
  }

  function BackAll(lib: Library, items: seq<Json>): (r: seq<Json>)
    ensures |r| == |items|
    decreases items, 1
  {
    if items == [] then [] else [Back(lib, items[0])] + BackAll(lib, items[1..])
  }

  function MembersBack(lib: Library, members: seq<Member>): (r: seq<Member>)
    ensures |r| == |members|
    decreases members, 1
  {
    if members == [] then []
    else [Member(members[0].name, Back(lib, members[0].value))] + MembersBack(lib, members[1..])
  }

  // ---------------------------------------------------------------- printed strings

  /** The characters that print_string_ptr() writes for a string. */
  function CharsOf(s: seq<byte>): (cs: seq<Char>)
    ensures |cs| == |s|
  {
    if s == [] then [] else [CharOf(s[0])] + CharsOf(s[1..])
  }

  function CharOf(c: byte): Char {
    if ShortEscape(c) != 0 then Short(ShortEscape(c))
    else if c < 0x20 then Unicode([0x30, 0x30, HexDigit(c >> 4), HexDigit(c & 0xF)])
    else Plain(c)
  }

  lemma CharIsEscaped(c: byte)
    ensures SpellChar(CharOf(c)) == Escaped(c) && CharOk(CharOf(c), true)
    ensures match CharOf(c)
            case Plain(b) => b == c
            case Short(l) => ShortMeaning(l) == c
            case Unicode(d) => CodeOf(d) == c as bv32 && c < 0x20
  {
    if ShortEscape(c) == 0 && c < 0x20 {
      ControlDigits(c);
      hide HexDigit, DigitOf;
    }
  }

  lemma ControlDigits(c: byte)
    requires c < 0x20
    ensures var d := [0x30, 0x30, HexDigit(c >> 4), HexDigit(c & 0xF)];
      CharOk(Unicode(d), true) && CodeOf(d) == c as bv32
  {
    assert DigitOf(HexDigit(c >> 4)) == (c >> 4) as bv32 && DigitOf(HexDigit(c & 0xF)) == (c & 0xF) as bv32;
    assert IsHexDigit(HexDigit(c >> 4)) && IsHexDigit(HexDigit(c & 0xF));
    hide HexDigit;
    assert DigitOf(0x30) == 0;
    assert 0x10 * ((c >> 4) as bv32) + (c & 0xF) as bv32 == c as bv32;
  }

  /** They are in the grammar, and stand for the string. */
  lemma {:induction false} CharsAreEscaped(s: seq<byte>)
    ensures SpellChars(CharsOf(s)) == EscapedAll(s) && CharsOk(CharsOf(s), true) && CharsOk(CharsOf(s), false)
    ensures Denoted(CharsOf(s)) == Some(s)
  {
    if s != [] {
      CharsAreEscaped(s[1..]);
      CharIsEscaped(s[0]);
      hide CharOf, Escaped, ShortMeaning;
      var cs := CharsOf(s);
      assert cs[0] == CharOf(s[0]) && cs[1..] == CharsOf(s[1..]);
      assert CharsOk(cs, true) by {
        forall i | 0 <= i < |cs| ensures CharOk(cs[i], true) {
          assert i > 0 ==> cs[i] == cs[1..][i - 1];
        }
      }
      assert CharsOk(cs, false) by { AllLoose(cs); }
      assert [s[0]] + s[1..] == s;
      assert s[0] < 0x20 ==> Utf8.OctetsOf(s[0] as bv32) == [s[0]];
    }
  }

  lemma AllLoose(cs: seq<Char>)
    requires CharsOk(cs, true)
    ensures CharsOk(cs, false)
  {
    forall i | 0 <= i < |cs| ensures CharOk(cs[i], false) {
      assert CharOk(cs[i], true);
    }
  }

  lemma {:induction false} CTextOfText(s: seq<byte>)
    requires 0 !in s
    ensures CText(s) == s
  {
    if s != [] {
      CTextOfText(s[1..]);
    }
  }

  /** A printed C string is read back as itself, whatever text follows. */
  lemma ParseQuoted(s: seq<byte>, rest: seq<byte>)
    requires 0 !in s
    ensures ParseString(Quoted(s) + rest) == Read(s, rest)
  {
    hide EscapedAll, SpellChars, CText, Denoted, CharsOk;
    CharsAreEscaped(s);
    CTextOfText(s);
    StringTaken(CharsOf(s), rest);
  }

  // ---------------------------------------------------------------- printed trees

  function NewLine(format: bool): seq<byte> { if format then [0x0A] else [] }

  function Indent(format: bool, n: nat): seq<byte> { if format then Tabs(n) else [] }

  /** How a tree is written. */
  function NodeOf(lib: Library, j: Json, format: bool, depth: nat): Node
    requires Readable(j)
    decreases j, 0
  {
    match j
    case Null => NullName
    case False => FalseName
    case True => TrueName
    case Number(d) => if d.Finite? then Numeral(NumberText(lib, d)) else NullName
    case String(s) => Quotation(CharsOf(s))
    case Array(items) =>
      if items == [] then EmptyArray([]) else Elements(ElementsOf(lib, items, format, depth + 1, []))
    case Object(members) =>
      if members == [] then EmptyObject(NewLine(format) + Indent(format, depth))
      else Pairs(PairsOf(lib, members, format, depth + 1, Indent(format, depth)))
  }

  function ElementsOf(lib: Library, items: seq<Json>, format: bool, depth: nat, before: seq<byte>): (r: seq<Element>)
    requires forall x :: x in items ==> Readable(x)
    ensures |r| == |items|
    decreases items, 1
  {
    if items == [] then []
    else
      [Element(before, NodeOf(lib, items[0], format, depth), [])]
      + ElementsOf(lib, items[1..], format, depth, if format then [0x20] else [])
  }

  /** The line behind the last member ends with the indent of the closing brace. */
  function PairsOf(lib: Library, members: seq<Member>, format: bool, depth: nat, indent: seq<byte>): (r: seq<Pair>)
    requires forall m :: m in members ==> 0 !in m.name && Readable(m.value)
    ensures |r| == |members|
    decreases members, 1
  {
    if members == [] then []
    else
      [Pair(NewLine(format) + Indent(format, depth), CharsOf(members[0].name), [], if format then [0x09] else [],
            NodeOf(lib, members[0].value, format, depth), if |members| == 1 then NewLine(format) + indent else [])]
      + PairsOf(lib, members[1..], format, depth, indent)
  }

  /** The text that is printed is that. */
  lemma {:induction false} NodeSpells(lib: Library, j: Json, format: bool, depth: nat)
    requires Readable(j)
    ensures Spell(NodeOf(lib, j, format, depth)) == Text(lib, j, format, depth)
    decreases j, 0
  {
    hide NumberText, SpellChars, EscapedAll, Tabs;
    match j
    case Number(d) =>
      if !d.Finite? {
        InfiniteIsNull(lib, d);
      }
    case String(s) => CharsAreEscaped(s);
    case Array(items) => ArraySpells(lib, items, format, depth);
    case Object(members) => ObjectSpells(lib, members, format, depth);
    case _ =>
  }

  lemma ArraySpells(lib: Library, items: seq<Json>, format: bool, depth: nat)
    requires Readable(Array(items))
    ensures Spell(NodeOf(lib, Array(items), format, depth)) == Text(lib, Array(items), format, depth)
    decreases items, 2
  {
    hide SpellElements, ElementsOf, ItemsText, SpellChars, EscapedAll, NumberText, Readable, SpellPairs, PairsOf;
    if items == [] {
      NoItemsText(lib, format, depth + 1);
      assert [0x5B] + [] + [0x5D] == [0x5B as byte, 0x5D];
    } else {
      assert forall x :: x in items ==> Readable(x) by { ArrayReadable(items); }
      ElementsSpell(lib, items, format, depth + 1, []);
      assert [] + ItemsText(lib, items, format, depth + 1) == ItemsText(lib, items, format, depth + 1);
    }
  }

  lemma ArrayReadable(items: seq<Json>)
    requires Readable(Array(items))
    ensures forall x :: x in items ==> Readable(x)
  {
  }

  lemma ObjectReadable(members: seq<Member>)
    requires Readable(Object(members))
    ensures forall m :: m in members ==> 0 !in m.name && Readable(m.value)
  {
  }

  lemma NoItemsText(lib: Library, format: bool, depth: nat)
    ensures ItemsText(lib, [], format, depth) == []
  {
  }

  lemma ObjectSpells(lib: Library, members: seq<Member>, format: bool, depth: nat)
    requires Readable(Object(members))
    ensures Spell(NodeOf(lib, Object(members), format, depth)) == Text(lib, Object(members), format, depth)
    decreases members, 2
  {
    hide SpellPairs, PairsOf, SpellChars, EscapedAll, NumberText, Tabs, MembersText, Readable, SpellElements,
      ElementsOf;
    var line, indent := NewLine(format), Indent(format, depth);
    if members == [] {
      MembersCons(lib, [Member([], Null)], format, depth + 1);
      ObjectPieces(line, [], indent);
    } else {
      ObjectReadable(members);
      PairsSpell(lib, members, format, depth + 1, indent);
      ObjectPieces(line, MembersText(lib, members, format, depth + 1), indent);
    }
  }

  lemma InfiniteIsNull(lib: Library, d: Double)
    requires !d.Finite?
    ensures NumberText(lib, d) == [0x6E, 0x75, 0x6C, 0x6C] && NumberBack(lib, d) == Null
  {
  }

  lemma ObjectPieces(line: seq<byte>, inner: seq<byte>, indent: seq<byte>)
    ensures [0x7B] + (line + inner + indent) + [0x7D] == [0x7B] + line + inner + indent + [0x7D]
    ensures line + [] + indent == line + indent
  {
  }

  lemma {:induction false} ElementsSpell(lib: Library, items: seq<Json>, format: bool, depth: nat, before: seq<byte>)
    requires items != [] && forall x :: x in items ==> Readable(x)
    ensures SpellElements(ElementsOf(lib, items, format, depth, before))
      == before + ItemsText(lib, items, format, depth)
    decreases items, 1
  {
    hide Text, Spell, NodeOf;
    NodeSpells(lib, items[0], format, depth);
    var text, space: seq<byte> := Text(lib, items[0], format, depth), if format then [0x20] else [];
    var es := ElementsOf(lib, items, format, depth, before);
    assert es[0] == Element(before, NodeOf(lib, items[0], format, depth), []);
    assert text + [] == text;
    assert SpellElement(es[0]) == before + text;
    if |items| > 1 {
      assert es[1..] == ElementsOf(lib, items[1..], format, depth, space);
      ElementsSpell(lib, items[1..], format, depth, space);
      var more := ItemsText(lib, items[1..], format, depth);
      assert [0x2C] + (space + more) == ItemSeparator(format) + more;
      assert before + text + (ItemSeparator(format) + more) == before + (text + ItemSeparator(format) + more);
    }
  }

  lemma {:induction false} PairsSpell(lib: Library, members: seq<Member>, format: bool, depth: nat, indent: seq<byte>)
    requires members != [] && forall m :: m in members ==> 0 !in m.name && Readable(m.value)
    ensures SpellPairs(PairsOf(lib, members, format, depth, indent))
      == NewLine(format) + MembersText(lib, members, format, depth) + indent
    decreases members, 1
  {
    hide Text, Spell, NodeOf, Tabs, SpellChars, EscapedAll, NewLine;
    var m, line := members[0], NewLine(format);
    NodeSpells(lib, m.value, format, depth);
    var ps := PairsOf(lib, members, format, depth, indent);
    PairSpells(lib, m, format, depth, ps[0]);
    hide MemberText;
    var text := MemberText(lib, m, format, depth);
    if |members| == 1 {
      MembersCons(lib, members, format, depth);
      LastPieces(line, text, indent);
    } else {
      assert ps[1..] == PairsOf(lib, members[1..], format, depth, indent);
      PairsSpell(lib, members[1..], format, depth, indent);
      MembersCons(lib, members, format, depth);
      NextPieces(line, text, MembersText(lib, members[1..], format, depth), indent);
    }
  }

  lemma MembersCons(lib: Library, members: seq<Member>, format: bool, depth: nat)
    requires members != []
    ensures MembersText(lib, members, format, depth) ==
      MemberText(lib, members[0], format, depth)
      + (if |members| == 1 then NewLine(format) else [0x2C] + NewLine(format))
      + MembersText(lib, members[1..], format, depth)
    ensures MembersText(lib, [], format, depth) == []
  {
    hide MemberText;
    assert [] + NewLine(format) == NewLine(format);
  }

  /** A member as it is printed, with the line break in front of it. */
  lemma PairSpells(lib: Library, m: Member, format: bool, depth: nat, p: Pair)
    requires Spell(p.value) == Text(lib, m.value, format, depth) && p.name == CharsOf(m.name) && p.afterName == []
    requires p.before == NewLine(format) + Indent(format, depth) && p.afterColon == if format then [0x09] else []
    ensures SpellPair(p) == NewLine(format) + MemberText(lib, m, format, depth) + p.after
  {
    hide Text, Spell, Tabs, SpellChars, EscapedAll, NewLine;
    CharsAreEscaped(m.name);
    var line, tabs, name, value := NewLine(format), Indent(format, depth), Quoted(m.name), Spell(p.value);
    assert [0x3A] + p.afterColon == MemberColon(format);
    MemberPieces(line, tabs, name, p.afterColon, value, p.after);
  }

  lemma MemberPieces(line: seq<byte>, tabs: seq<byte>, name: seq<byte>, gap: seq<byte>, value: seq<byte>,
                     after: seq<byte>)
    ensures (line + tabs) + (name + ([] + ([0x3A] + (gap + (value + after)))))
      == line + (tabs + name + ([0x3A] + gap) + value) + after
  {
    assert [] + ([0x3A] + (gap + (value + after))) == [0x3A] + gap + value + after;
  }

  lemma LastPieces(line: seq<byte>, text: seq<byte>, indent: seq<byte>)
    ensures line + text + (line + indent) == line + (text + line + []) + indent
  {
  }

  lemma NextPieces(line: seq<byte>, text: seq<byte>, more: seq<byte>, indent: seq<byte>)
    ensures line + text + [] + ([0x2C] + (line + more + indent)) == line + (text + ([0x2C] + line) + more) + indent
  {
  }

  // ---------------------------------------------------------------- printed texts are JSON

  /** What sprintf() writes for doubles is a number of JSON: so says section 7.19.6.1 of ISO C99. */
  ghost predicate JsonNumerals(lib: Library) {
    && (forall v :: IsNumber(lib.shorter(v)))
    && (forall v :: IsNumber(lib.longer(v)))
  }

  /** A printed tree is in the grammar, and stands for what comes back. */
  lemma {:induction false} NodeWritten(lib: Library, j: Json, format: bool, depth: nat, strict: bool)
    requires Reads(lib) && Readable(j) && (strict ==> JsonNumerals(lib))
    ensures Written(lib.strtod, strict, NodeOf(lib, j, format, depth))
    ensures Written(lib.strtod, false, NodeOf(lib, j, format, depth))
    ensures Meaning(lib.strtod, NodeOf(lib, j, format, depth)) == Some(Back(lib, j))
    decreases j, 0
  {
    hide NumberText, NumberLike, CharsOk, Denoted, Reads, JsonNumerals, ElementWritten, PairWritten, NumberBack,
      CText, IsNumber;
    match j
    case Number(d) =>
      if d.Finite? {
        NumeralWritten(lib, d, strict);
      } else {
        InfiniteIsNull(lib, d);
      }
    case String(s) =>
      CharsAreEscaped(s);
      CTextOfText(s);
    case Array(items) => ArrayWritten(lib, items, format, depth, strict);
    case Object(members) => ObjectWritten(lib, members, format, depth, strict);
    case _ =>
  }

  lemma ArrayWritten(lib: Library, items: seq<Json>, format: bool, depth: nat, strict: bool)
    requires Reads(lib) && Readable(Array(items)) && (strict ==> JsonNumerals(lib))
    ensures var n := NodeOf(lib, Array(items), format, depth);
      && Written(lib.strtod, strict, n) && Written(lib.strtod, false, n)
      && Meaning(lib.strtod, n) == Some(Back(lib, Array(items)))
    decreases items, 2
  {
    hide ElementsOf, Reads, JsonNumerals, Readable, NumberText, NumberBack, IsNumber, NumberLike, ElementWritten,
      PairsOf, PairWritten, BackAll, MeaningOfAll;
    if items == [] {
      OtherSpace();
      NothingBack(lib);
    } else {
      ArrayReadable(items);
      ElementsWritten(lib, items, format, depth + 1, [], strict);
    }
  }

  lemma NothingBack(lib: Library)
    ensures BackAll(lib, []) == [] && MembersBack(lib, []) == []
  {
  }

  lemma ObjectWritten(lib: Library, members: seq<Member>, format: bool, depth: nat, strict: bool)
    requires Reads(lib) && Readable(Object(members)) && (strict ==> JsonNumerals(lib))
    ensures var n := NodeOf(lib, Object(members), format, depth);
      && Written(lib.strtod, strict, n) && Written(lib.strtod, false, n)
      && Meaning(lib.strtod, n) == Some(Back(lib, Object(members)))
    decreases members, 2
  {
    hide ElementsOf, Reads, JsonNumerals, Readable, NumberText, NumberBack, IsNumber, NumberLike, ElementWritten,
      PairsOf, PairWritten, MembersBack, MeaningOfPairs, Space, Indent, NewLine;
    EmptySpace(format, depth);
    if members == [] {
      NothingBack(lib);
    } else {
      ObjectReadable(members);
      PairsWritten(lib, members, format, depth + 1, Indent(format, depth), strict);
    }
  }

  lemma EmptySpace(format: bool, depth: nat)
    ensures var w := NewLine(format) + Indent(format, depth); Space(w, true) && Space(w, false)
  {
  }

  lemma OtherSpace()
    ensures Space([], true) && Space([], false) && Space([0x09], true) && Space([0x09], false)
  {
  }

  lemma NumeralWritten(lib: Library, d: Double, strict: bool)
    requires Reads(lib) && d.Finite? && (strict ==> JsonNumerals(lib))
    ensures var t := NumberText(lib, d);
      && Written(lib.strtod, strict, Numeral(t)) && Written(lib.strtod, false, Numeral(t))
      && Number(lib.strtod(t).value) == NumberBack(lib, d)
  {
    NumberIsWhole(lib, d);
    NumberFits(lib, d);
    NumeralIsLike(NumberText(lib, d));
    if strict {
      IntOfRange(d);
      DecimalIsNumber(IntOf(d));
    }
    hide Reads, IntOf, Decimal, Recovers, IsNumber;
  }

  lemma NumeralIsLike(t: seq<byte>)
    requires JsonText.Numeral(t)
    ensures NumberLike(t)
  {
    forall i | 0 <= i < |t| ensures InNumber(t[i]) {
      assert t[i] in t;
    }
  }

  lemma {:induction false} DigitsAreInt(n: nat)
    ensures IntPart(Digits(n)) && (n > 0 ==> Digits(n)[0] != 0x30)
  {
    if n >= 10 {
      DigitsAreInt(n / 10);
    }
    assert forall i :: 0 <= i < |Digits(n)| ==> Digits(n)[i] in Digits(n);
  }

  /** Ints are printed as numbers of JSON. */
  lemma DecimalIsNumber(n: int)
    ensures IsNumber(Decimal(n))
  {
    var m: nat, sign: seq<byte> := if n < 0 then -n else n, if n < 0 then [0x2D] else [];
    DigitsAreInt(m);
    hide Digits;
    assert Digits(m) + ([] + []) == Digits(m) && [] + Digits(m) == Digits(m);
    assert NumberParts(Decimal(n), sign, Digits(m), [], []);
  }

  lemma {:induction false} ElementsWritten(lib: Library, items: seq<Json>, format: bool, depth: nat, before: seq<byte>,
                                           strict: bool)
    requires Reads(lib) && (forall x :: x in items ==> Readable(x)) && (strict ==> JsonNumerals(lib))
    requires before in {[], [0x20]}
    ensures var es := ElementsOf(lib, items, format, depth, before);
      && (forall e :: e in es ==> ElementWritten(lib.strtod, strict, e) && ElementWritten(lib.strtod, false, e))
      && MeaningOfAll(lib.strtod, es) == Some(BackAll(lib, items))
    decreases items, 1
  {
    hide NodeOf, Written, Reads, JsonNumerals, Readable, Meaning, Back;
    if items != [] {
      var space: seq<byte> := if format then [0x20] else [];
      var es := ElementsOf(lib, items, format, depth, before);
      NodeWritten(lib, items[0], format, depth, strict);
      ElementsWritten(lib, items[1..], format, depth, space, strict);
      assert es == [es[0]] + ElementsOf(lib, items[1..], format, depth, space);
    }
  }

  lemma {:induction false} PairsWritten(lib: Library, members: seq<Member>, format: bool, depth: nat,
                                        indent: seq<byte>, strict: bool)
    requires Reads(lib) && (forall m :: m in members ==> 0 !in m.name && Readable(m.value))
    requires (strict ==> JsonNumerals(lib)) && Space(NewLine(format) + indent, true)
      && Space(NewLine(format) + indent, false)
    ensures var ps := PairsOf(lib, members, format, depth, indent);
      && (forall p :: p in ps ==> PairWritten(lib.strtod, strict, p) && PairWritten(lib.strtod, false, p))
      && MeaningOfPairs(lib.strtod, ps) == Some(MembersBack(lib, members))
    decreases members, 1
  {
    hide NodeOf, Written, Reads, JsonNumerals, Readable, Meaning, Back, CharsOk, Denoted, CText;
    if members != [] {
      var m := members[0];
      var ps := PairsOf(lib, members, format, depth, indent);
      NodeWritten(lib, m.value, format, depth, strict);
      CharsAreEscaped(m.name);
      CTextOfText(m.name);
      EmptySpace(format, depth);
      OtherSpace();
      hide Space;
      PairsWritten(lib, members[1..], format, depth, indent, strict);
      assert ps == [ps[0]] + PairsOf(lib, members[1..], format, depth, indent);
    }
  }

  /** Every printed tree is a text of RFC 8259, strictly, if sprintf() writes numbers of it. */
  lemma PrintedIsJson(lib: Library, j: Json, format: bool, depth: nat)
    requires Reads(lib) && JsonNumerals(lib) && Readable(j)
    ensures exists n :: Written(lib.strtod, true, n) && Spell(n) == Text(lib, j, format, depth)
  {
    NodeWritten(lib, j, format, depth, true);
    NodeSpells(lib, j, format, depth);
  }

  // ---------------------------------------------------------------- reading what was printed

  /** Reading a printed value in the middle of a text takes exactly its text, if it is not nested too deep. */
  lemma ValueRoundTrip(lib: Library, j: Json, format: bool, indent: nat, depth: nat, rest: seq<byte>)
    requires Reads(lib) && Readable(j) && depth <= 1000 && Stops(rest)
    ensures ParseValue(lib.strtod, Text(lib, j, format, indent) + rest, depth)
      == if depth + Height(j) <= 1000 then Read(Back(lib, j), rest) else Failed
  {
    hide ParseValue, Text, Reads, Readable, NodeOf, Spell, Back, Height, Written, Meaning;
    NodeWritten(lib, j, format, indent, false);
    NodeSpells(lib, j, format, indent);
    ValueTaken(lib.strtod, NodeOf(lib, j, format, indent), rest, depth);
    BackReadable(lib, j);
  }

  /**
    * cJSON_Parse() and its strict variant read back whatever cJSON_Print() and cJSON_PrintUnformatted() print, up to
    * the NUL, exactly for the trees that are nested no deeper than the limit; the printed text of any other tree is
    * rejected. Ints come back as they were.
    */
  lemma TreeRoundTrip(lib: Library, j: Json, format: bool, wholeText: bool)
    requires Reads(lib) && Readable(j)
    ensures Parse(lib.strtod, Text(lib, j, format, 0) + [0], wholeText) ==
      if Height(j) <= 1000 then Some(Back(lib, j)) else None
    ensures Height(j) <= 1000 ==> ParseRest(lib.strtod, Text(lib, j, format, 0) + [0], wholeText) == [0]
    ensures OnlyInts(Numbers(j)) ==> Back(lib, j) == j
  {
    hide *;
    TextOfTree(lib, j, format);
    ParseFromValue(lib.strtod, Text(lib, j, format, 0) + [0], wholeText);
    if OnlyInts(Numbers(j)) {
      ReadsInts(lib);
      IntsBack(lib, j);
    }
  }

  lemma ReadsInts(lib: Library)
    requires Reads(lib)
    ensures ExactOnInts(lib.strtod)
  {
  }

  /** A value behind which only the NUL is left is the result. */
  lemma ParseFromValue(strtod: Strtod, s: seq<byte>, wholeText: bool)
    requires var r := ParseValue(strtod, SkipSpace(SkipBom(s)), 0); r.Read? ==> r.rest == [0]
    ensures match ParseValue(strtod, SkipSpace(SkipBom(s)), 0)
            case Failed => Parse(strtod, s, wholeText) == None
            case Read(v, _) => Parse(strtod, s, wholeText) == Some(v) && ParseRest(strtod, s, wholeText) == [0]
  {
    OnlyNul([]);
    assert [] + [0 as byte] == [0];
    hide ParseValue, SkipSpace, SkipBom;
  }

  lemma TextOfTree(lib: Library, j: Json, format: bool)
    requires Reads(lib) && Readable(j)
    ensures ParseValue(lib.strtod, SkipSpace(SkipBom(Text(lib, j, format, 0) + [0])), 0) ==
      if Height(j) <= 1000 then Read(Back(lib, j), [0]) else Failed
  {
    hide ParseValue, Text, Reads, Readable, NodeOf, Spell, Back, Height, SkipSpace, Written, Meaning;
    var s, n := Text(lib, j, format, 0) + [0], NodeOf(lib, j, format, 0);
    NodeWritten(lib, j, format, 0, false);
    NodeSpells(lib, j, format, 0);
    SpellStart(lib.strtod, n);
    assert s[0] == Spell(n)[0];
    BomSkipped(false, [], s);
    assert [] + ([] + s) == s && [] + s == s;
    SkipNothing(s);
    ValueRoundTrip(lib, j, format, 0, 0, [0]);
  }

  /** The tree that comes back is as high as the one printed. */
  lemma {:induction false} BackReadable(lib: Library, j: Json)
    requires Readable(j)
    ensures Readable(Back(lib, j)) && Height(Back(lib, j)) == Height(j)
    decreases j, 0
  {
    hide NumberText;
    match j
    case Array(items) => AllBackReadable(lib, items);
    case Object(members) => MembersBackReadable(lib, members);
    case _ =>
  }

  lemma {:induction false} AllBackReadable(lib: Library, items: seq<Json>)
    requires forall x :: x in items ==> Readable(x)
    ensures (forall x :: x in BackAll(lib, items) ==> Readable(x))
      && HeightOfItems(BackAll(lib, items)) == HeightOfItems(items)
    decreases items, 1
  {
    hide Readable, Back, Height;
    if items != [] {
      BackReadable(lib, items[0]);
      AllBackReadable(lib, items[1..]);
      BackCons(lib, items);
    }
  }

  lemma {:induction false} MembersBackReadable(lib: Library, members: seq<Member>)
    requires forall m :: m in members ==> 0 !in m.name && Readable(m.value)
    ensures (forall m :: m in MembersBack(lib, members) ==> 0 !in m.name && Readable(m.value))
      && HeightOfMembers(MembersBack(lib, members)) == HeightOfMembers(members)
    decreases members, 1
  {
    hide Readable, Back, Height;
    if members != [] {
      BackReadable(lib, members[0].value);
      MembersBackReadable(lib, members[1..]);
      MembersBackCons(lib, members);
    }
  }

  lemma BackCons(lib: Library, items: seq<Json>)
    requires items != []
    ensures BackAll(lib, items)[0] == Back(lib, items[0]) && BackAll(lib, items)[1..] == BackAll(lib, items[1..])
  {
  }

  lemma MembersBackCons(lib: Library, members: seq<Member>)
    requires members != []
    ensures MembersBack(lib, members)[0] == Member(members[0].name, Back(lib, members[0].value))
    ensures MembersBack(lib, members)[1..] == MembersBack(lib, members[1..])
  {
  }

  // ---------------------------------------------------------------- a strtod() for ints

  /** The leading digits of s. */
  function LeadingDigits(s: seq<byte>): (t: seq<byte>)
    ensures t <= s
  {
    if s == [] || !(0x30 <= s[0] <= 0x39) then [] else [s[0]] + LeadingDigits(s[1..])
  }

  function DigitsValue(s: seq<byte>): nat {
    if s == [] then 0 else 10 * DigitsValue(s[..|s| - 1]) + NibbleNum(s[|s| - 1] - 0x30)
  }

  /** Reads an optional minus and digits, as strtod() does with an int. */
  function ReadDecimal(s: seq<byte>): Conversion {
    var negative := s != [] && s[0] == MINUS;
    var digits := LeadingDigits(if negative then s[1..] else s);
    if digits == [] then NoNumber
    else if negative then Converted(Finite((0 - DigitsValue(digits)) as real), 1 + |digits|)
    else Converted(Finite(DigitsValue(digits) as real), |digits|)
  }

  lemma {:induction false} DigitsAreLeading(s: seq<byte>)
    requires forall i :: 0 <= i < |s| ==> 0x30 <= s[i] <= 0x39
    ensures LeadingDigits(s) == s
  {
    if s != [] {
      DigitsAreLeading(s[1..]);
    }
  }

  lemma {:induction false} ValueOfDigits(n: nat)
    ensures DigitsValue(Digits(n)) == n
  {
    DigitOctet(n % 10);
    hide NibbleByte, NibbleNum;
    if n < 10 {
      assert Digits(n)[..0] == [];
    } else {
      ValueOfDigits(n / 10);
      assert Digits(n)[..|Digits(n)| - 1] == Digits(n / 10);
    }
  }

  lemma DigitOctet(d: nat)
    requires d < 10
    ensures NibbleNum((0x30 + NibbleByte(d)) - 0x30) == d
  {
    assert (0x30 + NibbleByte(d)) - 0x30 == NibbleByte(d);
    NibbleRoundTrip(d);
  }

  /** What the round trip assumes of strtod() can be met. */
  lemma ReadDecimalIsExact()
    ensures ExactOnInts(ReadDecimal)
  {
    forall n | INT_MIN <= n <= INT_MAX
      ensures ReadDecimal(Decimal(n)) == Converted(Finite(n as real), |Decimal(n)|)
    {
      ReadsBack(n);
    }
  }

  lemma ReadsBack(n: int)
    ensures ReadDecimal(Decimal(n)) == Converted(Finite(n as real), |Decimal(n)|)
  {
    hide Digits, DigitsValue, LeadingDigits;
    var m: nat := if n < 0 then -n else n;
    ValueOfDigits(m);
    assert forall i :: 0 <= i < |Digits(m)| ==> Digits(m)[i] in Digits(m);
    DigitsAreLeading(Digits(m));
    assert n < 0 ==> Decimal(n)[1..] == Digits(m);
  }

  // ---------------------------------------------------------------- trees of ints

  /** The numbers in a tree. */
  function Numbers(j: Json): set<Double>
    decreases j, 0
  {
    match j
    case Number(d) => {d}
    case Array(items) => NumbersOfAll(items)
    case Object(members) => NumbersOfMembers(members)
    case _ => {}
  }

  function NumbersOfAll(items: seq<Json>): set<Double>
    decreases items, 1
  {
    if items == [] then {} else Numbers(items[0]) + NumbersOfAll(items[1..])
  }

  function NumbersOfMembers(members: seq<Member>): set<Double>
    decreases members, 1
  {
    if members == [] then {} else Numbers(members[0].value) + NumbersOfMembers(members[1..])
  }

  predicate OnlyInts(numbers: set<Double>) {
    forall d :: d in numbers ==> IsInt(d)
  }

  /** Ints come back as they were. */
  lemma {:induction false} IntsBack(lib: Library, j: Json)
    requires ExactOnInts(lib.strtod) && OnlyInts(Numbers(j))
    ensures Back(lib, j) == j
    decreases j, 0
  {
    hide NumberText, IntOf;
    match j
    case Number(d) => IntBack(lib, d);
    case Array(items) => AllIntsBack(lib, items);
    case Object(members) => IntMembersBack(lib, members);
    case _ =>
  }

  lemma {:induction false} AllIntsBack(lib: Library, items: seq<Json>)
    requires ExactOnInts(lib.strtod) && OnlyInts(NumbersOfAll(items))
    ensures BackAll(lib, items) == items
    decreases items, 1
  {
    hide IsInt, Back;
    if items != [] {
      IntsBack(lib, items[0]);
      AllIntsBack(lib, items[1..]);
    }
  }

  lemma {:induction false} IntMembersBack(lib: Library, members: seq<Member>)
    requires ExactOnInts(lib.strtod) && OnlyInts(NumbersOfMembers(members))
    ensures MembersBack(lib, members) == members
    decreases members, 1
  {
    hide IsInt, Back;
    if members != [] {
      IntsBack(lib, members[0].value);
      IntMembersBack(lib, members[1..]);
    }
  }

  lemma IntBack(lib: Library, d: Double)
    requires ExactOnInts(lib.strtod) && IsInt(d)
    ensures NumberBack(lib, d) == Number(d)
  {
    hide IntOf, Decimal;
    IntOfRange(d);
  }

  /** A library for ints: its formats are those of no other number. */
  function IntLibrary(): Library {
    Library(ReadDecimal, _ => [0x30], _ => [0x30])
  }

  lemma IntLibraryReads()
    ensures Reads(IntLibrary()) && ExactOnInts(ReadDecimal)
  {
    hide ExactOnInts;
    ReadDecimalIsExact();
    assert LeadingDigits([0x30]) == [0x30] by {
      DigitsAreLeading([0x30]);
    }
    assert Whole(ReadDecimal, [0x30]);
  }

  /** The round trip of trees of ints, with that reader and nothing assumed. */
  lemma IntTreeRoundTrip(lib: Library, j: Json, format: bool, wholeText: bool)
    requires Readable(j) && OnlyInts(Numbers(j))
    ensures Parse(ReadDecimal, Text(lib, j, format, 0) + [0], wholeText) ==
      if Height(j) <= 1000 then Some(j) else None
  {
    hide Parse, Text, ReadDecimal, Readable, Height, OnlyInts, ExactOnInts, Reads;
    IntLibraryReads();
    IntText(lib, IntLibrary(), j, format, 0);
    TreeRoundTrip(IntLibrary(), j, format, wholeText);
  }

  /** Ints are printed without the C library. */
  lemma {:induction false} IntText(lib: Library, other: Library, j: Json, format: bool, depth: nat)
    requires OnlyInts(Numbers(j))
    ensures Text(lib, j, format, depth) == Text(other, j, format, depth)
    decreases j, 0
  {
    hide IntOf, Decimal, Quoted, Tabs;
    match j
    case Array(items) => IntItemsText(lib, other, items, format, depth + 1);
    case Object(members) => IntMembersText(lib, other, members, format, depth + 1);
    case _ =>
  }

  lemma {:induction false} IntItemsText(lib: Library, other: Library, items: seq<Json>, format: bool, depth: nat)
    requires OnlyInts(NumbersOfAll(items))
    ensures ItemsText(lib, items, format, depth) == ItemsText(other, items, format, depth)
    decreases items, 1
  {
    hide IsInt, Text, ItemSeparator;
    if items != [] {
      IntText(lib, other, items[0], format, depth);
      IntItemsText(lib, other, items[1..], format, depth);
    }
  }

  lemma {:induction false} IntMembersText(lib: Library, other: Library, members: seq<Member>, format: bool, depth: nat)
    requires OnlyInts(NumbersOfMembers(members))
    ensures MembersText(lib, members, format, depth) == MembersText(other, members, format, depth)
    decreases members, 1
  {
    hide IsInt, Text, Quoted, MemberColon, MemberEnd, Tabs;
    if members != [] {
      IntText(lib, other, members[0].value, format, depth);
      IntMembersText(lib, other, members[1..], format, depth);
    }
  }

  // ---------------------------------------------------------------- printing what was parsed

  /** What the parser returns is nested within the limit, and its strings are C strings. */
  ghost predicate Sound(j: Json, depth: nat) {
    depth + Height(j) <= 1000 && Readable(j)
  }

  lemma {:induction false} ParsedIsSound(strtod: Strtod, s: seq<byte>, depth: nat)
    requires depth <= 1000 && ParseValue(strtod, s, depth).Read?
    ensures Sound(ParseValue(strtod, s, depth).value, depth)
    decreases |s|, 0
  {
    hide ParseElements, ParseMembers, ParseString, SkipSpace;
    if s != [] && s[0] in {OPEN_ARRAY, OPEN_OBJECT} {
      if depth >= 1000 {
        TooDeep(strtod, s, depth);
      } else {
        var t := SkipSpace(s[1..]);
        if s[0] == OPEN_ARRAY {
          ParseArray(strtod, s, depth);
          if t != [] && t[0] != CLOSE_ARRAY {
            ElementsAreSound(strtod, t, depth + 1);
            hide ParseValue;
            ArrayIsSound(ParseElements(strtod, t, depth + 1).value, depth);
          }
        } else {
          ParseObject(strtod, s, depth);
          if t != [] && t[0] != CLOSE_OBJECT {
            MembersAreSound(strtod, t, depth + 1);
            hide ParseValue;
            ObjectIsSound(ParseMembers(strtod, t, depth + 1).value, depth);
          }
        }
      }
    }
  }

  lemma {:induction false} ElementsAreSound(strtod: Strtod, s: seq<byte>, depth: nat)
    requires depth <= 1000 && ParseElements(strtod, s, depth).Read?
    ensures forall i :: 0 <= i < |ParseElements(strtod, s, depth).value| ==>
      Sound(ParseElements(strtod, s, depth).value[i], depth)
    decreases |s|, 1
  {
    hide ParseValue, SkipSpace, Sound;
    var v := ParseValue(strtod, SkipSpace(s), depth);
    ParsedIsSound(strtod, SkipSpace(s), depth);
    var u := SkipSpace(v.rest);
    if u != [] && u[0] == COMMA {
      ElementsAreSound(strtod, u[1..], depth);
    }
  }

  lemma {:induction false} MembersAreSound(strtod: Strtod, s: seq<byte>, depth: nat)
    requires depth <= 1000 && ParseMembers(strtod, s, depth).Read?
    ensures forall i :: 0 <= i < |ParseMembers(strtod, s, depth).value| ==>
      var m := ParseMembers(strtod, s, depth).value[i];
      0 !in m.name && Sound(m.value, depth)
    decreases |s|, 1
  {
    hide ParseValue, ParseString, SkipSpace, Sound;
    var name := ParseString(SkipSpace(s));
    ParsedIsSound(strtod, SkipSpace(SkipSpace(name.rest)[1..]), depth);
    var u := SkipSpace(ParseMember(strtod, s, depth).rest);
    if u != [] && u[0] == COMMA {
      MembersAreSound(strtod, u[1..], depth);
    }
  }

  lemma {:induction false} ItemsHeight(items: seq<Json>, limit: nat)
    requires forall i :: 0 <= i < |items| ==> Height(items[i]) <= limit
    ensures HeightOfItems(items) <= limit
  {
    if items != [] {
      hide Height;
      ItemsHeight(items[1..], limit);
    }
  }

  lemma {:induction false} MembersHeight(members: seq<Member>, limit: nat)
    requires forall i :: 0 <= i < |members| ==> Height(members[i].value) <= limit
    ensures HeightOfMembers(members) <= limit
  {
    if members != [] {
      hide Height;
      MembersHeight(members[1..], limit);
    }
  }

  lemma ArrayIsSound(items: seq<Json>, depth: nat)
    requires depth < 1000 && forall i :: 0 <= i < |items| ==> Sound(items[i], depth + 1)
    ensures Sound(Array(items), depth)
  {
    ItemsHeight(items, 1000 - depth - 1);
  }

  lemma ObjectIsSound(members: seq<Member>, depth: nat)
    requires depth < 1000
    requires forall i :: 0 <= i < |members| ==> 0 !in members[i].name && Sound(members[i].value, depth + 1)
    ensures Sound(Object(members), depth)
  {
    MembersHeight(members, 1000 - depth - 1);
  }

  /**
    * Whatever text a tree was parsed from, its printed text is parsed, too, and gives the same tree if its numbers are
    * ints.
    */
  lemma PrintedAgain(lib: Library, s: seq<byte>, wholeText: bool, format: bool)
    requires Reads(lib) && Parse(lib.strtod, s, wholeText).Some?
    ensures var j := Parse(lib.strtod, s, wholeText).value;
      && Parse(lib.strtod, Text(lib, j, format, 0) + [0], wholeText) == Some(Back(lib, j))
      && (OnlyInts(Numbers(j)) ==> Back(lib, j) == j)
  {
    hide ParseValue, SkipSpace, OnlyInts, Readable, Text, ExactOnInts, Height, Back;
    var j := Parse(lib.strtod, s, wholeText).value;
    ParsedIsSound(lib.strtod, SkipSpace(SkipBom(s)), 0);
    TreeRoundTrip(lib, j, format, wholeText);
  }
}
