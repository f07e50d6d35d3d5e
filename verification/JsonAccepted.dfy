/** What the parser accepts besides RFC 8259: nothing but control characters, and loose strings and numbers. */
module JsonAccepted {
  import opened Wrappers
  import opened Bytes
  import opened JsonText
  import opened JsonParse
  import opened JsonGrammar

  // ---------------------------------------------------------------- strings

  /** Four digits as a number, 0 if one is none. */
  lemma HexInNumbers(s: seq<byte>)
    requires |s| >= 4
    ensures Hex4(s) ==
      if IsHexDigit(s[0]) && IsHexDigit(s[1]) && IsHexDigit(s[2]) && IsHexDigit(s[3]) then CodeOf(s[..4]) else 0
  {
    NoDigit(s[0]);
    NoDigit(s[1]);
    NoDigit(s[2]);
    NoDigit(s[3]);
    if IsHexDigit(s[0]) && IsHexDigit(s[1]) && IsHexDigit(s[2]) && IsHexDigit(s[3]) {
      assert CharOk(Unicode(s[..4]), false);
      assert s == s[..4] + s[4..];
      HexIsCode(s[..4], s[4..]);
    }
    hide HexValue, IsHexDigit;
  }

  lemma NoDigit(c: byte)
    ensures HexValue(c).Some? <==> IsHexDigit(c)
  {
  }

  /** Octets between quotes: a backslash takes the next octet with it, and no other quote is among them. */
  predicate Balanced(b: seq<byte>)
    decreases |b|
  {
    b == [] || if b[0] == 0x5C then |b| >= 2 && Balanced(b[2..]) else b[0] != 0x22 && Balanced(b[1..])
  }

  /** The quote that ends a literal is the first behind balanced octets, and only that. */
  lemma {:induction false} ClosingInOctets(s: seq<byte>, n: nat)
    requires n < |s|
    ensures ClosingQuote(s) == Some(n) <==> s[n] == 0x22 && Balanced(s[..n])
    decreases |s|
  {
    if s[0] == 0x5C {
      if n >= 2 {
        ClosingInOctets(s[2..], n - 2);
        assert s[..n][2..] == s[2..][..n - 2];
      }
    } else if s[0] != 0x22 && n >= 1 {
      ClosingInOctets(s[1..], n - 1);
      assert s[..n][1..] == s[1..][..n - 1];
    }
  }

  predicate Accepts(b: seq<byte>) { Balanced(b) && Unescape(b).Some? }

  predicate LiteralOf(s: seq<byte>, n: nat) {
    n + 2 <= |s| && s[0] == 0x22 && s[n + 1] == 0x22 && Accepts(s[1..n + 1])
  }

  /** A literal is accepted if and only if its octets are balanced and every step of the copy loop takes some. */
  lemma StringsAccepted(s: seq<byte>)
    ensures ParseString(s).Read? <==> exists n: nat :: LiteralOf(s, n)
  {
    hide ClosingQuote, Unescape, CText, Balanced;
    if ParseString(s).Read? {
      var n := ClosingQuote(s[1..]).value;
      ClosingInOctets(s[1..], n);
      assert s[1..][..n] == s[1..n + 1] && s[1..][n] == s[n + 1];
      assert LiteralOf(s, n);
    }
    if exists n: nat :: LiteralOf(s, n) {
      var n: nat :| LiteralOf(s, n);
      ClosingInOctets(s[1..], n);
      assert s[1..][..n] == s[1..n + 1] && s[1..][n] == s[n + 1];
    }
  }

  // ---------------------------------------------------------------- values

  /** Octets as they stand between two quotes. */
  function RawChars(b: seq<byte>): (cs: seq<Char>) {
    if b == [] then [] else [Plain(b[0])] + RawChars(b[1..])
  }

  lemma {:induction false} RawSpelled(b: seq<byte>)
    ensures SpellChars(RawChars(b)) == b
  {
    if b != [] {
      RawSpelled(b[1..]);
      assert RawChars(b)[1..] == RawChars(b[1..]);
    }
  }

  /** A value as cJSON takes it: the structure of RFC 8259, with loose numbers and strings in it. */
  predicate Loose(n: Node)
    decreases n, 0
  {
    match n
    case Numeral(t) => NumberLike(t)
    case Quotation(chars) => Accepts(SpellChars(chars))
    case EmptyArray(space) => Space(space, false)
    case Elements(items) => items != [] && forall e :: e in items ==> LooseElement(e)
    case EmptyObject(space) => Space(space, false)
    case Pairs(pairs) => pairs != [] && forall p :: p in pairs ==> LoosePair(p)
    case _ => true
  }

  predicate LooseElement(e: Element)
    decreases e, 1
  {
    Space(e.before, false) && Space(e.after, false) && Loose(e.value)
  }

  predicate LoosePair(p: Pair)
    decreases p, 1
  {
    && Space(p.before, false) && Space(p.afterName, false) && Space(p.afterColon, false) && Space(p.after, false)
    && Accepts(SpellChars(p.name)) && Loose(p.value)
  }

  lemma {:induction false} Dropped(s: seq<byte>) returns (w: seq<byte>)
    ensures s == w + SkipSpace(s) && Space(w, false)
  {
    w := s[..|s| - |SkipSpace(s)|];
    DropIsSpace(s);
    assert DropSpace(s) == [] ==> forall i :: 0 <= i < |s| ==> s[i] <= 0x20;
  }

  lemma {:induction false} DropIsSpace(s: seq<byte>)
    ensures var n := |s| - |DropSpace(s)|;
      s[n..] == DropSpace(s) && forall i :: 0 <= i < n ==> s[i] <= 0x20
  {
    if s != [] && s[0] <= 32 {
      DropIsSpace(s[1..]);
      var n := |s| - |DropSpace(s)|;
      forall i | 0 <= i < n ensures s[i] <= 0x20 {
        assert i > 0 ==> s[i] == s[1..][i - 1];
      }
      assert s[n..] == s[1..][n - 1..];
    }
  }

  lemma StringSpelled(s: seq<byte>) returns (cs: seq<Char>)
    requires ParseString(s).Read?
    ensures Accepts(SpellChars(cs)) && s == SpellString(cs) + ParseString(s).rest
  {
    hide ClosingQuote, Unescape, CText, Balanced;
    var n := ClosingQuote(s[1..]).value;
    ClosingInOctets(s[1..], n);
    var b := s[1..1 + n];
    assert s[1..][..n] == b;
    cs := RawChars(b);
    RawSpelled(b);
    assert s == [0x22] + b + [0x22] + s[n + 2..];
  }

  lemma NumberSpelled(strtod: Strtod, s: seq<byte>) returns (t: seq<byte>)
    requires s != [] && (s[0] == 0x2D || 0x30 <= s[0] <= 0x39) && ParseNumber(strtod, s).Read?
    ensures NumberLike(t) && s == t + ParseNumber(strtod, s).rest
  {
    var n := |s| - |ParseNumber(strtod, s).rest|;
    t := s[..n];
    PrefixInNumber(s, 63);
    assert forall i :: 0 <= i < n ==> t[i] == NumberPrefix(s, 63)[i];
  }

  lemma {:induction false} PrefixInNumber(s: seq<byte>, limit: nat)
    ensures forall i :: 0 <= i < |NumberPrefix(s, limit)| ==> InNumber(NumberPrefix(s, limit)[i])
    decreases limit
  {
    if limit > 0 && s != [] && NumberChar(s[0]) {
      PrefixInNumber(s[1..], limit - 1);
    }
  }

  /** Whatever value is read is the spelling of a node, and the rest of the text is what follows it. */
  lemma ValueSpelled(strtod: Strtod, s: seq<byte>, depth: nat) returns (n: Node)
    requires ParseValue(strtod, s, depth).Read?
    ensures Loose(n) && s == Spell(n) + ParseValue(strtod, s, depth).rest
    decreases |s|, 0
  {
    hide ParseValue, ParseString, ParseNumber, SkipSpace, ParseElements, ParseMembers, Accepts, SpellChars;
    if NULL_TEXT <= s {
      n := NullName;
      ParseLiteral(strtod, s[4..], depth);
      assert s == NULL_TEXT + s[4..];
    } else if FALSE_TEXT <= s {
      n := FalseName;
      ParseLiteral(strtod, s[5..], depth);
      assert s == FALSE_TEXT + s[5..];
    } else if TRUE_TEXT <= s {
      n := TrueName;
      ParseLiteral(strtod, s[4..], depth);
      assert s == TRUE_TEXT + s[4..];
    } else {
      NotNothing(strtod, s, depth);
      ParseByStart(strtod, s, depth);
      if s[0] == 0x22 {
        var cs := StringSpelled(s);
        n := Quotation(cs);
      } else if s[0] == 0x2D || 0x30 <= s[0] <= 0x39 {
        var t := NumberSpelled(strtod, s);
        n := Numeral(t);
      } else if s[0] == 0x5B {
        n := ArraySpelled(strtod, s, depth);
      } else {
        n := ObjectSpelled(strtod, s, depth);
      }
    }
  }

  lemma NotNothing(strtod: Strtod, s: seq<byte>, depth: nat)
    requires ParseValue(strtod, s, depth).Read?
    ensures s != []
  {
    if s == [] {
      ParseNothing(strtod, depth);
    }
  }

  lemma ArraySpelled(strtod: Strtod, s: seq<byte>, depth: nat) returns (n: Node)
    requires s != [] && s[0] == 0x5B && depth < 1000 && ParseValue(strtod, s, depth).Read?
    ensures Loose(n) && s == Spell(n) + ParseValue(strtod, s, depth).rest
    decreases |s|, 0, 0
  {
    hide ParseValue, SkipSpace, ParseElements, Loose, SpellElements;
    ParseArray(strtod, s, depth);
    var w := Dropped(s[1..]);
    var t, rest := SkipSpace(s[1..]), ParseValue(strtod, s, depth).rest;
    if t[0] == 0x5D {
      n := EmptyArray(w);
      assert s == [0x5B] + w + [0x5D] + rest;
      assert Loose(n) by { LooseEmpty(w); }
    } else {
      var items := ElementsSpelled(strtod, t, depth + 1);
      var e := items[0];
      var all := [e.(before := w + e.before)] + items[1..];
      n := Elements(all);
      var u := ParseElements(strtod, t, depth + 1).rest;
      MoreBefore(items, w);
      assert u == [0x5D] + rest;
      assert s == [0x5B] + SpellElements(all) + [0x5D] + rest;
      LooseElements(items, w);
    }
  }

  lemma LooseEmpty(w: seq<byte>)
    requires Space(w, false)
    ensures Loose(EmptyArray(w)) && Loose(EmptyObject(w))
  {
  }

  lemma LooseElements(items: seq<Element>, w: seq<byte>)
    requires items != [] && Space(w, false) && forall e :: e in items ==> LooseElement(e)
    ensures Loose(Elements([items[0].(before := w + items[0].before)] + items[1..]))
  {
    assert LooseElement(items[0]);
  }

  lemma MoreBefore(items: seq<Element>, w: seq<byte>)
    requires items != []
    ensures SpellElements([items[0].(before := w + items[0].before)] + items[1..]) == w + SpellElements(items)
  {
    hide SpellElement;
    var e := items[0].(before := w + items[0].before);
    var all := [e] + items[1..];
    assert all[1..] == items[1..];
    MoreBeforeOne(items[0], w);
    if |items| > 1 {
      Regroup(w, SpellElement(items[0]), [0x2C] + SpellElements(items[1..]));
    }
  }

  lemma MoreBeforeOne(e: Element, w: seq<byte>)
    ensures SpellElement(e.(before := w + e.before)) == w + SpellElement(e)
  {
    hide Spell;
    Regroup(w, e.before, Spell(e.value) + e.after);
  }

  lemma ElementsSpelled(strtod: Strtod, s: seq<byte>, depth: nat) returns (items: seq<Element>)
    requires ParseElements(strtod, s, depth).Read?
    ensures items != [] && (forall e :: e in items ==> LooseElement(e))
      && s == SpellElements(items) + ParseElements(strtod, s, depth).rest
    decreases |s|, 1
  {
    hide ParseValue, SkipSpace, ParseElements, Loose, Spell;
    var before := Dropped(s);
    var v := ParseValue(strtod, SkipSpace(s), depth);
    if v.Failed? {
      ElementsFail(strtod, s, depth);
    }
    ElementsStep(strtod, s, depth, v.value, v.rest);
    var n := ValueSpelled(strtod, SkipSpace(s), depth);
    var after := Dropped(v.rest);
    var u, e := SkipSpace(v.rest), Element(before, n, after);
    assert s == SpellElement(e) + u;
    if u == [] || u[0] != 0x2C {
      items := [e];
    } else {
      var more := ElementsSpelled(strtod, u[1..], depth);
      items := [e] + more;
      ListSpelled(e, more, ParseElements(strtod, u[1..], depth).rest);
      assert u == [0x2C] + u[1..];
    }
  }

  lemma ListSpelled(e: Element, more: seq<Element>, rest: seq<byte>)
    requires more != []
    ensures SpellElements([e] + more) + rest == SpellElement(e) + ([0x2C] + (SpellElements(more) + rest))
  {
    hide SpellElement;
    assert ([e] + more)[1..] == more;
  }

  lemma ObjectSpelled(strtod: Strtod, s: seq<byte>, depth: nat) returns (n: Node)
    requires s != [] && s[0] == 0x7B && depth < 1000 && ParseValue(strtod, s, depth).Read?
    ensures Loose(n) && s == Spell(n) + ParseValue(strtod, s, depth).rest
    decreases |s|, 0, 0
  {
    hide ParseValue, SkipSpace, ParseMembers, Loose, SpellPairs;
    ParseObject(strtod, s, depth);
    var w := Dropped(s[1..]);
    var t, rest := SkipSpace(s[1..]), ParseValue(strtod, s, depth).rest;
    if t[0] == 0x7D {
      n := EmptyObject(w);
      assert s == [0x7B] + w + [0x7D] + rest;
      assert Loose(n) by { LooseEmpty(w); }
    } else {
      var pairs := PairsSpelled(strtod, t, depth + 1);
      var p := pairs[0];
      var all := [p.(before := w + p.before)] + pairs[1..];
      n := Pairs(all);
      var u := ParseMembers(strtod, t, depth + 1).rest;
      MoreBeforePair(pairs, w);
      assert u == [0x7D] + rest;
      assert s == [0x7B] + SpellPairs(all) + [0x7D] + rest;
      LoosePairs(pairs, w);
    }
  }

  lemma LoosePairs(pairs: seq<Pair>, w: seq<byte>)
    requires pairs != [] && Space(w, false) && forall p :: p in pairs ==> LoosePair(p)
    ensures Loose(Pairs([pairs[0].(before := w + pairs[0].before)] + pairs[1..]))
  {
    assert LoosePair(pairs[0]);
  }

  lemma MoreBeforePair(pairs: seq<Pair>, w: seq<byte>)
    requires pairs != []
    ensures SpellPairs([pairs[0].(before := w + pairs[0].before)] + pairs[1..]) == w + SpellPairs(pairs)
  {
    hide SpellPair;
    var p := pairs[0].(before := w + pairs[0].before);
    var all := [p] + pairs[1..];
    assert all[1..] == pairs[1..];
    MoreBeforeOnePair(pairs[0], w);
    if |pairs| > 1 {
      Regroup(w, SpellPair(pairs[0]), [0x2C] + SpellPairs(pairs[1..]));
    }
  }

  lemma MoreBeforeOnePair(p: Pair, w: seq<byte>)
    ensures SpellPair(p.(before := w + p.before)) == w + SpellPair(p)
  {
    hide SpellPair;
    var q := p.(before := w + p.before);
    PairInFront(p, [], []);
    PairInFront(q, [], []);
    Regroup(w, p.before, BarePair(p, []));
    assert BarePair(q, []) == BarePair(p, []);
    assert SpellPair(p) + [] + [] == SpellPair(p) && SpellPair(q) + [] + [] == SpellPair(q);
    var none: seq<byte> := [];
    assert none + none == none;
  }

  lemma PairSpelled(strtod: Strtod, s: seq<byte>, depth: nat) returns (p: Pair)
    requires ParseMember(strtod, s, depth).Read?
    ensures p.after == [] && LoosePair(p) && s == SpellPair(p) + ParseMember(strtod, s, depth).rest
    decreases |s|, 1
  {
    hide ParseValue, ParseString, SkipSpace, Loose, Spell, SpellString, Accepts;
    var before := Dropped(s);
    var name := ParseString(SkipSpace(s));
    var cs := StringSpelled(SkipSpace(s));
    var afterName := Dropped(name.rest);
    var u := SkipSpace(name.rest);
    var afterColon := Dropped(u[1..]);
    var n := ValueSpelled(strtod, SkipSpace(u[1..]), depth);
    p := Pair(before, cs, afterName, afterColon, n, []);
    var rest := ParseMember(strtod, s, depth).rest;
    assert u == [0x3A] + u[1..];
    PairInFront(p, [], rest);
    assert [] + rest == rest && SpellPair(p) + [] == SpellPair(p);
  }

  lemma PairsSpelled(strtod: Strtod, s: seq<byte>, depth: nat) returns (pairs: seq<Pair>)
    requires ParseMembers(strtod, s, depth).Read?
    ensures pairs != [] && (forall p :: p in pairs ==> LoosePair(p))
      && s == SpellPairs(pairs) + ParseMembers(strtod, s, depth).rest
    decreases |s|, 2
  {
    hide ParseMember, SkipSpace, ParseMembers, Loose, Spell, SpellString, Accepts;
    var m := ParseMember(strtod, s, depth);
    if m.Failed? {
      MembersFail(strtod, s, depth);
    }
    MembersStep(strtod, s, depth, m.value, m.rest);
    var bare := PairSpelled(strtod, s, depth);
    var after := Dropped(m.rest);
    var u, p := SkipSpace(m.rest), bare.(after := after);
    assert SpellPair(p) == SpellPair(bare) + after by { AfterPair(bare, after); }
    assert s == SpellPair(p) + u;
    if u == [] || u[0] != 0x2C {
      pairs := [p];
    } else {
      var more := PairsSpelled(strtod, u[1..], depth);
      pairs := [p] + more;
      PairListSpelled(p, more, ParseMembers(strtod, u[1..], depth).rest);
      assert u == [0x2C] + u[1..];
    }
  }

  lemma AfterPair(p: Pair, after: seq<byte>)
    requires p.after == []
    ensures SpellPair(p.(after := after)) == SpellPair(p) + after
  {
    hide Spell, SpellString;
    PairInFront(p, [], after);
    PairInFront(p.(after := after), [], []);
    assert SpellPair(p) + [] + after == SpellPair(p) + after;
    assert after + ([] + []) == [] + ([] + after);
    assert SpellPair(p.(after := after)) + [] + [] == SpellPair(p.(after := after));
  }

  lemma PairListSpelled(p: Pair, more: seq<Pair>, rest: seq<byte>)
    requires more != []
    ensures SpellPairs([p] + more) + rest == SpellPair(p) + ([0x2C] + (SpellPairs(more) + rest))
  {
    hide SpellPair;
    assert ([p] + more)[1..] == more;
  }

  // ---------------------------------------------------------------- whole texts

  /**
    * A text that the strict variant of cJSON_Parse() accepts is, up to a NUL, one value with white space around it and
    * perhaps a byte order mark in front.
    */
  lemma TextAccepted(strtod: Strtod, s: seq<byte>)
    returns (bom: bool, before: seq<byte>, n: Node, after: seq<byte>, behind: seq<byte>)
    requires Parse(strtod, s, true).Some?
    ensures Space(before, false) && Loose(n) && Space(after, false)
    ensures s == SpellText(bom, before, n, after) + behind
  {
    hide ParseValue, SkipSpace, SkipBom, Loose, Spell;
    var t := SkipBom(s);
    bom := t != s;
    BomOf(s);
    before := Dropped(t);
    n := ValueSpelled(strtod, SkipSpace(t), 0);
    var rest := ParseValue(strtod, SkipSpace(t), 0).rest;
    after := Dropped(rest);
    var end := SkipSpace(rest);
    behind := end[1..];
    assert end == [0] + behind;
    TextPieces(if bom then [0xEF, 0xBB, 0xBF] else [], before, Spell(n), after, behind);
  }

  lemma BomOf(s: seq<byte>)
    ensures s == (if SkipBom(s) != s then [0xEF, 0xBB, 0xBF] else []) + SkipBom(s)
  {
  }

  lemma TextPieces(bom: seq<byte>, before: seq<byte>, value: seq<byte>, after: seq<byte>, behind: seq<byte>)
    ensures bom + (before + (value + (after + ([0] + behind)))) == bom + (before + (value + (after + [0]))) + behind
  {
    assert after + ([0] + behind) == after + [0] + behind;
    assert value + (after + [0] + behind) == value + (after + [0]) + behind;
  }
}
