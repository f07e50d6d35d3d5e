/** parse_buffer of cJSON.c and the parser that moves its offset and depth. */
module JsonReader {
  import opened Wrappers
  import opened Bytes
  import opened JsonText
  import opened JsonParse
  import opened JsonLiterals
  import opened JsonItems
  import opened JsonTrees
  import Utf8
  import Utf8Bits

  class ParseBuffer {
    const content: seq<byte>
    const strtod: Strtod
    var offset: nat
    var depth: nat

    /** A buffer whose last octet is a NUL, as cJSON_ParseWithOpts() makes of a C string. */
    ghost predicate Valid()
      reads this
    {
      && content != [] && content[|content| - 1] == 0
      && offset <= |content| && depth <= NESTING_LIMIT
    }

    /** The text still to be read. */
    ghost function Left(): seq<byte>
      requires Valid()
      reads this
    {
      content[offset..]
    }

    constructor (content: seq<byte>, strtod: Strtod)
      requires content != [] && content[|content| - 1] == 0
      ensures Valid() && this.content == content && this.strtod == strtod && offset == 0 && depth == 0
    {
      this.content, this.strtod := content, strtod;
      offset, depth := 0, 0;
    }

    /** buffer_skip_whitespace() */
    method SkipWhitespace()
      requires Valid()
      modifies this`offset
      ensures Valid() && Left() == SkipSpace(old(Left())) && old(offset) <= offset
    {
      if offset >= |content| {
        return;
      }
      ghost var s := Left();
      while offset < |content| && content[offset] <= 32
        invariant Valid() && old(offset) <= offset && DropSpace(s) == DropSpace(Left())
      {
        assert Left()[1..] == content[offset + 1..];
        offset := offset + 1;
      }
      if offset == |content| {
        offset := offset - 1;
        assert Left() == s[|s| - 1..];
      }
    }

    /** parse_hex4() */
    method ParseHex4(at: nat) returns (h: bv32)
      requires at + 4 <= |content|
      ensures h == Hex4(content[at..])
    {
      hide HexValue, HighDigits, PlusDigit, Hex4;
      h := 0;
      ghost var s := content[at..];
      NoDigits();
      for i := 0 to 4
        invariant HexFold(s, i).Some? && h == if i < 4 then HighDigits(HexFold(s, i).value) else HexFold(s, i).value
      {
        var digit := HexValue(content[at + i]);
        if digit == None {
          HexFoldFails(s, i + 1);
          return 0;
        }
        h := PlusDigit(h, digit.value);
        if i < 3 {
          h := HighDigits(h);
        }
      }
      HexFoldIsHex4(s);
    }

    /** utf16_literal_to_utf8(): the escape at 'at' goes to output as UTF-8; sequenceLength is 0 on failure. */
    method Utf16LiteralToUtf8(at: nat, end: nat, output: array<byte>, to: nat) returns (sequenceLength: nat, next: nat)
      requires at <= end < |content| && to <= output.Length
      requires var (point, n) := EscapePoint(content[at..end]); n > 0 ==> to + |Utf8.Encode(point)| <= output.Length
      modifies output
      ensures var (point, n) := EscapePoint(content[at..end]);
        && sequenceLength == n
        && output[..to] == old(output[..to])
        && (n > 0 ==> next == to + |Utf8.Encode(point)| && output[to..next] == Utf8.Encode(point))
    {
      hide Hex4, Utf8.Encode;
      ghost var s := content[at..end];
      sequenceLength, next := 0, to;
      if end - at < 6 {
        return;
      }
      var firstCode := ParseHex4(at + 2);
      Hex4Prefix(content[at + 2..], s[2..]);
      if 0xDC00 <= firstCode <= 0xDFFF {
        return;
      }
      var codepoint := firstCode;
      if 0xD800 <= firstCode <= 0xDBFF {
        if end - (at + 6) < 6 || content[at + 6] != BACKSLASH || content[at + 7] != LETTER_U {
          return;
        }
        var secondCode := ParseHex4(at + 8);
        Hex4Prefix(content[at + 8..], s[8..]);
        if secondCode < 0xDC00 || secondCode > 0xDFFF {
          return;
        }
        codepoint := 0x10000 + (((firstCode & 0x3FF) << 10) | (secondCode & 0x3FF));
        sequenceLength := 12;
      } else {
        sequenceLength := 6;
      }
      assert (codepoint, sequenceLength) == EscapePoint(s);
      next := EncodeUtf8(codepoint, output, to);
    }

    /** The encoding loop at the end of utf16_literal_to_utf8(): continuation octets from the last to the first. */
    static method EncodeUtf8(point: bv32, output: array<byte>, to: nat) returns (next: nat)
      requires Utf8Bits.IsScalar(point) && to + |Utf8.Encode(point)| <= output.Length
      modifies output
      ensures next == to + |Utf8.Encode(point)|
      ensures output[..to] == old(output[..to]) && output[to..next] == Utf8.Encode(point)
    {
      hide TailOctet, FirstOctet, Utf8.Encode, Shift6;
      EncodeByLoop(point);
      ghost var code := Utf8.Encode(point);
      var codepoint, mark :=
        point, if point < 0x80 then 0 else if point < 0x800 then 0xC0 else if point < 0x10000 then 0xE0 else 0xF0;
      var length := if point < 0x80 then 1 else if point < 0x800 then 2 else if point < 0x10000 then 3 else 4;
      assert length == |code|;
      var position := length - 1;
      while position > 0
        invariant 0 <= position < length && output[..to] == old(output[..to])
        invariant codepoint == Shifted(point, length - 1 - position)
        invariant output[to + position + 1..to + length] == code[position + 1..]
      {
        ghost var behind := output[to + position + 1..to + length];
        assert code[position..] == [code[position]] + code[position + 1..];
        output[to + position] := TailOctet(codepoint);
        assert output[to + position..to + length] == [TailOctet(codepoint)] + behind;
        codepoint := Shift6(codepoint);
        position := position - 1;
      }
      output[to] := if length > 1 then FirstOctet(codepoint, mark) else (codepoint & 0x7F) as byte;
      next := to + length;
      assert output[to..next] == [output[to]] + code[1..];
    }

    /** The measuring scan of parse_string(): where the literal ends, and how many backslashes it jumped behind. */
    method MeasureLiteral(start: nat) returns (found: bool, end: nat, skipped: nat)
      requires Valid() && start <= |content|
      ensures match ClosingQuote(content[start..])
        case None => !found
        case Some(n) => found && end == start + n && skipped == Skips(content[start..end], false)
    {
      hide ClosingQuote, Skips;
      ghost var all := ClosingQuote(content[start..]);
      ghost var close := if all.Some? then start + all.value else |content|;
      end, skipped := start, 0;
      while end < |content| && content[end] != QUOTE
        invariant start <= end <= |content| && end <= close
        invariant all.None? ==> ClosingQuote(content[end..]).None?
        invariant all.Some? ==> ClosingQuote(content[end..]) == Some(close - end)
        invariant all.Some? ==> skipped + Skips(content[end..close], false) == Skips(content[start..close], false)
        decreases |content| - end
      {
        ScanStep(content, end);
        if content[end] == BACKSLASH {
          if end + 1 >= |content| {
            return false, end, skipped;
          }
          skipped, end := skipped + 1, end + 1;
        }
        end := end + 1;
      }
      ScanEnd(content, end);
      assert content[end..end] == [];
      found := end < |content|;
    }

    /** One step of the copy loop of parse_string(); n is 0 when the escape is not valid. */
    method CopyUnit(at: nat, end: nat, output: array<byte>, to: nat) returns (n: nat, next: nat)
      requires at < end < |content| && content[end] == QUOTE && to <= output.Length
      requires Unit(content[at..end]).1 > 0 ==> to + |Unit(content[at..end]).0| <= output.Length
      modifies output
      ensures var (out, taken) := Unit(content[at..end]);
        && n == taken && output[..to] == old(output[..to])
        && (n > 0 ==> next == to + |out| && output[to..next] == out)
    {
      hide EscapePoint, Utf8.Encode;
      ghost var s := content[at..end];
      n, next := 2, to + 1;
      var c := content[at];
      if c != BACKSLASH {
        output[to] := c;
        n := 1;
      } else {
        var e := content[at + 1];
        match e
        case 0x62 => output[to] := 0x08;
        case 0x66 => output[to] := 0x0C;
        case 0x6E => output[to] := 0x0A;
        case 0x72 => output[to] := 0x0D;
        case 0x74 => output[to] := 0x09;
        case 0x22 => output[to] := e;
        case 0x5C => output[to] := e;
        case 0x2F => output[to] := e;
        case 0x75 => n, next := Utf16LiteralToUtf8(at, end, output, to);
        case _ => n, next := 0, to;
      }
    }

    /**
     * The copy loop of parse_string() over the literal between start and end. The buffer holds the estimate and a NUL:
     * one octet for each character and for the opening quote, less one for each backslash that the scan jumped behind.
     */
    method CopyLiteral(start: nat, end: nat, output: array<byte>) returns (ok: bool, to: nat)
      requires start <= end < |content| && content[end] == QUOTE
      requires output.Length == end + 1 - start - Skips(content[start..end], false) + 1
      modifies output
      ensures var r := Unescape(content[start..end]);
        && (ok <==> r.Some?) && (ok ==> to < output.Length && output[..to] == r.value)
    {
      hide Unit, Unescape, Skips, JumpsAfter;
      ghost var total, jumped := Skips(content[start..end], false), false;
      var at := start;
      ok, to := false, 0;
      SkipsFit(content[start..end]);
      UnescapeNothing();
      PrefixedByNothing(output[..to], Unescape(content[start..end]));
      while at < end
        invariant start <= at <= end + 1 && to < output.Length
        invariant at <= end ==>
          && to + total <= at - start + Skips(content[at..end], jumped)
          && Unescape(content[start..end]) == Prefixed(output[..to], Unescape(content[at..end]))
        invariant at > end ==> to + total <= end - start + 1 && Unescape(content[start..end]) == Some(output[..to])
        decreases end - at
      {
        ghost var s, before := content[at..end], output[..to];
        UnescapeByUnit(s);
        UnitRoom(s, jumped);
        var n, next := CopyUnit(at, end, output, to);
        if n == 0 {
          return;
        }
        assert output[..next] == before + Unit(s).0;
        if at + n <= end {
          assert s[n..] == content[at + n..end];
          PrefixedTwice(before, Unit(s).0, Unescape(s[n..]));
          jumped := JumpsAfter(s[..n], jumped);
        }
        at, to := at + n, next;
      }
      ok := true;
    }

    /** parse_string(): a literal at the offset, its escapes resolved into a buffer of estimated size, as a C string. */
    method ReadString(item: Item) returns (ok: bool)
      requires Valid() && offset < |content|
      modifies this`offset, item`kind, item`valuestring
      ensures Valid()
      ensures var r := ParseString(old(Left()));
        && (ok <==> r.Read?)
        && (ok ==> item.kind == CJSON_STRING && item.valuestring == Some(r.value) && Left() == r.rest)
    {
      hide ClosingQuote, Unescape, Skips, CText;
      ok := false;
      var start := offset + 1;
      ghost var s := Left();
      assert s[1..] == content[start..];
      if content[offset] != QUOTE {
        offset := start;
        return;
      }
      var found, end, skipped := MeasureLiteral(start);
      if !found {
        offset := start;
        return;
      }
      assert content[start..][..end - start] == content[start..end] && s[1..1 + (end - start)] == content[start..end];
      SkipsFit(content[start..end]);
      var output := new byte[end - offset - skipped + 1];
      var copied, to := CopyLiteral(start, end, output);
      if !copied {
        offset := start;
        return;
      }
      output[to] := 0;
      ok, item.kind, item.valuestring := true, CJSON_STRING, Some(CText(output[..to]));
      offset := end;
      offset := offset + 1;
      assert Left() == s[end - start + 2..];
    }

    /** parse_number(): up to 63 characters of a number go to strtod(), which says how many of them count. */
    method ReadNumber(item: Item) returns (ok: bool)
      requires Valid() && item.child == null
      modifies this`offset, item`kind, item`valueint, item`valuedouble
      ensures Valid()
      ensures var r := ParseNumber(strtod, old(Left()));
        && (ok <==> r.Read?) && (ok ==> r.value.Number? && HoldsNumber(item, r.value.value) && Left() == r.rest)
    {
      hide NumberPrefix, NumberChar, HoldsNumber;
      ok := false;
      ghost var s := Left();
      ghost var all := NumberPrefix(s, NUMBER_CHARS);
      NumberPrefixMaximal(s, NUMBER_CHARS);
      var text: seq<byte>, i := [], 0;
      while i < NUMBER_CHARS && offset + i < |content| && NumberChar(content[offset + i])
        invariant i <= |all| && text == s[..i]
      {
        text, i := text + [content[offset + i]], i + 1;
      }
      assert text == all;
      match strtod(text)
      case NoNumber =>
      case Converted(value, consumed) =>
        if 0 < consumed <= |text| {
          SetNumber(item, value);
          ok, offset := true, offset + consumed;
        }
    }

    /** The value, and the int that it is cut to, with saturation. */
    static method SetNumber(item: Item, value: Double)
      requires item.child == null
      modifies item`kind, item`valueint, item`valuedouble
      ensures HoldsNumber(item, value)
    {
      item.valuedouble := value;
      item.valueint :=
        if AtLeast(value, INT_MAX as real) then INT_MAX
        else if AtMost(value, INT_MIN as real) then INT_MIN
        else if !value.Finite? then 0
        else if value.value >= 0.0 then value.value.Floor
        else -(-value.value).Floor;
      item.kind := CJSON_NUMBER;
    }

    /** The text at the offset starts with w: can_read() and strncmp(). */
    method LooksAt(w: seq<byte>) returns (yes: bool)
      requires Valid()
      ensures yes <==> w <= Left()
      ensures yes ==> Left() == w + content[offset + |w|..]
    {
      yes := offset + |w| <= |content| && content[offset..offset + |w|] == w;
      assert offset + |w| <= |content| ==> Left()[..|w|] == content[offset..offset + |w|];
    }

    /** parse_value() */
    method ReadValue(item: Item) returns (ok: bool, ghost shape: Shape, ghost value: Json)
      requires Valid() && item.child == null
      modifies this`offset, this`depth, item`kind, item`valuestring, item`valueint, item`valuedouble, item`child
      ensures Valid() && (ok ==> depth == old(depth))
      ensures Agrees(ok, value, Left(), ParseValue(strtod, old(Left()), old(depth)))
      ensures ok ==> Grew(item, shape, value) && fresh(Below(shape)) && forall x :: x in Below(shape) ==> allocated(x)
      decreases |content| - offset, 4
    {
      hide ParseValue;
      ok, shape, value := true, Shape(item, []), Null;
      LeafIsTree(item);
      var yes := LooksAt(NULL_TEXT);
      if yes {
        ParseLiteral(strtod, content[offset + 4..], depth);
        item.kind, offset := CJSON_NULL, offset + 4;
        return;
      }
      yes := LooksAt(FALSE_TEXT);
      if yes {
        ParseLiteral(strtod, content[offset + 5..], depth);
        item.kind, value, offset := CJSON_FALSE, False, offset + 5;
        return;
      }
      yes := LooksAt(TRUE_TEXT);
      if yes {
        ParseLiteral(strtod, content[offset + 4..], depth);
        item.kind, item.valueint, value, offset := CJSON_TRUE, 1, True, offset + 4;
        return;
      }
      if offset >= |content| {
        ParseNothing(strtod, depth);
        ok := false;
        return;
      }
      ok, shape, value := ReadByStart(item);
    }

    /** The rest of parse_value(): the first character decides. */
    method ReadByStart(item: Item) returns (ok: bool, ghost shape: Shape, ghost value: Json)
      requires Valid() && offset < |content| && item.child == null
      requires !(NULL_TEXT <= Left()) && !(FALSE_TEXT <= Left()) && !(TRUE_TEXT <= Left())
      modifies this`offset, this`depth, item`kind, item`valuestring, item`valueint, item`valuedouble, item`child
      ensures Valid() && (ok ==> depth == old(depth))
      ensures Agrees(ok, value, Left(), ParseValue(strtod, old(Left()), old(depth)))
      ensures ok ==> Grew(item, shape, value) && fresh(Below(shape)) && forall x :: x in Below(shape) ==> allocated(x)
      decreases |content| - offset, 3
    {
      hide ParseValue, ParseString, ParseNumber;
      ok, shape, value := false, Shape(item, []), Null;
      LeafIsTree(item);
      ParseByStart(strtod, Left(), depth);
      ghost var s := Left();
      var c := content[offset];
      if c == QUOTE {
        ok := ReadString(item);
        value := String(if ok then item.valuestring.value else []);
      } else if c == MINUS || 0x30 <= c <= 0x39 {
        ok := ReadNumber(item);
        value := if ok then ParseNumber(strtod, s).value else Null;
      } else if c == OPEN_ARRAY {
        ok, shape, value := ReadArray(item);
      } else if c == OPEN_OBJECT {
        ok, shape, value := ReadObject(item);
      }
    }

    /** How parse_array() and parse_object() begin: the depth, the bracket, and whitespace. */
    method OpenBracket(bracket: byte) returns (ok: bool)
      requires Valid() && offset < |content|
      modifies this`offset, this`depth
      ensures Valid() && ok == (old(depth) < NESTING_LIMIT && content[old(offset)] == bracket)
      ensures ok ==> old(offset) < offset && depth == old(depth) + 1 && Left() == SkipSpace(content[old(offset) + 1..])
    {
      hide SkipSpace;
      if depth >= NESTING_LIMIT {
        return false;
      }
      depth := depth + 1;
      if content[offset] != bracket {
        return false;
      }
      offset := offset + 1;
      SkipWhitespace();
      ok := true;
    }

    /** parse_array() */
    method ReadArray(item: Item) returns (ok: bool, ghost shape: Shape, ghost value: Json)
      requires Valid() && offset < |content| && item.child == null
      modifies this`offset, this`depth, item`kind, item`child
      ensures Valid() && (ok ==> depth == old(depth))
      ensures if old(content[offset]) == OPEN_ARRAY
        then Agrees(ok, value, Left(), ParseValue(strtod, old(Left()), old(depth)))
        else !ok
      ensures ok ==> Grew(item, shape, value) && fresh(Below(shape)) && forall x :: x in Below(shape) ==> allocated(x)
      decreases |content| - offset, 2, 1
    {
      hide ParseElements, ParseValue, SkipSpace, Grew, All, Below, FinishArray;
      ok, shape, value := false, Shape(item, []), Null;
      ghost var s := Left();
      if depth >= NESTING_LIMIT && s[0] == OPEN_ARRAY {
        TooDeep(strtod, s, depth);
      }
      var entered := OpenBracket(OPEN_ARRAY);
      if entered {
        JsonParse.ParseArray(strtod, s, depth - 1);
        ok, shape, value := ReadBehindBracket(item);
      }
    }

    /** parse_array() behind its bracket. */
    method ReadBehindBracket(item: Item) returns (ok: bool, ghost shape: Shape, ghost value: Json)
      requires Valid() && 0 < depth && 0 < offset && item.child == null
      modifies this`offset, this`depth, item`kind, item`child
      ensures Valid() && (ok ==> depth == old(depth) - 1)
      ensures var t := old(Left());
        Agrees(ok, value, Left(),
          if t == [] then Failed
          else if t[0] == CLOSE_ARRAY then Read(Array([]), t[1..])
          else FinishArray(ParseElements(strtod, t, old(depth))))
      ensures ok ==> Grew(item, shape, value) && fresh(Below(shape)) && forall x :: x in Below(shape) ==> allocated(x)
      decreases |content| - offset + 1, 2, 0
    {
      hide ParseElements, Growing, Grew, All, Below;
      hide Built, Tree, Nodes, Forest, Linked, BuiltAll;
      ok, shape, value := false, Shape(item, []), Null;
      ghost var t := Left();
      var head: Item?, current: Item? := null, null;
      ghost var kids: seq<Shape>, values: seq<Json> := [], [];
      if offset < |content| && content[offset] == CLOSE_ARRAY {
        NothingLinked();
      } else {
        if offset >= |content| {
          return;
        }
        offset := offset - 1;
        assert content[offset + 1..] == t;
        ok, head, current, kids, values := ReadElements();
        if !ok {
          return;
        }
        if offset >= |content| || content[offset] != CLOSE_ARRAY {
          ok := false;
          return;
        }
      }
      depth := depth - 1;
      CloseArray(item, head, current, kids, values);
      offset := offset + 1;
      ok, shape, value := true, Shape(item, kids), Array(values);
    }

    /** One round of parse_array()'s loop, up to the comma. */
    method ReadElement(head: Item?, current: Item?, ghost kids: seq<Shape>, ghost values: seq<Json>)
      returns (ok: bool, first: Item, last: Item, ghost shape: Shape, ghost value: Json)
      requires Valid() && offset < |content|
      requires Growing(head, current, kids, values) && forall x :: x in All(kids) ==> allocated(x)
      modifies this`offset, this`depth, Of(current)`next
      ensures Valid() && (ok ==> depth == old(depth) && old(offset) < offset)
      ensures Agrees(ok, value, Left(), ParseValue(strtod, SkipSpace(content[old(offset) + 1..]), old(depth)))
      ensures ok ==> Growing(first, last, kids + [shape], values + [value]) && fresh(All(kids + [shape]) - All(kids))
      ensures fresh(last) && first == if head == null then last else head
      ensures ok ==> forall x :: x in All(kids + [shape]) ==> allocated(x)
      decreases |content| - offset, 0
    {
      hide ParseValue, SkipSpace, Linked, BuiltAll, Forest, All, Nodes, Built, Below, Tree, Growing;
      first, last := AppendNew(head, current, kids, values);
      ghost var before := All(kids);
      offset := offset + 1;
      SkipWhitespace();
      ok, shape, value := ReadValue(last);
      if ok {
        assert Below(shape) !! before;
        Grown(first, last, kids, values, shape, value);
      }
    }

    /** The loop of parse_array(), from the character in front of the first element. */
    method ReadElements()
      returns (ok: bool, head: Item?, current: Item?, ghost kids: seq<Shape>, ghost values: seq<Json>)
      requires Valid() && offset < |content|
      modifies this`offset, this`depth
      ensures Valid() && (ok ==> depth == old(depth))
      ensures Agrees(ok, values, Left(), ParseElements(strtod, content[old(offset) + 1..], old(depth)))
      ensures ok ==> Growing(head, current, kids, values)
      ensures ok ==> fresh(All(kids)) && (forall x :: x in All(kids) ==> allocated(x)) && (head != null ==> fresh(head))
      decreases |content| - offset, 1
    {
      hide ParseElements, ParseValue, SkipSpace, Appended, Growing, All;
      ok, head, current, kids, values := false, null, null, [], [];
      ghost var all := ParseElements(strtod, content[offset + 1..], depth);
      AppendedToNothing(all);
      NothingLinked();
      var more := true;
      while more
        invariant Valid() && old(offset) <= offset && depth == old(depth)
        invariant more ==>
          offset < |content| && all == Appended(values, ParseElements(strtod, content[offset + 1..], depth))
        invariant !more ==> all == Read(values, Left())
        invariant Growing(head, current, kids, values)
        invariant fresh(All(kids)) && forall x :: x in All(kids) ==> allocated(x)
        invariant (head != null ==> fresh(head)) && (current != null ==> fresh(current))
        decreases |content| - offset, more
      {
        ghost var before := content[offset + 1..];
        var parsed;
        ghost var shape, value;
        parsed, head, current, shape, value := ReadElement(head, current, kids, values);
        if !parsed {
          ElementsFail(strtod, before, old(depth));
          AppendedToFailure(values);
          return;
        }
        ghost var rest := Left();
        SkipWhitespace();
        ElementsOn(strtod, before, depth, values, value, rest);
        more := offset < |content| && content[offset] == COMMA;
        assert more ==> content[offset + 1..] == Left()[1..];
        kids, values := kids + [shape], values + [value];
      }
      ok := true;
    }

    /** The part of parse_object()'s loop that reads one name, its colon and its value. */
    method ReadMember(item: Item) returns (ok: bool, ghost shape: Shape, ghost member: Member)
      requires Valid() && offset < |content| && item.child == null
      modifies this`offset, this`depth
      modifies item`kind, item`valuestring, item`valueint, item`valuedouble, item`child, item`name
      ensures Valid() && (ok ==> depth == old(depth))
      ensures Agrees(ok, member, Left(), ParseMember(strtod, old(Left()), old(depth)))
      ensures ok ==> Grew(item, shape, member.value) && item.name == Some(member.name)
      ensures ok ==> fresh(Below(shape)) && forall x :: x in Below(shape) ==> allocated(x)
      decreases |content| - offset, 5
    {
      hide ParseValue, SkipSpace, ParseString, Built, Below, Tree;
      ok, shape, member := false, Shape(item, []), Member([], Null);
      SkipWhitespace();
      var named := ReadString(item);
      if !named {
        return;
      }
      SkipWhitespace();
      item.name := item.valuestring;
      item.valuestring := None;
      ghost var name := item.name.value;
      if offset >= |content| || content[offset] != COLON {
        return;
      }
      ghost var u := Left();
      offset := offset + 1;
      assert Left() == u[1..];
      SkipWhitespace();
      ghost var value;
      ok, shape, value := ReadValue(item);
      member := Member(name, value);
    }

    /** parse_object() */
    method ReadObject(item: Item) returns (ok: bool, ghost shape: Shape, ghost value: Json)
      requires Valid() && offset < |content| && item.child == null
      modifies this`offset, this`depth, item`kind, item`child
      ensures Valid() && (ok ==> depth == old(depth))
      ensures if old(content[offset]) == OPEN_OBJECT
        then Agrees(ok, value, Left(), ParseValue(strtod, old(Left()), old(depth)))
        else !ok
      ensures ok ==> Grew(item, shape, value) && fresh(Below(shape)) && forall x :: x in Below(shape) ==> allocated(x)
      decreases |content| - offset, 2, 1
    {
      hide ParseMembers, ParseValue, SkipSpace, Grew, All, Below, FinishObject;
      ok, shape, value := false, Shape(item, []), Null;
      ghost var s := Left();
      if depth >= NESTING_LIMIT && s[0] == OPEN_OBJECT {
        TooDeep(strtod, s, depth);
      }
      var entered := OpenBracket(OPEN_OBJECT);
      if entered {
        JsonParse.ParseObject(strtod, s, depth - 1);
        ok, shape, value := ReadBehindBrace(item);
      }
    }

    /** parse_object() behind its bracket. */
    method ReadBehindBrace(item: Item) returns (ok: bool, ghost shape: Shape, ghost value: Json)
      requires Valid() && 0 < depth && 0 < offset && item.child == null
      modifies this`offset, this`depth, item`kind, item`child
      ensures Valid() && (ok ==> depth == old(depth) - 1)
      ensures var t := old(Left());
        Agrees(ok, value, Left(),
          if t == [] then Failed
          else if t[0] == CLOSE_OBJECT then Read(Object([]), t[1..])
          else FinishObject(ParseMembers(strtod, t, old(depth))))
      ensures ok ==> Grew(item, shape, value) && fresh(Below(shape)) && forall x :: x in Below(shape) ==> allocated(x)
      decreases |content| - offset + 1, 2, 0
    {
      hide ParseMembers, Growing, Grew, All, Below, NamedAll, Values;
      hide Built, Tree, Nodes, Forest, Linked, BuiltAll;
      ok, shape, value := false, Shape(item, []), Null;
      ghost var t := Left();
      var head: Item?, current: Item? := null, null;
      ghost var kids: seq<Shape>, members: seq<Member> := [], [];
      if offset < |content| && content[offset] == CLOSE_OBJECT {
        NothingLinked();
        NothingNamed();
      } else {
        if offset >= |content| {
          return;
        }
        offset := offset - 1;
        assert content[offset + 1..] == t;
        ok, head, current, kids, members := ReadMembers();
        if !ok {
          return;
        }
        if offset >= |content| || content[offset] != CLOSE_OBJECT {
          ok := false;
          return;
        }
      }
      depth := depth - 1;
      CloseObject(item, head, current, kids, members);
      offset := offset + 1;
      ok, shape, value := true, Shape(item, kids), Object(members);
    }

    /** One round of parse_object()'s loop, up to the comma. */
    method ReadPair(head: Item?, current: Item?, ghost kids: seq<Shape>, ghost members: seq<Member>)
      returns (ok: bool, first: Item, last: Item, ghost shape: Shape, ghost member: Member)
      requires Valid() && offset + 1 < |content| && NamedAll(kids, members)
      requires Growing(head, current, kids, Values(members)) && forall x :: x in All(kids) ==> allocated(x)
      modifies this`offset, this`depth, Of(current)`next
      ensures Valid() && (ok ==> depth == old(depth) && old(offset) < offset)
      ensures Agrees(ok, member, Left(), ParseMember(strtod, content[old(offset) + 1..], old(depth)))
      ensures ok ==> Growing(first, last, kids + [shape], Values(members + [member]))
      ensures ok ==> NamedAll(kids + [shape], members + [member]) && fresh(All(kids + [shape]) - All(kids))
      ensures fresh(last) && first == if head == null then last else head
      ensures ok ==> forall x :: x in All(kids + [shape]) ==> allocated(x)
      decreases |content| - offset, 0
    {
      hide ParseMember, Linked, BuiltAll, NamedAll, Forest, All, Nodes, Values, Built, Below, Tree, Growing;
      first, last := AppendNew(head, current, kids, Values(members));
      ghost var before := All(kids);
      offset := offset + 1;
      ok, shape, member := ReadMember(last);
      if ok {
        assert Below(shape) !! before;
        Grown(first, last, kids, Values(members), shape, member.value);
        NamedToo(kids, members, shape, member);
      }
    }

    /** The loop of parse_object(), from the character in front of the first name. */
    method ReadMembers()
      returns (ok: bool, head: Item?, current: Item?, ghost kids: seq<Shape>, ghost members: seq<Member>)
      requires Valid() && offset + 1 < |content|
      modifies this`offset, this`depth
      ensures Valid() && (ok ==> depth == old(depth))
      ensures Agrees(ok, members, Left(), ParseMembers(strtod, content[old(offset) + 1..], old(depth)))
      ensures ok ==> Growing(head, current, kids, Values(members)) && NamedAll(kids, members)
      ensures ok ==> fresh(All(kids)) && (forall x :: x in All(kids) ==> allocated(x)) && (head != null ==> fresh(head))
      decreases |content| - offset, 1
    {
      hide ParseMembers, ParseMember, SkipSpace, Appended;
      hide Growing, NamedAll, Values, All;
      ok, head, current, kids, members := false, null, null, [], [];
      ghost var all := ParseMembers(strtod, content[offset + 1..], depth);
      AppendedToNothing(all);
      NothingLinked();
      NothingNamed();
      var more := true;
      while more
        invariant Valid() && old(offset) <= offset && depth == old(depth)
        invariant more ==>
          offset + 1 < |content| && all == Appended(members, ParseMembers(strtod, content[offset + 1..], depth))
        invariant !more ==> all == Read(members, Left())
        invariant Growing(head, current, kids, Values(members)) && NamedAll(kids, members)
        invariant fresh(All(kids)) && forall x :: x in All(kids) ==> allocated(x)
        invariant (head != null ==> fresh(head)) && (current != null ==> fresh(current))
        decreases |content| - offset, more
      {
        ghost var before := content[offset + 1..];
        var parsed;
        ghost var shape, member;
        parsed, head, current, shape, member := ReadPair(head, current, kids, members);
        if !parsed {
          MembersFail(strtod, before, old(depth));
          AppendedToFailure(members);
          return;
        }
        ghost var rest := Left();
        SkipWhitespace();
        MembersOn(strtod, before, depth, members, member, rest);
        more := offset < |content| && content[offset] == COMMA;
        assert more ==> content[offset + 1..] == Left()[1..];
        kids, members := kids + [shape], members + [member];
      }
      ok := true;
    }

    /** skip_utf8_bom() */
    method SkipMark()
      requires Valid() && offset == 0
      modifies this`offset
      ensures Valid() && Left() == SkipBom(content)
    {
      if 4 < |content| && content[..3] == [0xEF, 0xBB, 0xBF] {
        offset := offset + 3;
      }
      assert |content| > 4 ==> content[..3] == [content[0], content[1], content[2]];
    }
  }

  /**
    * cJSON_ParseWithOpts() on the octets of a C string, its NUL included: a tree of new items, or NULL, and the offset
    * that return_parse_end gets.
    */
  method ParseWithOpts(content: seq<byte>, strtod: Strtod, requireNullTerminated: bool)
    returns (item: Item?, end: nat, ghost shape: Shape)
    requires content != [] && content[|content| - 1] == 0
    ensures var r := Parse(strtod, content, requireNullTerminated);
      && (item != null <==> r.Some?)
      && (item != null ==> shape.node == item && Tree(shape) && Built(shape, r.value))
    ensures item != null ==> fresh(item) && fresh(Below(shape)) && forall x :: x in Below(shape) ==> allocated(x)
    ensures end <= |content| && (item == null ==> end < |content|)
    ensures item != null ==> content[end..] == ParseRest(strtod, content, requireNullTerminated)
  {
    hide ParseValue, SkipSpace, Below, Tree;
    var buffer := new ParseBuffer(content, strtod);
    var newItem := new Item();
    item, end, shape := null, 0, Shape(newItem, []);
    buffer.SkipMark();
    buffer.SkipWhitespace();
    var ok;
    ghost var value;
    ok, shape, value := buffer.ReadValue(newItem);
    end := if buffer.offset < |content| then buffer.offset else |content| - 1;
    if !ok {
      return;
    }
    if requireNullTerminated {
      buffer.SkipWhitespace();
      end := if buffer.offset < |content| then buffer.offset else |content| - 1;
      if buffer.offset >= |content| || content[buffer.offset] != 0 {
        return;
      }
    }
    item, end := newItem, buffer.offset;
  }

  function Appended<T>(a: seq<T>, r: Result<seq<T>>): Result<seq<T>> {
    match r
    case Failed => Failed
    case Read(m, rest) => Read(a + m, rest)
  }

  lemma AppendedToNothing<T>(r: Result<seq<T>>)
    ensures Appended([], r) == r
  {
    if r.Read? {
      assert [] + r.value == r.value;
    }
  }

  lemma AppendedToFailure<T>(a: seq<T>)
    ensures Appended(a, Failed) == Failed
  {
  }

  /** One element further: what is left of the loop of parse_array(). */
  lemma ElementsOn(strtod: Strtod, s: seq<byte>, depth: nat, values: seq<Json>, value: Json, rest: seq<byte>)
    requires ParseValue(strtod, SkipSpace(s), depth) == Read(value, rest)
    ensures var u := SkipSpace(rest);
      Appended(values, ParseElements(strtod, s, depth)) ==
        if u == [] || u[0] != COMMA then Read(values + [value], u)
        else Appended(values + [value], ParseElements(strtod, u[1..], depth))
  {
    hide ParseValue, ParseElements, SkipSpace, Appended;
    var u := SkipSpace(rest);
    ElementsStep(strtod, s, depth, value, rest);
    AppendedStep(values, value, u, if u == [] then Failed else ParseElements(strtod, u[1..], depth));
  }

  lemma MembersOn(strtod: Strtod, s: seq<byte>, depth: nat, members: seq<Member>, m: Member, rest: seq<byte>)
    requires ParseMember(strtod, s, depth) == Read(m, rest)
    ensures var u := SkipSpace(rest);
      Appended(members, ParseMembers(strtod, s, depth)) ==
        if u == [] || u[0] != COMMA then Read(members + [m], u)
        else Appended(members + [m], ParseMembers(strtod, u[1..], depth))
  {
    hide ParseMember, ParseMembers, SkipSpace, Appended;
    var u := SkipSpace(rest);
    MembersStep(strtod, s, depth, m, rest);
    AppendedStep(members, m, u, if u == [] then Failed else ParseMembers(strtod, u[1..], depth));
  }

  lemma AppendedStep<T>(a: seq<T>, x: T, u: seq<byte>, more: Result<seq<T>>)
    ensures Appended(a, Consed(x, more)) == Appended(a + [x], more)
    ensures Appended(a, Read([x], u)) == Read(a + [x], u)
  {
    if more.Read? {
      assert a + ([x] + more.value) == a + [x] + more.value;
    }
  }

  ghost predicate Agrees<T(!new)>(ok: bool, value: T, left: seq<byte>, r: Result<T>) {
    (ok <==> r.Read?) && (ok ==> value == r.value && left == r.rest)
  }

  lemma {:induction false} NumberPrefixMaximal(s: seq<byte>, limit: nat)
    ensures var n := |NumberPrefix(s, limit)|;
      && (forall i :: 0 <= i < n ==> NumberChar(s[i]))
      && (n < limit && n < |s| ==> !NumberChar(s[n]))
    decreases limit
  {
    if limit > 0 && s != [] && NumberChar(s[0]) {
      NumberPrefixMaximal(s[1..], limit - 1);
    }
  }

  function Prefixed(a: seq<byte>, r: Option<seq<byte>>): Option<seq<byte>> {
    match r
    case None => None
    case Some(m) => Some(a + m)
  }

  lemma PrefixedByNothing(a: seq<byte>, r: Option<seq<byte>>)
    requires a == []
    ensures Prefixed(a, r) == r
  {
    if r.Some? {
      assert a + r.value == r.value;
    }
  }

  lemma PrefixedTwice(a: seq<byte>, b: seq<byte>, r: Option<seq<byte>>)
    ensures Prefixed(a, Prefixed(b, r)) == Prefixed(a + b, r)
  {
    if r.Some? {
      assert a + (b + r.value) == a + b + r.value;
    }
  }

  lemma UnescapeNothing()
    ensures Unescape([]) == Some([]) && Skips([], false) == 0 && Skips([], true) == 0
  {
  }

  lemma UnescapeByUnit(s: seq<byte>)
    requires s != []
    ensures var (out, n) := Unit(s);
      Unescape(s) == if n == 0 then None else if n > |s| then Some(out) else Prefixed(out, Unescape(s[n..]))
  {
    hide Unit;
    var (out, n) := Unit(s);
    if n == |s| {
      assert s[n..] == [] && out + [] == out;
    }
  }

  /** How far one unit can bring the buffer: UnitFits, and one octet for the closing quote taken as an escaped one. */
  lemma UnitRoom(s: seq<byte>, jumped: bool)
    requires s != []
    ensures var (out, n) := Unit(s);
      && n <= |s| + 1
      && (0 < n <= |s| ==>
            && |out| + Skips(s, jumped) <= n + Skips(s[n..], JumpsAfter(s[..n], jumped))
            && Skips(s[n..], JumpsAfter(s[..n], jumped)) <= |s| - n)
      && (n > |s| ==> |out| == 1 && |s| == 1 && Skips(s, jumped) <= 1)
  {
    hide EscapePoint, Utf8.Encode, ShortUnescape;
    var (out, n) := Unit(s);
    SkipsBound(s, jumped);
    if 0 < n <= |s| {
      UnitFits(s, jumped);
      SkipsBound(s[n..], JumpsAfter(s[..n], jumped));
    }
  }

  lemma SkipsFit(s: seq<byte>)
    ensures Skips(s, false) <= |s|
  {
    SkipsBound(s, false);
  }

  /** (unsigned char)((codepoint | 0x80) & 0xBF) */
  function TailOctet(v: bv32): byte { ((v | 0x80) & 0xBF) as byte }

  /** (unsigned char)((codepoint | first_byte_mark) & 0xFF) */
  function FirstOctet(v: bv32, mark: bv32): byte { ((v | mark) & 0xFF) as byte }

  /** codepoint >>= 6 */
  function Shift6(v: bv32): bv32 { v >> 6 }

  function Shifted(v: bv32, steps: nat): bv32 {
    if steps == 0 then v else Shift6(Shifted(v, steps - 1))
  }

  lemma EncodeByLoop(v: bv32)
    requires Utf8Bits.IsScalar(v)
    ensures Shifted(v, 0) == v
    ensures var n := if v < 0x80 then 1 else if v < 0x800 then 2 else if v < 0x10000 then 3 else 4;
      var mark: bv32 := if v < 0x80 then 0 else if v < 0x800 then 0xC0 else if v < 0x10000 then 0xE0 else 0xF0;
      var c := Utf8.Encode(v);
      && |c| == n && c[0] == (if n == 1 then (v & 0x7F) as byte else FirstOctet(Shifted(v, n - 1), mark))
      && forall i :: 0 < i < n ==> c[i] == TailOctet(Shifted(v, n - 1 - i))
  {
    hide TailOctet, FirstOctet, Utf8Bits.Tail0, Utf8Bits.Tail6, Utf8Bits.Tail12, Utf8Bits.Lead2, Utf8Bits.Lead3,
      Utf8Bits.Lead4, Shift6, Shifted;
    ShiftedTo(v);
    OctetsOfSteps(v);
  }

  lemma ShiftedTo(v: bv32)
    ensures Shifted(v, 0) == v && Shifted(v, 1) == Shift6(v)
    ensures Shifted(v, 2) == Shift6(Shift6(v)) && Shifted(v, 3) == Shift6(Shift6(Shift6(v)))
  {
    hide Shift6;
    assert Shifted(v, 1) == Shift6(Shifted(v, 0));
    assert Shifted(v, 2) == Shift6(Shifted(v, 1));
  }

  lemma OctetsOfSteps(v: bv32)
    ensures TailOctet(v) == Utf8Bits.Tail0(v)
    ensures TailOctet(Shift6(v)) == Utf8Bits.Tail6(v)
    ensures TailOctet(Shift6(Shift6(v))) == Utf8Bits.Tail12(v)
    ensures v < 0x80 ==> (v & 0x7F) as byte == v as byte
    ensures v <= 0x7FF ==> FirstOctet(Shift6(v), 0xC0) == Utf8Bits.Lead2(v)
    ensures v <= 0xFFFF ==> FirstOctet(Shift6(Shift6(v)), 0xE0) == Utf8Bits.Lead3(v)
    ensures v <= 0x10FFFF ==> FirstOctet(Shift6(Shift6(Shift6(v))), 0xF0) == Utf8Bits.Lead4(v)
  {
  }

  /** h << 4 */
  function HighDigits(h: bv32): bv32 { h << 4 }

  function PlusDigit(h: bv32, digit: bv32): bv32 { h + digit }

  lemma NoDigits()
    ensures HighDigits(0) == 0
  {
  }

  /** The digits of parse_hex4() up to k, folded from the left. */
  function HexFold(s: seq<byte>, k: nat): Option<bv32>
    requires k <= |s|
  {
    if k == 0 then Some(0)
    else
      match (HexFold(s, k - 1), HexValue(s[k - 1]))
      case (Some(h), Some(v)) => Some(PlusDigit(HighDigits(h), v))
      case _ => None
  }

  lemma HexFoldFails(s: seq<byte>, k: nat)
    requires 0 < k <= 4 <= |s| && HexValue(s[k - 1]).None?
    ensures Hex4(s) == 0
  {
    hide HexValue;
  }

  lemma HexFoldIsHex4(s: seq<byte>)
    requires |s| >= 4 && HexFold(s, 4).Some?
    ensures Hex4(s) == HexFold(s, 4).value
  {
    hide HexValue, PlusDigit, HighDigits, JoinDigits;
    assert HexFold(s, 3).Some? && HexFold(s, 2).Some? && HexFold(s, 1).Some? && HexFold(s, 0) == Some(0);
    HexValueBound(s[0]);
    HexValueBound(s[1]);
    HexValueBound(s[2]);
    HexValueBound(s[3]);
    Horner(HexValue(s[0]).value, HexValue(s[1]).value, HexValue(s[2]).value, HexValue(s[3]).value);
  }

  lemma Horner(a: bv32, b: bv32, c: bv32, d: bv32)
    requires a < 16 && b < 16 && c < 16 && d < 16
    ensures PlusDigit(HighDigits(PlusDigit(HighDigits(PlusDigit(HighDigits(PlusDigit(HighDigits(0), a)), b)), c)), d)
      == JoinDigits(a, b, c, d)
  {
  }

  lemma Hex4Prefix(s: seq<byte>, t: seq<byte>)
    requires |s| >= 4 && |t| >= 4 && s[..4] == t[..4]
    ensures Hex4(s) == Hex4(t)
  {
    hide HexValue, JoinDigits;
    assert s[0] == s[..4][0] && s[1] == s[..4][1] && s[2] == s[..4][2] && s[3] == s[..4][3];
  }

  lemma ScanStep(content: seq<byte>, at: nat)
    requires at < |content| && content[at] != QUOTE
    ensures var next, here := at + (if content[at] == BACKSLASH then 2 else 1), ClosingQuote(content[at..]);
      if next > |content| then here.None?
      else
        var there := ClosingQuote(content[next..]);
        && (here.Some? <==> there.Some?)
        && (here.Some? ==>
              && at + here.value == next + there.value
              && var close := at + here.value;
                 Skips(content[at..close], false) == (next - at - 1) + Skips(content[next..close], false))
  {
    var s, here := content[at..], ClosingQuote(content[at..]);
    var k := if content[at] == BACKSLASH then 2 else 1;
    if at + k <= |content| {
      assert s[k..] == content[at + k..];
      if here.Some? {
        var text := content[at..at + here.value];
        assert text[1..] == content[at + 1..at + here.value];
        assert k == 2 ==> text[1..][1..] == content[at + 2..at + here.value];
      }
    }
  }

  lemma ScanEnd(content: seq<byte>, at: nat)
    requires at <= |content| && (at < |content| ==> content[at] == QUOTE)
    ensures ClosingQuote(content[at..]) == if at == |content| then None else Some(0)
    ensures Skips([], false) == 0
  {
  }
}
