/** printbuffer of cJSON.c: a buffer that is regrown by ensure(), and the printer that writes into it. */
module JsonWriter {
  import opened Wrappers
  import opened Bytes
  import opened JsonText
  import opened JsonItems
  import opened JsonTrees

  class PrintBuffer {
    var buffer: array<byte>
    var offset: nat
    var depth: nat
    const noalloc: bool
    const format: bool
    const lib: Library

    /** buffer.Length is the field length; offset is a place in the buffer, unless the buffer is empty. */
    ghost predicate Valid()
      reads this`buffer, this`offset
    {
      buffer.Length <= INT_MAX && (offset < buffer.Length || (offset == 0 && buffer.Length == 0))
    }

    /** How large the buffer can get. */
    function Capacity(): nat
      reads this`buffer
    {
      if noalloc then buffer.Length else INT_MAX
    }

    /** What has been written so far. */
    ghost function Written(): seq<byte>
      requires Valid()
      reads this`buffer, this`offset, buffer
    {
      buffer[..offset]
    }

    constructor (buffer: array<byte>, noalloc: bool, format: bool, lib: Library)
      requires buffer.Length <= INT_MAX
      ensures Valid() && this.buffer == buffer && this.noalloc == noalloc && this.format == format && this.lib == lib
      ensures offset == 0 && depth == 0
    {
      this.buffer, this.noalloc, this.format, this.lib := buffer, noalloc, format, lib;
      offset, depth := 0, 0;
    }

    /** ensure(): room for needed octets and one more behind the offset, if the capacity allows it. */
    method Ensure(needed: nat) returns (ok: bool)
      requires Valid()
      modifies this`buffer
      ensures Valid() && Written() == old(Written())
      ensures ok <==> offset + needed + 1 <= old(Capacity())
      ensures ok ==> offset + needed + 1 <= buffer.Length
      ensures buffer == old(buffer) || (fresh(buffer) && !noalloc)
    {
      if buffer.Length > 0 && offset >= buffer.Length {
        return false;
      }
      if needed > INT_MAX {
        return false;
      }
      var total := needed + offset + 1;
      if total <= buffer.Length {
        return true;
      }
      if noalloc {
        return false;
      }
      var newsize;
      if total > INT_MAX / 2 {
        if total > INT_MAX {
          return false;
        }
        newsize := INT_MAX;
      } else {
        newsize := total * 2;
      }
      var newbuffer := new byte[newsize];
      forall i | 0 <= i < buffer.Length {
        newbuffer[i] := buffer[i];
      }
      buffer := newbuffer;
      return true;
    }

    /** update_offset(): forward to the next NUL. */
    method UpdateOffset()
      requires Valid() && 0 in buffer[offset..]
      modifies this`offset
      ensures Valid() && offset == old(offset) + StrLen(old(buffer[offset..]))
    {
      ghost var s := buffer[offset..];
      ghost var n := StrLen(s);
      var length := 0;
      while buffer[offset + length] != 0
        invariant length <= n
        decreases n - length
      {
        assert s[length] != 0;
        length := length + 1;
      }
      offset := offset + length;
    }

    /** After a value: its text and a NUL stand behind what was there before, and offset is somewhere in that text. */
    ghost predicate Shows(before: seq<byte>, text: seq<byte>)
      requires Valid()
      reads this`buffer, this`offset, buffer
    {
      var start := |before|;
      && start <= offset <= start + |text| < buffer.Length
      && buffer[..start] == before && buffer[start..start + |text|] == text && buffer[start + |text|] == 0
    }

    /** The strcpy() of a whole text at the offset. */
    method Copy(text: seq<byte>)
      requires Valid() && offset + |text| < buffer.Length
      modifies buffer
      ensures Valid() && Shows(old(Written()), text) && offset == old(offset)
    {
      forall i | 0 <= i < |text| {
        buffer[offset + i] := text[i];
      }
      buffer[offset + |text|] := 0;
    }

    /** The first pass of print_string_ptr(): how long the escaped string is. */
    static method MeasureString(input: seq<byte>) returns (outputLength: nat, escapeCharacters: nat)
      ensures outputLength == |EscapedAll(input)| == |input| + escapeCharacters
    {
      hide Escaped;
      escapeCharacters := 0;
      var i := 0;
      while i < |input|
        invariant i <= |input| && |EscapedAll(input)| == i + escapeCharacters + |EscapedAll(input[i..])|
        decreases |input| - i
      {
        var c := input[i];
        EscapedLength(c);
        match c {
        case 0x22 => escapeCharacters := escapeCharacters + 1;
        case 0x5C => escapeCharacters := escapeCharacters + 1;
        case 0x08 => escapeCharacters := escapeCharacters + 1;
        case 0x0C => escapeCharacters := escapeCharacters + 1;
        case 0x0A => escapeCharacters := escapeCharacters + 1;
        case 0x0D => escapeCharacters := escapeCharacters + 1;
        case 0x09 => escapeCharacters := escapeCharacters + 1;
        case _ =>
          if c < 32 {
            escapeCharacters := escapeCharacters + 5;
          }
        }
        assert input[i..][1..] == input[i + 1..];
        i := i + 1;
      }
      outputLength := i + escapeCharacters;
    }

    /** One character of the second pass, written at 'at'; sprintf() puts a NUL behind its digits. */
    method WriteCharacter(c: byte, at: nat) returns (next: nat)
      requires at + |Escaped(c)| < buffer.Length
      modifies buffer
      ensures next == at + |Escaped(c)| && buffer[..at] == old(buffer[..at]) && buffer[at..next] == Escaped(c)
    {
      EscapedLength(c);
      if c > 31 && c != QUOTE && c != BACKSLASH {
        buffer[at] := c;
        next := at + 1;
      } else {
        buffer[at] := BACKSLASH;
        next := at + 2;
        match c
        case 0x5C => buffer[at + 1] := BACKSLASH;
        case 0x22 => buffer[at + 1] := QUOTE;
        case 0x08 => buffer[at + 1] := 0x62;
        case 0x0C => buffer[at + 1] := 0x66;
        case 0x0A => buffer[at + 1] := 0x6E;
        case 0x0D => buffer[at + 1] := 0x72;
        case 0x09 => buffer[at + 1] := 0x74;
        case _ =>
          buffer[at + 1], buffer[at + 2], buffer[at + 3] := LETTER_U, 0x30, 0x30;
          buffer[at + 4], buffer[at + 5], buffer[at + 6] := HexDigit(c >> 4), HexDigit(c & 0xF), 0;
          next := at + 6;
      }
    }

    /** The second pass of print_string_ptr(): exactly the octets that the first pass counted. */
    method WriteString(input: seq<byte>, start: nat) returns (next: nat)
      requires start + |EscapedAll(input)| < buffer.Length
      modifies buffer
      ensures next == start + |EscapedAll(input)|
      ensures buffer[..start] == old(buffer[..start]) && buffer[start..next] == EscapedAll(input)
    {
      hide Escaped;
      next := start;
      for i := 0 to |input|
        invariant start <= next && next + |EscapedAll(input[i..])| == start + |EscapedAll(input)|
        invariant buffer[..start] == old(buffer[..start])
        invariant buffer[start..next] + EscapedAll(input[i..]) == EscapedAll(input)
      {
        ghost var before, rest := buffer[start..next], EscapedAll(input[i + 1..]);
        assert input[i..][1..] == input[i + 1..];
        ghost var at := next;
        next := WriteCharacter(input[i], next);
        assert buffer[start..next] == before + Escaped(input[i]) by {
          assert buffer[start..at] == buffer[..at][start..];
        }
        assert before + (Escaped(input[i]) + rest) == before + Escaped(input[i]) + rest;
      }
    }

    /** print_string_ptr() for a C string. */
    method PrintString(input: seq<byte>) returns (ok: bool)
      requires Valid()
      modifies this`buffer, buffer
      ensures Valid() && offset == old(offset)
      ensures buffer == old(buffer) || (fresh(buffer) && !noalloc)
      ensures ok <==> old(offset) + |Quoted(input)| + 2 <= old(Capacity())
      ensures ok ==> Shows(old(Written()), Quoted(input))
    {
      hide EscapedAll;
      var outputLength, escapeCharacters := MeasureString(input);
      ok := Ensure(outputLength + 3);
      if !ok {
        return;
      }
      if escapeCharacters == 0 {
        NothingEscaped(input);
        CopyQuoted(input);
      } else {
        WriteQuoted(input, outputLength);
      }
    }

    /** The branch where no character has to be escaped: memcpy() between two quotes. */
    method CopyQuoted(input: seq<byte>)
      requires Valid() && offset + |input| + 2 < buffer.Length
      modifies buffer
      ensures Valid() && offset == old(offset) && Shows(old(Written()), [QUOTE] + input + [QUOTE])
    {
      var length := |input|;
      buffer[offset] := QUOTE;
      var end := offset + 1 + length;
      ghost var first := buffer[..offset + 1];
      forall i | 0 <= i < length {
        buffer[offset + 1 + i] := input[i];
      }
      assert buffer[..end] == first + input;
      buffer[end] := QUOTE;
      buffer[end + 1] := 0;
      assert buffer[..end] == first + input;
      assert first == old(Written()) + [QUOTE];
      assert buffer[..end + 1] == old(Written()) + ([QUOTE] + input + [QUOTE]);
      ShowsFromStart(old(Written()), [QUOTE] + input + [QUOTE]);
    }

    /** The branch with escapes. */
    method WriteQuoted(input: seq<byte>, outputLength: nat)
      requires Valid() && outputLength == |EscapedAll(input)| && offset + outputLength + 2 < buffer.Length
      modifies buffer
      ensures Valid() && offset == old(offset) && Shows(old(Written()), Quoted(input))
    {
      hide EscapedAll;
      buffer[offset] := QUOTE;
      ghost var first := buffer[..offset + 1];
      var next := WriteString(input, offset + 1);
      ghost var text := buffer[offset + 1..next];
      assert buffer[..next] == first + text;
      buffer[offset + outputLength + 1] := QUOTE;
      buffer[offset + outputLength + 2] := 0;
      assert buffer[..next + 1] == first + text + [QUOTE];
      assert first == old(Written()) + [QUOTE];
      assert buffer[..next + 1] == old(Written()) + Quoted(input);
      ShowsFromStart(old(Written()), Quoted(input));
    }

    lemma ShowsFromStart(before: seq<byte>, text: seq<byte>)
      requires Valid() && offset == |before| && offset + |text| < buffer.Length && buffer[offset + |text|] == 0
      requires buffer[..offset + |text|] == before + text
      ensures Shows(before, text)
    {
      assert buffer[..offset] == buffer[..offset + |text|][..offset];
      assert buffer[offset..offset + |text|] == buffer[..offset + |text|][offset..];
    }

    /** print_number() */
    method PrintNumber(item: Item, ghost value: Double) returns (ok: bool)
      requires Valid() && HoldsNumber(item, value)
      modifies this`buffer, this`offset, buffer
      ensures Valid()
      ensures buffer == old(buffer) || (fresh(buffer) && !noalloc)
      ensures ok <==> old(offset) + |NumberText(lib, value)| + 2 <= old(Capacity())
      ensures ok ==> Shows(old(Written()), NumberText(lib, value))
    {
      hide IntOf, Decimal, CompareDouble;
      var d := item.valuedouble;
      var number: seq<byte>;
      if !d.Finite? {
        number := NULL_TEXT;
      } else if d == Finite(item.valueint as real) {
        number := Decimal(item.valueint);
      } else {
        number := lib.shorter(d.value);
        var test := lib.strtod(number);
        if !test.Converted? || !CompareDouble(test.value, d.value) {
          number := lib.longer(d.value);
        }
      }
      var length := |number|;
      NumberFits(lib, value);
      assert length <= NUMERAL_CHARS;
      ok := Ensure(length + 1);
      if !ok {
        return;
      }
      Copy(number);
      offset := offset + length;
    }

    /** update_offset() behind a value: to the end of its text. */
    method Advance(ghost before: seq<byte>, ghost text: seq<byte>)
      requires Valid() && Shows(before, text) && 0 !in text
      modifies this`offset
      ensures Valid() && Written() == before + text
    {
      ghost var s, end := buffer[offset..], |before| + |text|;
      assert s[end - offset] == 0 && end - offset < |s|;
      assert s[..end - offset] == text[offset - |before|..];
      StrLenIs(s, end - offset);
      UpdateOffset();
      assert buffer[..end] == buffer[..|before|] + buffer[|before|..end];
    }

    /** Some characters through output_pointer, and offset moved behind them. */
    method Put(text: seq<byte>)
      requires Valid() && offset + |text| < buffer.Length
      modifies this`offset, buffer
      ensures Valid() && Written() == old(Written()) + text
    {
      forall i | 0 <= i < |text| {
        buffer[offset + i] := text[i];
      }
      offset := offset + |text|;
    }

    /** The same, with a NUL behind them. */
    method PutTerminated(text: seq<byte>)
      requires Valid() && offset + |text| < buffer.Length
      modifies this`offset, buffer
      ensures Valid() && Written() == old(Written()) + text
    {
      Copy(text);
      ghost var before := buffer[..offset];
      assert buffer[..offset + |text|] == before + buffer[offset..offset + |text|];
      offset := offset + |text|;
    }

    /** print_value(): succeeds exactly when the text, its NUL and one more octet fit. */
    method PrintValue(item: Item, ghost shape: Shape, ghost value: Json) returns (ok: bool)
      requires Valid() && Printable(value) && shape.node == item && Built(shape, value)
      requires forall x :: x in Below(shape) ==> allocated(x)
      modifies this`buffer, this`offset, this`depth, buffer
      ensures Valid() && (ok ==> depth == old(depth))
      ensures buffer == old(buffer) || (fresh(buffer) && !noalloc)
      ensures var text := Text(lib, value, format, old(depth));
        && (ok <==> old(offset) + |text| + 2 <= old(Capacity()))
        && (ok ==> Shows(old(Written()), text))
      decreases value, 1
    {
      hide Quoted, NumberText;
      ok := false;
      if item.kind == CJSON_NULL {
        ok := Ensure(5);
        if ok {
          Copy(NULL_TEXT);
        }
      } else if item.kind == CJSON_FALSE {
        ok := Ensure(6);
        if ok {
          Copy(FALSE_TEXT);
        }
      } else if item.kind == CJSON_TRUE {
        ok := Ensure(5);
        if ok {
          Copy(TRUE_TEXT);
        }
      } else if item.kind == CJSON_NUMBER {
        ok := PrintNumber(item, value.value);
      } else if item.kind == CJSON_RAW {
        var text := item.valuestring.value;
        ok := Ensure(|text| + 1);
        if ok {
          Copy(text);
        }
      } else if item.kind == CJSON_STRING {
        ok := PrintString(item.valuestring.value);
      } else if item.kind == CJSON_ARRAY {
        ArrayParts(shape, value.items);
        ok := PrintArray(item, shape.kids, value.items);
      } else if item.kind == CJSON_OBJECT {
        ObjectParts(shape, value.members);
        ok := PrintObject(item, shape.kids, value.members);
      }
    }

    /** print_array() */
    method PrintArray(item: Item, ghost kids: seq<Shape>, ghost items: seq<Json>) returns (ok: bool)
      requires Valid() && Printable(Array(items)) && Children(item, Nodes(kids)) && BuiltAll(kids, items)
      requires forall x :: x in All(kids) ==> allocated(x)
      modifies this`buffer, this`offset, this`depth, buffer
      ensures Valid() && (ok ==> depth == old(depth))
      ensures buffer == old(buffer) || (fresh(buffer) && !noalloc)
      ensures var text := Text(lib, Array(items), format, old(depth));
        && (ok <==> old(offset) + |text| + 2 <= old(Capacity()))
        && (ok ==> Shows(old(Written()), text))
      decreases items, 2
    {
      hide Text, ItemsText, Printable, PrintBuffer.Shows, Children, BuiltAll, All, Nodes;
      ghost var before, inner := Written(), ItemsText(lib, items, format, depth + 1);
      ArrayText(lib, items, format, depth);
      ok := Open([OPEN_ARRAY], 1);
      if !ok {
        return;
      }
      ok := PrintItems(item, kids, items);
      if !ok {
        return;
      }
      assert Written() == before + ([OPEN_ARRAY] + inner);
      ok := Close([CLOSE_ARRAY], before, [OPEN_ARRAY] + inner);
      depth := depth - 1;
    }

    /** The first characters of an array or object. */
    method Open(opening: seq<byte>, needed: nat) returns (ok: bool)
      requires Valid() && |opening| <= needed
      modifies this`buffer, this`offset, this`depth, buffer
      ensures Valid() && (buffer == old(buffer) || (fresh(buffer) && !noalloc))
      ensures ok <==> old(offset) + needed + 1 <= old(Capacity())
      ensures ok ==> depth == old(depth) + 1 && Written() == old(Written()) + opening
    {
      ok := Ensure(needed);
      if ok {
        Put(opening);
        depth := depth + 1;
      }
    }

    /** The last characters of an array or object, behind all that belongs to it. */
    method Close(closing: seq<byte>, ghost before: seq<byte>, ghost body: seq<byte>) returns (ok: bool)
      requires Valid() && Written() == before + body
      modifies this`buffer, buffer
      ensures Valid() && (buffer == old(buffer) || (fresh(buffer) && !noalloc))
      ensures ok <==> |before + body + closing| + 2 <= old(Capacity())
      ensures ok ==> Shows(before, body + closing)
    {
      ok := Ensure(|closing| + 1);
      if ok {
        Copy(closing);
        ShowsJoined(before, body, closing);
      }
    }

    /** A text shown behind another text shows both. */
    lemma ShowsJoined(before: seq<byte>, a: seq<byte>, b: seq<byte>)
      requires Valid() && Shows(before + a, b)
      ensures Shows(before, a + b)
    {
      var m, n := |before|, |before + a|;
      assert buffer[..m] == buffer[..n][..m];
      assert buffer[m..n + |b|] == buffer[..n][m..] + buffer[n..n + |b|];
    }

    /** One round of print_array()'s loop: an element, and the separator unless it is the last. */
    method PrintItem(item: Item, ghost shape: Shape, ghost value: Json) returns (ok: bool)
      requires Valid() && Printable(value) && shape.node == item && Built(shape, value)
      requires forall x :: x in Below(shape) ==> allocated(x)
      modifies this`buffer, this`offset, this`depth, buffer
      ensures Valid() && (ok ==> depth == old(depth))
      ensures buffer == old(buffer) || (fresh(buffer) && !noalloc)
      ensures var separator := if item.next == null then [] else ItemSeparator(format);
        var text := Text(lib, value, format, old(depth)) + separator;
        if ok then Written() == old(Written()) + text else old(offset) + |text| + 2 > old(Capacity())
      decreases value, 2
    {
      hide Text, Printable, Built;
      ghost var text, here := Text(lib, value, format, depth), Written();
      TextHasNoNul(lib, value, format, depth);
      ok := PrintValue(item, shape, value);
      if !ok {
        return;
      }
      Advance(here, text);
      if item.next == null {
        assert text + [] == text;
        return;
      }
      var separator: seq<byte> := if format then [COMMA, SPACE] else [COMMA];
      ok := Ensure(|separator| + 1);
      if !ok {
        return;
      }
      PutTerminated(separator);
      assert here + text + separator == here + (text + separator);
    }

    /** The loop of print_array() along the links of the elements; a closing bracket is still to come. */
    method PrintItems(item: Item, ghost kids: seq<Shape>, ghost items: seq<Json>) returns (ok: bool)
      requires Valid() && (forall x :: x in items ==> Printable(x))
      requires Children(item, Nodes(kids)) && BuiltAll(kids, items)
      requires forall x :: x in All(kids) ==> allocated(x)
      modifies this`buffer, this`offset, this`depth, buffer
      ensures Valid() && (ok ==> depth == old(depth))
      ensures buffer == old(buffer) || (fresh(buffer) && !noalloc)
      ensures var text := ItemsText(lib, items, format, old(depth));
        if ok then Written() == old(Written()) + text else old(offset) + |text| + 3 > old(Capacity())
      decreases items, 1
    {
      hide Text, ItemsText, Printable, Built, Children, BuiltAll, All, Nodes;
      ghost var d, start, all := depth, Written(), ItemsText(lib, items, format, depth);
      ghost var done: seq<byte>, i := [], 0;
      FirstChild(item, kids);
      SameLength(kids, items);
      var current := item.child;
      assert items[0..] == items;
      while current != null
        invariant i <= |items| && current == At(Nodes(kids), i)
        invariant Valid() && depth == d && (buffer == old(buffer) || (fresh(buffer) && !noalloc))
        invariant Written() == start + done && all == done + ItemsText(lib, items[i..], format, d)
        decreases |items| - i
      {
        NextChild(item, kids, i);
        BuiltAt(kids, items, i);
        ghost var text := Text(lib, items[i], format, d) + if i + 1 == |items| then [] else ItemSeparator(format);
        ghost var rest := ItemsText(lib, items[i + 1..], format, d);
        ItemsTextFrom(lib, items, i, format, d);
        ok := PrintItem(current, kids[i], items[i]);
        assert all == done + text + rest;
        if !ok {
          return;
        }
        assert Written() == start + (done + text);
        done := done + text;
        i := i + 1;
        current := current.next;
      }
      assert i == |items|;
      ItemsTextFrom(lib, items, i, format, d);
      assert done + [] == done;
      ok := true;
    }

    /** The tabs, the name, the colon and the value of one member. */
    method PrintMember(item: Item, ghost shape: Shape, ghost m: Member) returns (ok: bool)
      requires Valid() && 0 !in m.name && Printable(m.value)
      requires shape.node == item && item.name == Some(m.name) && Built(shape, m.value)
      requires forall x :: x in Below(shape) ==> allocated(x)
      modifies this`buffer, this`offset, this`depth, buffer
      ensures Valid() && (ok ==> depth == old(depth))
      ensures buffer == old(buffer) || (fresh(buffer) && !noalloc)
      ensures var text := MemberText(lib, m, format, old(depth));
        if ok then Written() == old(Written()) + text else old(offset) + |text| + 2 > old(Capacity())
      decreases m, 2
    {
      hide Text, Quoted, Tabs, PrintBuffer.Shows, Printable, Built;
      ghost var before, value := Written(), Text(lib, m.value, format, depth);
      ghost var key := (if format then Tabs(depth) else []) + Quoted(m.name) + MemberColon(format);
      ok := PrintKey(item.name.value);
      if !ok {
        return;
      }
      ok := PrintValue(item, shape, m.value);
      if !ok {
        return;
      }
      TextHasNoNul(lib, m.value, format, depth);
      Advance(before + key, value);
      assert before + key + value == before + (key + value);
    }

    /** The tabs, the name and the colon of one member. */
    method PrintKey(name: seq<byte>) returns (ok: bool)
      requires Valid() && 0 !in name
      modifies this`buffer, this`offset, buffer
      ensures Valid() && (buffer == old(buffer) || (fresh(buffer) && !noalloc))
      ensures var key := (if format then Tabs(depth) else []) + Quoted(name) + MemberColon(format);
        if ok then Written() == old(Written()) + key else old(offset) + |key| + 1 > old(Capacity())
    {
      hide Quoted, Tabs, PrintBuffer.Shows;
      ghost var before, tabs := Written(), if format then Tabs(depth) else [];
      QuotedLength(name);
      if format {
        ok := Ensure(depth);
        if !ok {
          return;
        }
        Put(Tabs(depth));
      }
      assert Written() == before + tabs;
      ok := PrintString(name);
      if !ok {
        return;
      }
      QuotedHasNoNul(name);
      Advance(before + tabs, Quoted(name));
      ok := PrintColon();
      assert before + tabs + Quoted(name) + MemberColon(format) == before + (tabs + Quoted(name) + MemberColon(format));
    }

    method PrintColon() returns (ok: bool)
      requires Valid()
      modifies this`buffer, this`offset, buffer
      ensures Valid() && (buffer == old(buffer) || (fresh(buffer) && !noalloc))
      ensures if ok then Written() == old(Written()) + MemberColon(format)
              else old(offset) + |MemberColon(format)| + 1 > old(Capacity())
    {
      var colon: seq<byte> := if format then [COLON, TAB] else [COLON];
      ok := Ensure(|colon|);
      if ok {
        Put(colon);
      }
    }

    /** What stands between two members, or behind the last. */
    method PrintMemberEnd(last: bool) returns (ok: bool)
      requires Valid()
      modifies this`buffer, this`offset, buffer
      ensures Valid() && (buffer == old(buffer) || (fresh(buffer) && !noalloc))
      ensures if ok then Written() == old(Written()) + MemberEnd(format, last)
              else old(offset) + |MemberEnd(format, last)| + 2 > old(Capacity())
    {
      var end: seq<byte> := (if last then [] else [COMMA]) + (if format then [NEWLINE] else []);
      ok := Ensure(|end| + 1);
      if ok {
        PutTerminated(end);
      }
    }

    /** One round of print_object()'s loop: a member and what stands behind it. */
    method PrintRound(item: Item, ghost shape: Shape, ghost m: Member) returns (ok: bool)
      requires Valid() && 0 !in m.name && Printable(m.value)
      requires shape.node == item && item.name == Some(m.name) && Built(shape, m.value)
      requires forall x :: x in Below(shape) ==> allocated(x)
      modifies this`buffer, this`offset, this`depth, buffer
      ensures Valid() && (ok ==> depth == old(depth))
      ensures buffer == old(buffer) || (fresh(buffer) && !noalloc)
      ensures var text := MemberText(lib, m, format, old(depth)) + MemberEnd(format, item.next == null);
        if ok then Written() == old(Written()) + text else old(offset) + |text| + 2 > old(Capacity())
      decreases m, 3
    {
      hide MemberText, Printable, MemberEnd, Built;
      ghost var before, text, end := Written(), MemberText(lib, m, format, depth), MemberEnd(format, item.next == null);
      ok := PrintMember(item, shape, m);
      if !ok {
        return;
      }
      ok := PrintMemberEnd(item.next == null);
      assert before + text + end == before + (text + end);
    }

    /** The loop of print_object() along the links of the members; the closing brace is still to come. */
    method PrintMembers(item: Item, ghost kids: seq<Shape>, ghost members: seq<Member>) returns (ok: bool)
      requires Valid() && (forall m :: m in members ==> 0 !in m.name && Printable(m.value))
      requires Children(item, Nodes(kids)) && BuiltAll(kids, Values(members)) && NamedAll(kids, members)
      requires forall x :: x in All(kids) ==> allocated(x)
      modifies this`buffer, this`offset, this`depth, buffer
      ensures Valid() && (ok ==> depth == old(depth))
      ensures buffer == old(buffer) || (fresh(buffer) && !noalloc)
      ensures var text := MembersText(lib, members, format, old(depth));
        if ok then Written() == old(Written()) + text else old(offset) + |text| + 3 > old(Capacity())
      decreases members, 1
    {
      hide MemberText, MembersText, Printable, MemberEnd, Built, Children, BuiltAll, NamedAll, Values, All, Nodes;
      ghost var d, start, all := depth, Written(), MembersText(lib, members, format, depth);
      ghost var done: seq<byte>, i := [], 0;
      FirstChild(item, kids);
      SameLength(kids, Values(members));
      var current := item.child;
      assert members[0..] == members;
      while current != null
        invariant i <= |members| && current == At(Nodes(kids), i)
        invariant Valid() && depth == d && (buffer == old(buffer) || (fresh(buffer) && !noalloc))
        invariant Written() == start + done && all == done + MembersText(lib, members[i..], format, d)
        decreases |members| - i
      {
        NextChild(item, kids, i);
        BuiltAt(kids, Values(members), i);
        NamedAt(kids, members, i);
        ghost var text := MemberText(lib, members[i], format, d) + MemberEnd(format, i + 1 == |members|);
        ghost var rest := MembersText(lib, members[i + 1..], format, d);
        MembersTextFrom(lib, members, i, format, d);
        ok := PrintRound(current, kids[i], members[i]);
        assert all == done + text + rest;
        if !ok {
          return;
        }
        assert Written() == start + (done + text);
        done := done + text;
        i := i + 1;
        current := current.next;
      }
      assert i == |members|;
      MembersTextFrom(lib, members, i, format, d);
      assert done + [] == done;
      ok := true;
    }

    /** print_object() */
    method PrintObject(item: Item, ghost kids: seq<Shape>, ghost members: seq<Member>) returns (ok: bool)
      requires Valid() && Printable(Object(members))
      requires Children(item, Nodes(kids)) && BuiltAll(kids, Values(members)) && NamedAll(kids, members)
      requires forall x :: x in All(kids) ==> allocated(x)
      modifies this`buffer, this`offset, this`depth, buffer
      ensures Valid() && (ok ==> depth == old(depth))
      ensures buffer == old(buffer) || (fresh(buffer) && !noalloc)
      ensures var text := Text(lib, Object(members), format, old(depth));
        && (ok <==> old(offset) + |text| + 2 <= old(Capacity()))
        && (ok ==> Shows(old(Written()), text))
      decreases members, 2
    {
      hide Text, MembersText, Printable, PrintBuffer.Shows, Tabs, Children, BuiltAll, NamedAll, Values, All, Nodes;
      ghost var before, inner := Written(), MembersText(lib, members, format, depth + 1);
      ObjectText(lib, members, format, depth);
      var opening: seq<byte> := if format then [OPEN_OBJECT, NEWLINE] else [OPEN_OBJECT];
      ok := Open(opening, |opening| + 1);
      if !ok {
        return;
      }
      ok := PrintMembers(item, kids, members);
      if !ok {
        return;
      }
      assert Written() == before + (opening + inner);
      var closing := (if format then Tabs(depth - 1) else []) + [CLOSE_OBJECT];
      ok := Close(closing, before, opening + inner);
      depth := depth - 1;
    }
  }

  /** print(), that is cJSON_Print() and cJSON_PrintUnformatted(): the text as a C string in a buffer of its own. */
  method Print(lib: Library, item: Item, format: bool, ghost shape: Shape, ghost value: Json)
    returns (printed: Option<seq<byte>>)
    requires Printable(value) && shape.node == item && Built(shape, value)
    requires forall x :: x in Below(shape) ==> allocated(x)
    ensures var text := Text(lib, value, format, 0);
      printed == if |text| + 2 <= 2147483647 then Some(text + [0]) else None
  {
    hide Text, Printable, Built;
    ghost var text := Text(lib, value, format, 0);
    var buffer := new byte[256];
    var p := new PrintBuffer(buffer, false, format, lib);
    var ok := p.PrintValue(item, shape, value);
    if !ok {
      return None;
    }
    TextHasNoNul(lib, value, format, 0);
    ghost var content, end := p.buffer[..], |text|;
    assert p.Shows([], text);
    p.Advance([], text);
    assert p.buffer[..end + 1] == p.buffer[..end] + [content[end]];
    assert p.Written() == p.buffer[..end];
    printed := Some(p.buffer[..p.offset + 1]);
  }

  /** cJSON_PrintPreallocated(): one octet more than the C string is both needed and enough. */
  method PrintPreallocated(lib: Library, item: Item, buffer: array<byte>, format: bool, ghost shape: Shape,
                           ghost value: Json)
    returns (ok: bool)
    requires Printable(value) && shape.node == item && Built(shape, value) && buffer.Length <= INT_MAX
    requires forall x :: x in Below(shape) ==> allocated(x)
    modifies buffer
    ensures var text := Text(lib, value, format, 0);
      && (ok <==> |text| + 2 <= buffer.Length)
      && (ok ==> buffer[..|text| + 1] == text + [0])
  {
    hide Text, Printable, Built;
    ghost var text := Text(lib, value, format, 0);
    var p := new PrintBuffer(buffer, true, format, lib);
    ok := p.PrintValue(item, shape, value);
    assert p.buffer == buffer;
    if ok {
      assert p.Shows([], text);
      assert buffer[..|text| + 1] == buffer[0..|text|] + [buffer[|text|]];
    }
  }

  /** cJSON_PrintBuffered(): the first size of the buffer makes no difference. */
  method PrintBuffered(lib: Library, item: Item, prebuffer: int, format: bool, ghost shape: Shape,
                       ghost value: Json)
    returns (printed: Option<array<byte>>)
    requires Printable(value) && shape.node == item && Built(shape, value) && prebuffer <= INT_MAX
    requires forall x :: x in Below(shape) ==> allocated(x)
    ensures var text := Text(lib, value, format, 0);
      && (printed.Some? <==> prebuffer >= 0 && |text| + 2 <= 2147483647)
      && (printed.Some? ==> |text| < printed.value.Length && printed.value[..|text| + 1] == text + [0])
  {
    hide Text, Printable, Built;
    if prebuffer < 0 {
      return None;
    }
    ghost var text := Text(lib, value, format, 0);
    var buffer := new byte[prebuffer];
    var p := new PrintBuffer(buffer, false, format, lib);
    var ok := p.PrintValue(item, shape, value);
    if !ok {
      return None;
    }
    assert p.Shows([], text);
    assert p.buffer[..|text| + 1] == p.buffer[0..|text|] + [p.buffer[|text|]];
    printed := Some(p.buffer);
  }

  lemma {:induction false} StrLenIs(s: seq<byte>, n: nat)
    requires n < |s| && s[n] == 0 && forall i :: 0 <= i < n ==> s[i] != 0
    ensures 0 in s && StrLen(s) == n
    decreases n
  {
    if n > 0 {
      assert s[1..][n - 1] == 0;
      StrLenIs(s[1..], n - 1);
    }
  }

  lemma ArrayText(lib: Library, items: seq<Json>, format: bool, depth: nat)
    requires Printable(Array(items))
    ensures Text(lib, Array(items), format, depth)
      == [OPEN_ARRAY] + ItemsText(lib, items, format, depth + 1) + [CLOSE_ARRAY]
    ensures forall x :: x in items ==> Printable(x)
  {
  }

  /** What is left to print from element i on. */
  lemma ItemsTextFrom(lib: Library, items: seq<Json>, i: nat, format: bool, depth: nat)
    requires i <= |items|
    ensures i == |items| ==> ItemsText(lib, items[i..], format, depth) == []
    ensures i < |items| ==>
      var rest := ItemsText(lib, items[i + 1..], format, depth);
      ItemsText(lib, items[i..], format, depth)
        == Text(lib, items[i], format, depth) + (if i + 1 == |items| then [] else ItemSeparator(format)) + rest
  {
    hide Text;
    if i < |items| {
      var t := Text(lib, items[i], format, depth);
      assert items[i..][1..] == items[i + 1..];
      assert t + [] + [] == t;
    }
  }

  lemma ObjectText(lib: Library, members: seq<Member>, format: bool, depth: nat)
    requires Printable(Object(members))
    ensures var opening: seq<byte> := if format then [OPEN_OBJECT, NEWLINE] else [OPEN_OBJECT];
      var closing := (if format then Tabs(depth) else []) + [CLOSE_OBJECT];
      Text(lib, Object(members), format, depth) == (opening + MembersText(lib, members, format, depth + 1)) + closing
    ensures forall m :: m in members ==> 0 !in m.name && Printable(m.value)
  {
    hide MembersText, Tabs;
    var opening: seq<byte>, tabs := if format then [NEWLINE] else [], if format then Tabs(depth) else [];
    var inner := MembersText(lib, members, format, depth + 1);
    assert [OPEN_OBJECT] + opening + inner + tabs + [CLOSE_OBJECT]
      == ([OPEN_OBJECT] + opening + inner) + (tabs + [CLOSE_OBJECT]);
  }

  lemma MembersTextFrom(lib: Library, members: seq<Member>, i: nat, format: bool, depth: nat)
    requires i <= |members|
    ensures i == |members| ==> MembersText(lib, members[i..], format, depth) == []
    ensures i < |members| ==>
      MembersText(lib, members[i..], format, depth)
      == MemberText(lib, members[i], format, depth) + MemberEnd(format, i + 1 == |members|)
        + MembersText(lib, members[i + 1..], format, depth)
  {
    hide MemberText;
    if i < |members| {
      assert members[i..][1..] == members[i + 1..];
    }
  }

  lemma QuotedLength(s: seq<byte>)
    ensures |Quoted(s)| >= 2
  {
  }

  lemma QuotedHasNoNul(s: seq<byte>)
    requires 0 !in s
    ensures 0 !in Quoted(s)
  {
    EscapedHasNoNul(s);
  }

  lemma DecimalHasNoNul(n: int)
    ensures 0 !in Decimal(n)
  {
  }

  lemma NumberHasNoNul(lib: Library, d: Double)
    ensures 0 !in NumberText(lib, d)
  {
    hide IntOf, Decimal, Recovers;
    DecimalHasNoNul(IntOf(d));
    assert d.Finite? ==> Numeral(lib.shorter(d.value)) && Numeral(lib.longer(d.value));
  }

  lemma {:induction false} EscapedHasNoNul(s: seq<byte>)
    requires 0 !in s
    ensures 0 !in EscapedAll(s)
  {
    if s != [] {
      EscapedCharHasNoNul(s[0]);
      EscapedHasNoNul(s[1..]);
    }
  }

  lemma EscapedCharHasNoNul(c: byte)
    requires c != 0
    ensures 0 !in Escaped(c)
  {
    HexDigitNotNul(c >> 4);
    HexDigitNotNul(c & 0xF);
  }

  lemma HexDigitNotNul(n: byte)
    requires n < 16
    ensures HexDigit(n) != 0
  {
  }

  /** The printed text is a C string, which is what lets update_offset() find its end. */
  lemma {:induction false} TextHasNoNul(lib: Library, j: Json, format: bool, depth: nat)
    requires Printable(j)
    ensures 0 !in Text(lib, j, format, depth)
    decreases j, 0
  {
    hide NumberText, EscapedAll;
    match j
    case Number(v) => NumberHasNoNul(lib, v);
    case String(s) => EscapedHasNoNul(s);
    case Array(items) => ItemsHaveNoNul(lib, items, format, depth + 1);
    case Object(members) => MembersHaveNoNul(lib, members, format, depth + 1);
    case _ =>
  }

  lemma {:induction false} ItemsHaveNoNul(lib: Library, items: seq<Json>, format: bool, depth: nat)
    requires forall x :: x in items ==> Printable(x)
    ensures 0 !in ItemsText(lib, items, format, depth)
    decreases items, 1
  {
    hide Text;
    if items != [] {
      TextHasNoNul(lib, items[0], format, depth);
      ItemsHaveNoNul(lib, items[1..], format, depth);
    }
  }

  lemma {:induction false} MembersHaveNoNul(lib: Library, members: seq<Member>, format: bool, depth: nat)
    requires forall m :: m in members ==> 0 !in m.name && Printable(m.value)
    ensures 0 !in MembersText(lib, members, format, depth)
    decreases members, 1
  {
    hide Text, EscapedAll;
    if members != [] {
      EscapedHasNoNul(members[0].name);
      TextHasNoNul(lib, members[0].value, format, depth);
      MembersHaveNoNul(lib, members[1..], format, depth);
    }
  }

  lemma EscapedLength(c: byte)
    ensures |Escaped(c)| == if ShortEscape(c) != 0 then 2 else if c < 32 then 6 else 1
  {
  }

  lemma {:induction false} NothingEscaped(s: seq<byte>)
    requires |EscapedAll(s)| == |s|
    ensures EscapedAll(s) == s
  {
    if s != [] {
      EscapedLength(s[0]);
      EscapedAtLeast(s[1..]);
      NothingEscaped(s[1..]);
    }
  }

  lemma {:induction false} EscapedAtLeast(s: seq<byte>)
    ensures |EscapedAll(s)| >= |s|
  {
    if s != [] {
      EscapedLength(s[0]);
      EscapedAtLeast(s[1..]);
    }
  }
}
