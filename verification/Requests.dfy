/** The request of a client as handshake.c reads it: strtok_r() cuts lines and words out of the receive buffer. */
module Requests {
  import opened Wrappers
  import opened Bytes

  const LINE_ENDS: set<byte> := {0x0D, 0x0A}
  const BLANKS: set<byte> := {0x20}

  /** The empty line behind the header. */
  const EMPTY_LINE: seq<byte> := [0x0D, 0x0A, 0x0D, 0x0A]

  /** "Sec-WebSocket-Key" */
  const KEY_NAME: seq<byte> :=
    [0x53, 0x65, 0x63, 0x2D, 0x57, 0x65, 0x62, 0x53, 0x6F, 0x63, 0x6B, 0x65, 0x74, 0x2D, 0x4B, 0x65, 0x79]

  // ---------------------------------------------------------------- tokens

  function Skip(s: seq<byte>, d: set<byte>): (t: seq<byte>)
    ensures |t| <= |s|
  {
    if s != [] && s[0] in d then Skip(s[1..], d) else s
  }

  function Word(s: seq<byte>, d: set<byte>): (w: seq<byte>)
    ensures |w| <= |s|
  {
    if s == [] || s[0] in d then [] else [s[0]] + Word(s[1..], d)
  }

  /** What strtok_r() finds in s. */
  function Token(s: seq<byte>, d: set<byte>): Option<seq<byte>> {
    var t := Skip(s, d);
    if t == [] then None else Some(Word(t, d))
  }

  /** And where it goes on the next time. */
  function AfterToken(s: seq<byte>, d: set<byte>): (r: seq<byte>)
    ensures if Token(s, d).Some? then |r| < |s| else r == []
  {
    var t := Skip(s, d);
    var n := |Word(t, d)|;
    if n < |t| then t[n + 1..] else []
  }

  lemma TokenParts(s: seq<byte>, d: set<byte>)
    ensures var t := Skip(s, d);
      var n := |Word(t, d)|;
      && Token(s, d) == (if t == [] then None else Some(t[..n]))
      && AfterToken(s, d) == if n < |t| then t[n + 1..] else []
  {
    WordIsHead(Skip(s, d), d);
  }

  /** Where pattern first occurs in s. */
  function FirstAt(s: seq<byte>, pattern: seq<byte>): (r: Option<nat>)
    ensures r.Some? ==> r.value + |pattern| <= |s| && s[r.value..r.value + |pattern|] == pattern
  {
    if pattern <= s then Some(0)
    else if s == [] then None
    else
      match FirstAt(s[1..], pattern)
      case None => None
      case Some(n) => Some(n + 1)
  }

  predicate Contains(s: seq<byte>, pattern: seq<byte>) {
    FirstAt(s, pattern).Some?
  }

  // ---------------------------------------------------------------- the key

  /** The first line with the name of the key in it. */
  function KeyLine(s: seq<byte>): Option<seq<byte>>
    decreases |s|
  {
    match Token(s, LINE_ENDS)
    case None => None
    case Some(line) => if Contains(line, KEY_NAME) then Some(line) else KeyLine(AfterToken(s, LINE_ENDS))
  }

  /** The text that looking for this line does not get to. */
  function AfterKeyLine(s: seq<byte>): (r: seq<byte>)
    ensures |r| <= |s|
    decreases |s|
  {
    match Token(s, LINE_ENDS)
    case None => []
    case Some(line) =>
      var rest := AfterToken(s, LINE_ENDS);
      if Contains(line, KEY_NAME) then rest else AfterKeyLine(rest)
  }

  /** The key is the second word of that line. */
  function KeyIn(request: seq<byte>): Option<seq<byte>> {
    match KeyLine(request)
    case None => None
    case Some(line) => if Token(line, BLANKS).None? then None else Token(AfterToken(line, BLANKS), BLANKS)
  }

  /** The lines in front of the empty line. */
  function HeadLines(text: seq<byte>): seq<byte>
    requires FirstAt(text, EMPTY_LINE).Some?
  {
    text[..FirstAt(text, EMPTY_LINE).value + 2]
  }

  /** A text that do_handshake() takes: a header up to an empty line, and a key. */
  predicate Acceptable(text: seq<byte>) {
    FirstAt(text, EMPTY_LINE).Some? && KeyIn(text).Some?
  }

  // ---------------------------------------------------------------- in the buffer

  /** The C string at a place in a buffer. */
  ghost predicate Stands(buffer: array<byte>, at: nat, text: seq<byte>)
    reads buffer
  {
    && at + |text| < buffer.Length && 0 !in text
    && buffer[at..at + |text|] == text && buffer[at + |text|] == 0
  }

  /** A chunk with a NUL behind it is a C string up to its first NUL. */
  lemma ChunkStands(buffer: array<byte>, chunk: seq<byte>)
    requires |chunk| < buffer.Length && buffer[..|chunk|] == chunk && buffer[|chunk|] == 0
    ensures Stands(buffer, 0, CText(chunk))
  {
    hide CText;
    CTextEnds(chunk);
    var n := |CText(chunk)|;
    assert n < |chunk| ==> buffer[n] == buffer[..|chunk|][n];
    assert buffer[0..n] == chunk[..n];
  }

  /** strtok_r(), which puts a NUL behind the token. */
  method StrTok(buffer: array<byte>, from: nat, d: set<byte>, ghost text: seq<byte>)
    returns (token: Option<nat>, save: nat)
    requires Stands(buffer, from, text) && 0 !in d
    modifies buffer
    ensures token.Some? <==> Token(text, d).Some?
    ensures token.Some? ==> var w := Token(text, d).value;
      from <= token.value <= token.value + |w| <= save && Stands(buffer, token.value, w)
    ensures from <= save == from + |text| - |AfterToken(text, d)| && Stands(buffer, save, AfterToken(text, d))
    ensures save < buffer.Length && buffer[save..] == old(buffer[save..])
  {
    hide *;
    TokenParts(text, d);
    FirstOf(buffer, from, text);
    var start := SkipIn(buffer, from, d, text);
    ghost var t := Skip(text, d);
    SkipIsTail(text, d);
    StandsOn(buffer, from, text, start - from);
    if buffer[start] == 0 {
      FirstOf(buffer, start, t);
      return None, start;
    }
    FirstOf(buffer, start, t);
    save := CutWord(buffer, start, d, t);
    token := Some(start);
  }

  /** The token itself, and a NUL behind it. */
  method CutWord(buffer: array<byte>, start: nat, d: set<byte>, ghost t: seq<byte>) returns (save: nat)
    requires Stands(buffer, start, t)
    modifies buffer
    ensures var n := |Word(t, d)|;
      && Stands(buffer, start, t[..n]) && start + n <= save < buffer.Length
      && save == start + (if n < |t| then n + 1 else n)
      && Stands(buffer, save, if n < |t| then t[n + 1..] else [])
    ensures buffer[save..] == old(buffer[save..])
  {
    hide *;
    save := WordIn(buffer, start, d, t);
    ghost var n := |Word(t, d)|;
    CutAt(buffer, start, t, n);
    StandsOn(buffer, start, t, n);
    FirstOf(buffer, save, t[n..]);
    if buffer[save] != 0 {
      StandsOn(buffer, start, t, n + 1);
      EndWord(buffer, start, save, t);
      save := save + 1;
      FirstOf(buffer, save, t[n + 1..]);
    } else {
      EndsHere(buffer, start, t[..n]);
    }
  }

  /** What stands behind the first n octets of a string. */
  lemma StandsOn(buffer: array<byte>, at: nat, text: seq<byte>, n: nat)
    requires Stands(buffer, at, text) && n <= |text|
    ensures Stands(buffer, at + n, text[n..])
  {
    assert buffer[at + n..at + |text|] == buffer[at..at + |text|][n..];
  }

  /** The NUL behind a token. */
  method EndWord(buffer: array<byte>, start: nat, end: nat, ghost t: seq<byte>)
    requires start <= end < start + |t| && Stands(buffer, start, t) && Stands(buffer, end + 1, t[end + 1 - start..])
    modifies buffer
    ensures Stands(buffer, start, t[..end - start]) && Stands(buffer, end + 1, t[end + 1 - start..])
    ensures buffer[end + 1..] == old(buffer[end + 1..])
  {
    CutAt(buffer, start, t, end - start);
    buffer[end] := 0;
  }

  lemma EndsHere(buffer: array<byte>, start: nat, w: seq<byte>)
    requires start + |w| < buffer.Length && 0 !in w && buffer[start..start + |w|] == w && buffer[start + |w|] == 0
    ensures Stands(buffer, start, w)
  {
  }

  lemma CutAt(buffer: array<byte>, at: nat, text: seq<byte>, n: nat)
    requires Stands(buffer, at, text) && n <= |text|
    ensures buffer[at..at + n] == text[..n] && 0 !in text[..n]
  {
    assert buffer[at..at + n] == buffer[at..at + |text|][..n];
  }

  lemma FirstOf(buffer: array<byte>, at: nat, text: seq<byte>)
    requires Stands(buffer, at, text)
    ensures at + |text| < buffer.Length && 0 !in text
    ensures buffer[at] == 0 <==> text == []
    ensures text != [] ==> buffer[at] == text[0]
  {
    assert text != [] ==> text[0] == buffer[at..at + |text|][0] && text[0] in text;
  }

  lemma {:induction false} SkipIsTail(s: seq<byte>, d: set<byte>)
    ensures Skip(s, d) == s[|s| - |Skip(s, d)|..]
  {
    if s != [] && s[0] in d {
      SkipIsTail(s[1..], d);
    }
  }

  lemma {:induction false} WordIsHead(s: seq<byte>, d: set<byte>)
    ensures Word(s, d) == s[..|Word(s, d)|]
  {
    if s != [] && s[0] !in d {
      WordIsHead(s[1..], d);
    }
  }

  lemma SkipStep(s: seq<byte>, d: set<byte>)
    ensures Skip(s, d) == if s != [] && s[0] in d then Skip(s[1..], d) else s
  {
  }

  lemma WordStep(s: seq<byte>, d: set<byte>)
    ensures Word(s, d) == if s == [] || s[0] in d then [] else [s[0]] + Word(s[1..], d)
  {
  }

  /** Past the delimiters in front of a token. */
  method SkipIn(buffer: array<byte>, from: nat, d: set<byte>, ghost text: seq<byte>) returns (start: nat)
    requires Stands(buffer, from, text) && 0 !in d
    ensures start == from + |text| - |Skip(text, d)|
  {
    hide Stands, Skip;
    start := from;
    ghost var t := text;
    FirstOf(buffer, start, t);
    SkipStep(t, d);
    while buffer[start] in d
      invariant start + |t| == from + |text| && Skip(text, d) == Skip(t, d) && Stands(buffer, start, t)
      invariant start + |t| < buffer.Length
      invariant if t != [] && buffer[start] in d then Skip(t[1..], d) == Skip(t, d) else Skip(t, d) == t
      invariant t == [] ==> buffer[start] == 0
      decreases |t|
    {
      StandsOn(buffer, start, t, 1);
      start, t := start + 1, t[1..];
      FirstOf(buffer, start, t);
      SkipStep(t, d);
    }
  }

  /** To the end of a token. */
  method WordIn(buffer: array<byte>, start: nat, d: set<byte>, ghost t: seq<byte>) returns (end: nat)
    requires Stands(buffer, start, t)
    ensures end == start + |Word(t, d)|
  {
    end := start;
    ghost var u := t;
    while buffer[end] != 0 && buffer[end] !in d
      invariant start <= end && Stands(buffer, end, u) && end + |Word(u, d)| == start + |Word(t, d)|
      decreases |u|
    {
      FirstOf(buffer, end, u);
      StandsOn(buffer, end, u, 1);
      end, u := end + 1, u[1..];
    }
    FirstOf(buffer, end, u);
  }

  /** strstr() */
  method StrStr(buffer: array<byte>, from: nat, pattern: seq<byte>, ghost text: seq<byte>) returns (at: Option<nat>)
    requires Stands(buffer, from, text) && 0 !in pattern && pattern != []
    ensures at == FirstAt(text, pattern)
  {
    hide Stands, FirstAt;
    var i := 0;
    ghost var t := text;
    FirstOf(buffer, from, t);
    while buffer[from + i] != 0
      invariant Stands(buffer, from + i, t) && i + |t| == |text| && from + |text| < buffer.Length
      invariant buffer[from + i] == 0 <==> t == []
      invariant FirstAt(text, pattern) == match FirstAt(t, pattern) case None => None case Some(n) => Some(i + n)
      decreases |t|
    {
      var yes := Matches(buffer, from + i, pattern, t);
      FirstAtStep(t, pattern);
      if yes {
        return Some(i);
      }
      StandsOn(buffer, from + i, t, 1);
      i, t := i + 1, t[1..];
      FirstOf(buffer, from + i, t);
    }
    FirstAtStep(t, pattern);
    at := None;
  }

  lemma FirstAtStep(s: seq<byte>, pattern: seq<byte>)
    requires pattern != []
    ensures pattern <= s ==> FirstAt(s, pattern) == Some(0)
    ensures s == [] ==> FirstAt(s, pattern) == None
    ensures s != [] && !(pattern <= s) ==>
      FirstAt(s, pattern) == match FirstAt(s[1..], pattern) case None => None case Some(n) => Some(n + 1)
  {
  }

  method Matches(buffer: array<byte>, from: nat, pattern: seq<byte>, ghost text: seq<byte>) returns (yes: bool)
    requires Stands(buffer, from, text) && 0 !in pattern
    ensures yes <==> pattern <= text
  {
    var j := 0;
    while j < |pattern| && buffer[from + j] == pattern[j]
      invariant j <= |pattern| && j <= |text| && pattern[..j] == text[..j]
    {
      assert pattern[j] in pattern;
      assert buffer[from + j] == text[j];
      j := j + 1;
    }
    assert j < |pattern| && j < |text| ==> buffer[from + j] == text[j];
    yes := j == |pattern|;
  }

  /** strlen() */
  method Length(buffer: array<byte>, from: nat, ghost text: seq<byte>) returns (n: nat)
    requires Stands(buffer, from, text)
    ensures n == |text|
  {
    n := 0;
    while buffer[from + n] != 0
      invariant n <= |text|
      decreases |text| - n
    {
      n := n + 1;
    }
  }

  /** The first half of get_handshake_response(): the key, and nothing rewritten behind its line. */
  method FindKey(request: array<byte>, ghost text: seq<byte>) returns (key: Option<seq<byte>>)
    requires Stands(request, 0, text)
    modifies request
    ensures key == KeyIn(text) && (key.Some? ==> 0 !in key.value)
    ensures var n := |text| - |AfterKeyLine(text)|; request[n..] == old(request[n..])
  {
    hide Token, AfterToken, FirstAt, KeyLine, AfterKeyLine, Stands, Contains;
    var token: Option<nat>, save := StrTok(request, 0, LINE_ENDS, text);
    ghost var s, found := text, false;
    while token.Some?
      invariant KeyLine(text) == KeyLine(s) && AfterKeyLine(text) == AfterKeyLine(s)
      invariant token.Some? <==> Token(s, LINE_ENDS).Some?
      invariant token.Some? ==> var line := Token(s, LINE_ENDS).value;
        token.value + |line| <= save && Stands(request, token.value, line)
      invariant save == |text| - |AfterToken(s, LINE_ENDS)| && Stands(request, save, AfterToken(s, LINE_ENDS))
      invariant save < request.Length
      invariant request[save..] == old(request[save..])
      decreases |s|
    {
      ghost var line := Token(s, LINE_ENDS).value;
      KeyLineStep(s);
      NameIsPlain();
      var at := StrStr(request, token.value, KEY_NAME, line);
      assert at.Some? <==> Contains(line, KEY_NAME) by { ContainsIs(line); }
      if at.Some? {
        key := KeyInLine(request, token.value, save, line);
        return;
      }
      ghost var before := save;
      s := AfterToken(s, LINE_ENDS);
      token, save := StrTok(request, save, LINE_ENDS, s);
      assert request[save..] == request[before..][save - before..];
    }
    KeyLineStep(s);
    key := None;
  }

  lemma ContainsIs(s: seq<byte>)
    ensures Contains(s, KEY_NAME) <==> FirstAt(s, KEY_NAME).Some?
  {
  }

  lemma KeyLineStep(s: seq<byte>)
    ensures match Token(s, LINE_ENDS)
            case None => KeyLine(s) == None && AfterKeyLine(s) == []
            case Some(line) =>
              var rest := AfterToken(s, LINE_ENDS);
              if Contains(line, KEY_NAME) then KeyLine(s) == Some(line) && AfterKeyLine(s) == rest
              else KeyLine(s) == KeyLine(rest) && AfterKeyLine(s) == AfterKeyLine(rest)
  {
    hide Token, AfterToken, FirstAt;
  }

  /** The second word of a line. */
  method KeyInLine(request: array<byte>, from: nat, end: nat, ghost line: seq<byte>) returns (key: Option<seq<byte>>)
    requires Stands(request, from, line) && from + |line| <= end <= request.Length
    modifies request
    ensures key == if Token(line, BLANKS).None? then None else Token(AfterToken(line, BLANKS), BLANKS)
    ensures (key.Some? ==> 0 !in key.value) && request[end..] == old(request[end..])
  {
    hide Token, AfterToken;
    var word, save := StrTok(request, from, BLANKS, line);
    ghost var rest, before := AfterToken(line, BLANKS), save;
    assert request[end..] == request[save..][end - save..];
    if word == None {
      return None;
    }
    word, save := StrTok(request, save, BLANKS, rest);
    assert request[end..] == request[save..][end - save..];
    if word == None {
      return None;
    }
    var length := Length(request, word.value, Token(rest, BLANKS).value);
    key := Some(request[word.value..word.value + length]);
  }

  // ---------------------------------------------------------------- requests of RFC 6455

  lemma {:induction false} SkipOfTwo(a: seq<byte>, b: seq<byte>, d: set<byte>)
    ensures Skip(a + b, d) == if Skip(a, d) == [] then Skip(b, d) else Skip(a, d) + b
  {
    if a == [] {
      assert a + b == b;
    } else if a[0] in d {
      assert (a + b)[1..] == a[1..] + b;
      SkipOfTwo(a[1..], b, d);
    }
  }

  lemma {:induction false} WordOfTwo(a: seq<byte>, b: seq<byte>, d: set<byte>)
    ensures Word(a + b, d) == if |Word(a, d)| < |a| then Word(a, d) else a + Word(b, d)
  {
    if a == [] {
      assert a + b == b;
    } else {
      WordStep(a, d);
      WordStep(a + b, d);
      hide Word;
      assert (a + b)[1..] == a[1..] + b && (a + b)[0] == a[0];
      assert [a[0]] + (a[1..] + Word(b, d)) == a + Word(b, d);
      if a[0] !in d {
        WordOfTwo(a[1..], b, d);
      }
    }
  }

  /** A delimiter behind a text makes no difference to the first token in it. */
  lemma TokenOfTwo(a: seq<byte>, c: byte, b: seq<byte>, d: set<byte>)
    requires c in d && Token(a, d).Some?
    ensures Token(a + ([c] + b), d) == Token(a, d)
    ensures AfterToken(a + ([c] + b), d)
      == if |Word(Skip(a, d), d)| < |Skip(a, d)| then AfterToken(a, d) + ([c] + b) else b
  {
    var t, more := Skip(a, d), [c] + b;
    NoWord(c, b, d);
    hide *;
    TokenParts(a, d);
    TokenParts(a + more, d);
    SkipOfTwo(a, more, d);
    WordOfTwo(t, more, d);
    NothingBehind(t);
    TailOfTwo(t, c, b, |Word(t, d)|);
  }

  lemma NoWord(c: byte, b: seq<byte>, d: set<byte>)
    requires c in d
    ensures Word([c] + b, d) == []
  {
  }

  lemma TailOfTwo(t: seq<byte>, c: byte, b: seq<byte>, n: nat)
    requires n <= |t|
    ensures (t + ([c] + b))[..n] == t[..n]
    ensures (t + ([c] + b))[n + 1..] == if n < |t| then t[n + 1..] + ([c] + b) else b
  {
  }

  lemma NothingBehind(t: seq<byte>)
    ensures t + [] == t
  {
  }

  /** A key in the header is found there, and what follows the line behind the header stays as it is. */
  lemma {:induction false} KeyInHead(head: seq<byte>, tail: seq<byte>)
    requires KeyLine(head).Some?
    ensures var s := head + ([0x0D] + tail);
      KeyLine(s) == KeyLine(head) && KeyIn(s) == KeyIn(head) && |AfterKeyLine(s)| >= |tail|
    decreases |head|
  {
    hide Token, AfterToken, FirstAt, Skip, Word;
    TokenOfTwo(head, 0x0D, tail, LINE_ENDS);
    var line := Token(head, LINE_ENDS).value;
    if !Contains(line, KEY_NAME) {
      NothingAfterLast(head);
      KeyInHead(AfterToken(head, LINE_ENDS), tail);
    }
  }

  lemma NothingAfterLast(head: seq<byte>)
    ensures |Word(Skip(head, LINE_ENDS), LINE_ENDS)| >= |Skip(head, LINE_ENDS)| ==>
      AfterToken(head, LINE_ENDS) == [] && KeyLine([]) == None
  {
  }

  lemma {:induction false} Found(s: seq<byte>, pattern: seq<byte>, n: nat)
    requires n + |pattern| <= |s| && s[n..n + |pattern|] == pattern
    ensures Contains(s, pattern)
  {
    if !(pattern <= s) {
      assert n > 0 && s[1..][n - 1..n - 1 + |pattern|] == pattern;
      Found(s[1..], pattern, n - 1);
    }
  }

  /** What is in a part is in the whole. */
  lemma FoundWithin(s: seq<byte>, i: nat, j: nat, pattern: seq<byte>)
    requires i <= j <= |s| && Contains(s[i..j], pattern)
    ensures Contains(s, pattern)
  {
    hide FirstAt;
    var n := FirstAt(s[i..j], pattern).value;
    PartOfPart(s, i, j, n, n + |pattern|);
    Found(s, pattern, i + n);
  }

  lemma PartOfPart(s: seq<byte>, i: nat, j: nat, k: nat, l: nat)
    requires i <= j <= |s| && k <= l <= j - i
    ensures s[i + k..i + l] == s[i..j][k..l]
  {
    var a, part := s[i + k..i + l], s[i..j];
    var b := part[k..l];
    forall m | 0 <= m < l - k ensures a[m] == b[m] {
      assert b[m] == part[k + m] == s[i + k + m];
    }
  }

  /** A token and what follows it are parts of the text. */
  lemma TokenIsPart(s: seq<byte>, d: set<byte>, pattern: seq<byte>)
    requires Token(s, d).Some? && !Contains(s, pattern)
    ensures !Contains(Token(s, d).value, pattern) && !Contains(AfterToken(s, d), pattern)
  {
    hide Skip, Word, Contains;
    TokenParts(s, d);
    var t := Skip(s, d);
    var n := |Word(t, d)|;
    SkipIsTail(s, d);
    var i := |s| - |t|;
    assert t[..n] == s[i..i + n];
    if Contains(t[..n], pattern) {
      FoundWithin(s, i, i + n, pattern);
    }
    if n < |t| {
      assert t[n + 1..] == s[i + n + 1..|s|];
      if Contains(t[n + 1..], pattern) {
        FoundWithin(s, i + n + 1, |s|, pattern);
      }
    } else if Contains([], pattern) {
      assert s[0..0] == [];
      FoundWithin(s, 0, 0, pattern);
    }
  }

  lemma {:induction false} SkipAll(sep: seq<byte>, t: seq<byte>, d: set<byte>)
    requires (forall b :: b in sep ==> b in d) && t != [] && t[0] !in d
    ensures Skip(sep + t, d) == t
  {
    if sep == [] {
      assert sep + t == t;
    } else {
      var b := sep[0];
      assert b in sep;
      assert b in d && (sep + t)[0] == b;
      assert (sep + t)[1..] == sep[1..] + t;
      SkipAll(sep[1..], t, d);
    }
  }

  lemma {:induction false} WholeWord(w: seq<byte>, d: set<byte>)
    requires forall b :: b in w ==> b !in d
    ensures Word(w, d) == w
  {
    if w != [] {
      var b := w[0];
      assert b in w;
      assert b !in d && w == [b] + w[1..];
      WholeWord(w[1..], d);
    }
  }

  /** The first token behind delimiters. */
  lemma TokenBehind(sep: seq<byte>, w: seq<byte>, c: byte, after: seq<byte>, d: set<byte>)
    requires (forall b :: b in sep ==> b in d) && w != [] && (forall b :: b in w ==> b !in d) && c in d
    ensures var s := sep + (w + ([c] + after)); Token(s, d) == Some(w) && AfterToken(s, d) == after
  {
    var t := w + ([c] + after);
    assert t[0] == w[0] && w[0] in w;
    SkipAll(sep, t, d);
    WholeWord(w, d);
    NoWord(c, after, d);
    WordOfTwo(w, [c] + after, d);
    hide *;
    NothingBehind(w);
    TokenParts(sep + t, d);
    TailOfTwo(w, c, after, |w|);
  }

  /** Lines without the name of the key are passed over. */
  lemma {:induction false} KeyLineBehind(before: seq<byte>, sep: seq<byte>, line: seq<byte>, end: byte,
                                         after: seq<byte>)
    requires !Contains(before, KEY_NAME) && Contains(line, KEY_NAME)
    requires (forall b :: b in sep ==> b in LINE_ENDS) && (before == [] || sep != [])
    requires line != [] && (forall b :: b in line ==> b !in LINE_ENDS) && end in LINE_ENDS
    ensures KeyLine(before + (sep + (line + ([end] + after)))) == Some(line)
    decreases |before|
  {
    var rest := line + ([end] + after);
    var s := before + (sep + rest);
    hide Token, AfterToken, Skip, Word, Contains, KEY_NAME, LINE_ENDS;
    if before == [] {
      TokenBehind(sep, line, end, after, LINE_ENDS);
      assert s == sep + rest;
    } else {
      var c, more := sep[0], sep[1..];
      assert sep == [c] + more && c in sep;
      Regrouped(before, c, more, rest);
      if Token(before, LINE_ENDS) == None {
        OnlyEnds(before);
        TokenBehind(before + sep, line, end, after, LINE_ENDS);
      } else {
        TokenOfTwo(before, c, more + rest, LINE_ENDS);
        TokenIsPart(before, LINE_ENDS, KEY_NAME);
        ContainsNothing();
        var left := AfterToken(before, LINE_ENDS);
        if AfterToken(s, LINE_ENDS) == more + rest {
          assert [] + (more + rest) == more + rest;
          KeyLineBehind([], more, line, end, after);
        } else {
          Regrouped(left, c, more, rest);
          KeyLineBehind(left, sep, line, end, after);
        }
      }
    }
  }

  lemma Regrouped(before: seq<byte>, c: byte, more: seq<byte>, rest: seq<byte>)
    ensures before + ([c] + (more + rest)) == before + (([c] + more) + rest)
    ensures before + (([c] + more) + rest) == (before + ([c] + more)) + rest
  {
  }

  lemma ContainsNothing()
    ensures !Contains([], KEY_NAME)
  {
  }

  lemma {:induction false} OnlyEnds(s: seq<byte>)
    requires Token(s, LINE_ENDS) == None
    ensures forall b :: b in s ==> b in LINE_ENDS
  {
    if s != [] {
      assert s == [s[0]] + s[1..];
      OnlyEnds(s[1..]);
    }
  }

  /** The line of a request that carries the key: section 4.1 of RFC 6455. */
  function KeyHeader(key: seq<byte>): seq<byte> {
    KEY_NAME + [0x3A, 0x20] + key
  }

  /** The key is found in whatever line of the request it is, if no line before mentions its name. */
  lemma KeyOfRequest(before: seq<byte>, sep: seq<byte>, key: seq<byte>, end: byte, after: seq<byte>)
    requires !Contains(before, KEY_NAME) && end in LINE_ENDS && sep != [] && forall b :: b in sep ==> b in LINE_ENDS
    requires key != [] && forall b :: b in key ==> b !in LINE_ENDS && b !in BLANKS
    ensures KeyIn(before + (sep + (KeyHeader(key) + ([end] + after)))) == Some(key)
  {
    var line, name := KeyHeader(key), KEY_NAME + [0x3A];
    KeyHeaderParts(key);
    assert [] + line == line;
    hide *;
    KeyLineBehind(before, sep, line, end, after);
    TokenBehind([], name, 0x20, key, BLANKS);
    WholeToken(key);
    KeyInIs(before + (sep + (line + ([end] + after))), line);
  }

  lemma KeyInIs(request: seq<byte>, line: seq<byte>)
    requires KeyLine(request) == Some(line)
    ensures KeyIn(request) == if Token(line, BLANKS).None? then None else Token(AfterToken(line, BLANKS), BLANKS)
  {
  }

  lemma KeyHeaderParts(key: seq<byte>)
    requires forall b :: b in key ==> b !in LINE_ENDS
    ensures var line, name := KeyHeader(key), KEY_NAME + [0x3A];
      && line == name + ([0x20] + key) && line != [] && name != []
      && (forall b :: b in line ==> b !in LINE_ENDS) && (forall b :: b in name ==> b !in BLANKS)
      && Contains(line, KEY_NAME)
    ensures 0x20 in BLANKS
  {
    var line, name := KeyHeader(key), KEY_NAME + [0x3A];
    NameIsPlain();
    hide KEY_NAME, FirstAt;
    assert line == name + ([0x20] + key);
    assert Contains(line, KEY_NAME) by {
      assert line[0..0 + |KEY_NAME|] == KEY_NAME;
      Found(line, KEY_NAME, 0);
    }
    hide KeyHeader;
    forall b | b in line ensures b !in LINE_ENDS {
      assert b in KEY_NAME || b == 0x3A || b == 0x20 || b in key;
    }
  }

  lemma NameIsPlain()
    ensures 0 !in KEY_NAME
    ensures forall b :: b in KEY_NAME ==> b !in LINE_ENDS && b !in BLANKS
    ensures KEY_NAME != []
  {
  }

  lemma WholeToken(key: seq<byte>)
    requires key != [] && forall b :: b in key ==> b !in BLANKS
    ensures Token(key, BLANKS) == Some(key)
  {
    assert key[0] in key;
    SkipStep(key, BLANKS);
    WholeWord(key, BLANKS);
  }

  lemma HeadOfText(text: seq<byte>)
    requires FirstAt(text, EMPTY_LINE).Some?
    ensures text == HeadLines(text) + ([0x0D] + text[FirstAt(text, EMPTY_LINE).value + 3..])
  {
    hide FirstAt;
    var p := FirstAt(text, EMPTY_LINE).value;
    assert text[p + 2] == text[p..p + |EMPTY_LINE|][2];
  }

  /** A request with a key in its header is taken, whatever follows the header. */
  lemma RequestWithKey(text: seq<byte>, before: seq<byte>, sep: seq<byte>, key: seq<byte>, end: byte, after: seq<byte>)
    requires FirstAt(text, EMPTY_LINE).Some? && !Contains(before, KEY_NAME)
    requires end in LINE_ENDS && sep != [] && forall b :: b in sep ==> b in LINE_ENDS
    requires HeadLines(text) == before + (sep + (KeyHeader(key) + ([end] + after)))
    requires key != [] && forall b :: b in key ==> b !in LINE_ENDS && b !in BLANKS
    ensures Acceptable(text) && KeyIn(text) == Some(key) && KeyLine(HeadLines(text)).Some?
  {
    hide FirstAt, KeyLine, HeadLines, KeyHeader, KEY_NAME, LINE_ENDS, BLANKS, Token, AfterToken, Contains;
    KeyOfRequest(before, sep, key, end, after);
    HeadOfText(text);
    KeyInHead(HeadLines(text), text[FirstAt(text, EMPTY_LINE).value + 3..]);
  }

  /**
    * "Sec-WebSocket-Key" and a key, octet by octet, in lines that end with CR or LF or both: whatever follows the
    * header, that key is found. It ends at a blank or the end of the line.
    */
  lemma RequestInOctets(text: seq<byte>, p: nat, before: seq<byte>, sep: seq<byte>, key: seq<byte>, end: byte,
                        after: seq<byte>)
    requires FirstAt(text, [0x0D, 0x0A, 0x0D, 0x0A]) == Some(p)
    requires end in {0x0D, 0x0A} && sep != [] && forall i :: 0 <= i < |sep| ==> sep[i] in {0x0D, 0x0A}
    requires var name :=
      [0x53, 0x65, 0x63, 0x2D, 0x57, 0x65, 0x62, 0x53, 0x6F, 0x63, 0x6B, 0x65, 0x74, 0x2D, 0x4B, 0x65, 0x79];
      && text[..p + 2] == before + (sep + (name + [0x3A, 0x20] + key + ([end] + after)))
      && !Contains(before, name)
    requires key != [] && forall i :: 0 <= i < |key| ==> key[i] !in {0x0D, 0x0A, 0x20}
    ensures Acceptable(text) && KeyIn(text) == Some(key) && KeyLine(HeadLines(text)).Some?
  {
    hide FirstAt, KeyIn, KeyLine;
    RequestWithKey(text, before, sep, key, end, after);
  }

  /** A text that does not mention the name has no key. */
  lemma {:induction false} NoKey(text: seq<byte>)
    requires !Contains(text, [0x53, 0x65, 0x63, 0x2D, 0x57, 0x65, 0x62, 0x53, 0x6F, 0x63, 0x6B, 0x65, 0x74, 0x2D, 0x4B,
                              0x65, 0x79])
    ensures KeyLine(text) == None && KeyIn(text) == None
    decreases |text|
  {
    hide FirstAt, Token, AfterToken, Contains;
    if Token(text, LINE_ENDS).Some? {
      TokenIsPart(text, LINE_ENDS, KEY_NAME);
      NoKey(AfterToken(text, LINE_ENDS));
    }
  }

  /** strstr() finds the first place, if there is one. */
  lemma {:induction false} FirstAtIsFirst(s: seq<byte>, pattern: seq<byte>, k: nat)
    requires k + |pattern| <= |s| && s[k..k + |pattern|] == pattern
    ensures FirstAt(s, pattern).Some? && FirstAt(s, pattern).value <= k
  {
    if !(pattern <= s) {
      assert k > 0;
      PartOfPart(s, 1, |s|, k - 1, k - 1 + |pattern|);
      FirstAtIsFirst(s[1..], pattern, k - 1);
    }
  }

  /** strtok_r() by place: i delimiters are passed over, the token goes up to the next, and one more is used up. */
  lemma TokenByPlace(s: seq<byte>, d: set<byte>) returns (i: nat, j: nat)
    ensures i <= j <= |s| && (forall k :: 0 <= k < i ==> s[k] in d) && (forall k :: i <= k < j ==> s[k] !in d)
    ensures j < |s| ==> s[j] in d
    ensures if i == |s| then Token(s, d) == None && AfterToken(s, d) == []
      else i < j && Token(s, d) == Some(s[i..j]) && AfterToken(s, d) == if j < |s| then s[j + 1..] else []
  {
    var t := Skip(s, d);
    i := |s| - |t|;
    var n := |Word(t, d)|;
    j := i + n;
    SkippedAre(s, d);
    WordsAre(t, d);
    hide Skip, Word, Token, AfterToken;
    TokenParts(s, d);
    SkipIsTail(s, d);
    PlacesIn(s, t, i, j);
  }

  lemma PlacesIn(s: seq<byte>, t: seq<byte>, i: nat, j: nat)
    requires i <= j <= |s| && t == s[i..]
    ensures forall k :: i <= k < j ==> s[k] == t[k - i]
    ensures s[i..j] == t[..j - i] && (j < |s| ==> s[j] == t[j - i] && s[j + 1..] == t[j - i + 1..])
  {
  }

  lemma {:induction false} SkippedAre(s: seq<byte>, d: set<byte>)
    ensures var i := |s| - |Skip(s, d)|; (forall k :: 0 <= k < i ==> s[k] in d) && (i < |s| ==> s[i] !in d)
  {
    if s != [] && s[0] in d {
      SkippedAre(s[1..], d);
      var i := |s| - |Skip(s, d)|;
      forall k | 0 <= k < i ensures s[k] in d {
        assert k > 0 ==> s[k] == s[1..][k - 1];
      }
      assert i < |s| ==> s[i] == s[1..][i - 1];
    }
  }

  lemma {:induction false} WordsAre(s: seq<byte>, d: set<byte>)
    ensures var n := |Word(s, d)|; (forall k :: 0 <= k < n ==> s[k] !in d) && (n < |s| ==> s[n] in d)
  {
    if s != [] && s[0] !in d {
      WordsAre(s[1..], d);
      var n := |Word(s, d)|;
      forall k | 0 <= k < n ensures s[k] !in d {
        assert k > 0 ==> s[k] == s[1..][k - 1];
      }
      assert n < |s| ==> s[n] == s[1..][n - 1];
    }
  }
}
