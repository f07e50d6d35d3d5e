/** The table-driven UTF-8 automaton of utf8.c, and the grammar of RFC 3629 section 4 that it decides. */
module Utf8 {
  import opened Bytes
  import opened Utf8Bits

  const ACCEPT: nat := 0
  const REJECT: nat := 1

  type State = q: nat | q <= 8

  /** Lines "00..1f" to "f0..ff" of the table, sixteen entries at a time. */
  function ClassRow(r: nat): (row: seq<nat>)
    requires r < 16
    ensures |row| == 16 && forall i :: 0 <= i < 16 ==> row[i] < 16
  {
    if r < 8 then [0, 0, 0, 0, 0, 0, 0, 0, 0, 0, 0, 0, 0, 0, 0, 0]
    else if r == 8 then [1, 1, 1, 1, 1, 1, 1, 1, 1, 1, 1, 1, 1, 1, 1, 1]
    else if r == 9 then [9, 9, 9, 9, 9, 9, 9, 9, 9, 9, 9, 9, 9, 9, 9, 9]
    else if r < 12 then [7, 7, 7, 7, 7, 7, 7, 7, 7, 7, 7, 7, 7, 7, 7, 7]
    else if r == 12 then [8, 8, 2, 2, 2, 2, 2, 2, 2, 2, 2, 2, 2, 2, 2, 2]
    else if r == 13 then [2, 2, 2, 2, 2, 2, 2, 2, 2, 2, 2, 2, 2, 2, 2, 2]
    else if r == 14 then [0xa, 0x3, 0x3, 0x3, 0x3, 0x3, 0x3, 0x3, 0x3, 0x3, 0x3, 0x3, 0x3, 0x4, 0x3, 0x3]
    else [0xb, 0x6, 0x6, 0x6, 0x5, 0x8, 0x8, 0x8, 0x8, 0x8, 0x8, 0x8, 0x8, 0x8, 0x8, 0x8]
  }

  /** Lines "s0..s0" to "s7..s8" of the table: the successors of one state, by byte class. */
  function StateRow(q: State): (row: seq<State>)
    ensures |row| == 16
  {
    match q
    case 0 => [0, 1, 2, 3, 5, 8, 7, 1, 1, 1, 4, 6, 1, 1, 1, 1]
    case 1 => [1, 1, 1, 1, 1, 1, 1, 1, 1, 1, 1, 1, 1, 1, 1, 1]
    case 2 => [1, 0, 1, 1, 1, 1, 1, 0, 1, 0, 1, 1, 1, 1, 1, 1]
    case 3 => [1, 2, 1, 1, 1, 1, 1, 2, 1, 2, 1, 1, 1, 1, 1, 1]
    case 4 => [1, 1, 1, 1, 1, 1, 1, 2, 1, 1, 1, 1, 1, 1, 1, 1]
    case 5 => [1, 2, 1, 1, 1, 1, 1, 1, 1, 2, 1, 1, 1, 1, 1, 1]
    case 6 => [1, 1, 1, 1, 1, 1, 1, 3, 1, 3, 1, 1, 1, 1, 1, 1]
    case 7 => [1, 3, 1, 1, 1, 1, 1, 3, 1, 3, 1, 1, 1, 1, 1, 1]
    case _ => [1, 3, 1, 1, 1, 1, 1, 1, 1, 1, 1, 1, 1, 1, 1, 1]
  }

  /** utf8d[b] */
  function Class(b: byte): (c: nat)
    ensures c < 16
  {
    ClassRow(b as int / 16)[b as int % 16]
  }

  /** utf8d[256 + q*16 + utf8d[b]] */
  function Step(q: State, b: byte): State {
    StateRow(q)[Class(b)]
  }

  /** The new codep of one decode() call. */
  function StepCode(q: State, code: bv32, b: byte): bv32 {
    if q != ACCEPT then TailBits(code, b) else LeadBits(Class(b), b)
  }

  function Run(q: State, s: seq<byte>): State
    decreases |s|
  {
    if s == [] then q else Run(Step(q, s[0]), s[1..])
  }

  /** The values codep holds each time a byte brings the automaton to ACCEPT. */
  function Emit(q: State, code: bv32, s: seq<byte>): seq<bv32>
    decreases |s|
  {
    if s == [] then [] else
      var q', code' := Step(q, s[0]), StepCode(q, code, s[0]);
      (if q' == ACCEPT then [code'] else []) + Emit(q', code', s[1..])
  }

  // ---------------------------------------------------------------- the C routines

  method Decode(state: State, codep: bv32, b: byte) returns (state': State, codep': bv32)
    ensures state' == Step(state, b)
    ensures codep' == StepCode(state, codep, b)
  {
    var class_ := ClassRow(b as int / 16)[b as int % 16];
    codep' := if state != ACCEPT then TailBits(codep, b) else LeadBits(class_, b);
    state' := StateRow(state)[class_];
  }

  method IsUtf8LenState(s: seq<byte>, state: State) returns (r: State)
    ensures r == Run(state, s)
  {
    var codepoint: bv32 := 0;
    r := state;
    for i := 0 to |s|
      invariant Run(state, s) == Run(r, s[i..])
    {
      assert s[i..][1..] == s[i + 1..];
      r, codepoint := Decode(r, codepoint, s[i]);
    }
  }

  /** Accepts exactly the octet strings of RFC 3629 section 4. */
  method IsUtf8Len(s: seq<byte>) returns (ok: bool)
    ensures ok <==> Octets(s)
  {
    var state := IsUtf8LenState(s, ACCEPT);
    AcceptIffGrammar(s);
    ok := state == ACCEPT;
  }

  /** The NUL-terminated form: looks no further than the first NUL. */
  method IsUtf8(s: seq<byte>) returns (ok: bool)
    requires 0 in s
    ensures ok <==> Octets(s[..StrLen(s)])
  {
    var codepoint: bv32, state: State, i := 0, ACCEPT, 0;
    ghost var n := StrLen(s);
    while s[i] != 0
      invariant i <= n
      invariant Run(ACCEPT, s[..n]) == Run(state, s[i..n])
      decreases n - i
    {
      assert s[i..n][1..] == s[i + 1..n];
      state, codepoint := Decode(state, codepoint, s[i]);
      i := i + 1;
    }
    AcceptIffGrammar(s[..n]);
    ok := state == ACCEPT;
  }

  // ---------------------------------------------------------------- RFC 3629 section 4

  /** One UTF8-char of the ABNF, from its four productions. */
  predicate Char(c: seq<byte>) {
    || (|c| == 1 && c[0] <= 0x7F)
    || (|c| == 2 && 0xC2 <= c[0] <= 0xDF && Tail(c[1]))
    || (|c| == 3 && Tail(c[2])
        && (|| (c[0] == 0xE0 && 0xA0 <= c[1] <= 0xBF)
            || (0xE1 <= c[0] <= 0xEC && Tail(c[1]))
            || (c[0] == 0xED && 0x80 <= c[1] <= 0x9F)
            || (0xEE <= c[0] <= 0xEF && Tail(c[1]))))
    || (|c| == 4 && Tail(c[2]) && Tail(c[3])
        && (|| (c[0] == 0xF0 && 0x90 <= c[1] <= 0xBF)
            || (0xF1 <= c[0] <= 0xF3 && Tail(c[1]))
            || (c[0] == 0xF4 && 0x80 <= c[1] <= 0x8F)))
  }

  /** UTF8-octets = *( UTF8-char ) */
  predicate Octets(s: seq<byte>) {
    s == [] || exists k :: 1 <= k <= 4 && k <= |s| && Char(s[..k]) && Octets(s[k..])
  }

  /** Some continuation of s is a string of the grammar. */
  ghost predicate Viable(s: seq<byte>) {
    exists t :: Octets(s + t)
  }

  // ---------------------------------------------------------------- automaton = grammar

  /** The byte classes, as ranges of lead and tail octets. */
  function ClassRange(b: byte): nat {
    if b <= 0x7F then 0 else if b <= 0x8F then 1 else if b <= 0x9F then 9 else if b <= 0xBF then 7
    else if b <= 0xC1 then 8 else if b <= 0xDF then 2 else if b == 0xE0 then 10 else if b <= 0xEC then 3
    else if b == 0xED then 4 else if b <= 0xEF then 3 else if b == 0xF0 then 11 else if b <= 0xF3 then 6
    else if b == 0xF4 then 5 else 8
  }

  lemma ClassIsRange(b: byte)
    ensures Class(b) == ClassRange(b)
  {
    if b <= 0x7F {
    } else if b <= 0xBF {
    } else {
    }
  }

  /** The continuation octets the grammar allows next inside a character, by state. */
  predicate Continues(q: State, b: byte) {
    match q
    case 0 => false
    case 1 => false
    case 4 => 0xA0 <= b <= 0xBF
    case 5 => 0x80 <= b <= 0x9F
    case 6 => 0x90 <= b <= 0xBF
    case 8 => 0x80 <= b <= 0x8F
    case _ => Tail(b)
  }

  function Next(q: State): State {
    if q <= 2 then ACCEPT else if q <= 5 then 2 else 3
  }

  lemma StepInside(q: State, b: byte)
    requires q >= 2
    ensures Step(q, b) == if Continues(q, b) then Next(q) else REJECT
  {
    hide Class;
    ClassIsRange(b);
  }

  /** The octet strings that the grammar still wants in state q. */
  predicate Residual(q: State, s: seq<byte>)
    decreases |s|
  {
    if q == ACCEPT then Octets(s)
    else q != REJECT && s != [] && Continues(q, s[0]) && Residual(Next(q), s[1..])
  }

  lemma ResidualStep(q: State, s: seq<byte>)
    requires s != []
    ensures Residual(q, s) <==> Residual(Step(q, s[0]), s[1..])
  {
    hide Class, Octets;
    if q == ACCEPT {
      ResidualStart(s);
    } else if q != REJECT {
      StepInside(q, s[0]);
    }
  }

  /** How long a UTF8-char starting with b is. */
  function LeadLength(b: byte): nat {
    if b <= 0x7F then 1 else if b <= 0xDF then 2 else if b <= 0xEF then 3 else 4
  }

  lemma OctetsUnfold(s: seq<byte>)
    requires s != []
    ensures Octets(s) <==> var k := LeadLength(s[0]); k <= |s| && Char(s[..k]) && Octets(s[k..])
  {
    if Octets(s) {
      var j :| 1 <= j <= 4 && j <= |s| && Char(s[..j]) && Octets(s[j..]);
      assert s[..j][0] == s[0];
    }
  }

  /** The state after a lead octet. */
  function Lead(b: byte): State {
    if b <= 0x7F then ACCEPT else if b <= 0xC1 then REJECT else if b <= 0xDF then 2
    else if b == 0xE0 then 4 else if b == 0xED then 5 else if b <= 0xEF then 3
    else if b == 0xF0 then 6 else if b <= 0xF3 then 7 else if b == 0xF4 then 8 else REJECT
  }

  lemma StepAtStart(b: byte)
    ensures Step(ACCEPT, b) == Lead(b)
  {
    hide Class;
    ClassIsRange(b);
  }

  /** Number of continuation octets outstanding. */
  function Missing(q: State): nat {
    if q <= 1 then 0 else if q == 2 then 1 else if q <= 5 then 2 else 3
  }

  lemma {:induction false} ResidualInside(q: State, t: seq<byte>)
    requires q >= 2
    ensures var n := Missing(q);
      Residual(q, t) <==> |t| >= n && Continues(q, t[0]) && (forall i :: 1 <= i < n ==> Tail(t[i])) && Octets(t[n..])
    decreases Missing(q)
  {
    hide Octets;
    if t != [] && q > 2 {
      ResidualInside(Next(q), t[1..]);
      var n := Missing(q);
      assert |t| >= n ==> t[1..][n - 1..] == t[n..];
      assert forall i :: 1 <= i < |t| ==> t[1..][i - 1] == t[i];
    }
  }

  lemma ResidualStart(s: seq<byte>)
    requires s != []
    ensures Octets(s) <==> Residual(Step(ACCEPT, s[0]), s[1..])
  {
    hide Class, Octets;
    OctetsUnfold(s);
    StepAtStart(s[0]);
    var t, k, q := s[1..], LeadLength(s[0]), Lead(s[0]);
    assert k <= |s| ==> t[k - 1..] == s[k..];
    if q >= 2 {
      hide Residual;
      ResidualInside(q, t);
    }
  }

  lemma {:induction false} RunIsResidual(q: State, s: seq<byte>)
    ensures Run(q, s) == ACCEPT <==> Residual(q, s)
    decreases |s|
  {
    if s != [] {
      ResidualStep(q, s);
      RunIsResidual(Step(q, s[0]), s[1..]);
    }
  }

  lemma AcceptIffGrammar(s: seq<byte>)
    ensures Run(ACCEPT, s) == ACCEPT <==> Octets(s)
  {
    RunIsResidual(ACCEPT, s);
  }

  lemma {:induction false} RunConcat(q: State, s: seq<byte>, t: seq<byte>)
    ensures Run(q, s + t) == Run(Run(q, s), t)
    decreases |s|
  {
    if s == [] {
      assert s + t == t;
    } else {
      assert (s + t)[1..] == s[1..] + t;
      RunConcat(Step(q, s[0]), s[1..], t);
    }
  }

  lemma {:induction false} RejectAbsorbs(s: seq<byte>)
    ensures Run(REJECT, s) == REJECT
  {
    if s != [] {
      RejectAbsorbs(s[1..]);
    }
  }

  /** A shortest way to finish the character that state q is inside of. */
  function Completion(q: State): seq<byte> {
    match q
    case 0 => []
    case 1 => []
    case 2 => [0x80]
    case 3 => [0x80, 0x80]
    case 4 => [0xA0, 0x80]
    case 5 => [0x80, 0x80]
    case 6 => [0x90, 0x80, 0x80]
    case _ => [0x80, 0x80, 0x80]
  }

  lemma CompletionAccepts(q: State)
    requires q != REJECT
    ensures Run(q, Completion(q)) == ACCEPT
  {
    RunIsResidual(q, Completion(q));
    assert Octets([]);
    if q >= 2 {
      ResidualInside(q, Completion(q));
    }
  }

  lemma RejectIffNotViable(s: seq<byte>)
    ensures Run(ACCEPT, s) == REJECT <==> !Viable(s)
  {
    var q := Run(ACCEPT, s);
    if q == REJECT {
      forall t ensures !Octets(s + t) {
        RunConcat(ACCEPT, s, t);
        RejectAbsorbs(t);
        AcceptIffGrammar(s + t);
      }
    } else {
      CompletionAccepts(q);
      RunConcat(ACCEPT, s, Completion(q));
      AcceptIffGrammar(s + Completion(q));
    }
  }

  // ---------------------------------------------------------------- code points

  /** RFC 3629 section 3. */
  function Encode(v: bv32): (c: seq<byte>)
    requires IsScalar(v)
  {
    if v <= 0x7F then [v as byte]
    else if v <= 0x7FF then [Lead2(v), Tail0(v)]
    else if v <= 0xFFFF then [Lead3(v), Tail6(v), Tail0(v)]
    else [Lead4(v), Tail12(v), Tail6(v), Tail0(v)]
  }

  function EncodeAll(vs: seq<bv32>): seq<byte>
    requires forall v :: v in vs ==> IsScalar(v)
  {
    if vs == [] then [] else Encode(vs[0]) + EncodeAll(vs[1..])
  }

  /** The scalar value a UTF8-char stands for: its payload bits, put together. */
  function Value(c: seq<byte>): bv32
    requires Char(c)
  {
    if |c| == 1 then c[0] as bv32
    else if |c| == 2 then Pack2(c[0], c[1])
    else if |c| == 3 then Pack3(c[0], c[1], c[2])
    else Pack4(c[0], c[1], c[2], c[3])
  }

  /** Every UTF8-char is the encoding of a scalar value: no surrogate, no overlong form, nothing above 10FFFF. */
  lemma CharIsEncoding(c: seq<byte>)
    requires Char(c)
    ensures IsScalar(Value(c)) && Encode(Value(c)) == c
  {
    hide Pack2, Pack3, Pack4, Lead2, Lead3, Lead4, Tail0, Tail6, Tail12;
    if |c| == 2 {
      UnpackPack2(c[0], c[1]);
    } else if |c| == 3 {
      UnpackPack3(c[0], c[1], c[2]);
    } else if |c| == 4 {
      UnpackPack4(c[0], c[1], c[2], c[3]);
    }
  }

  lemma EncodingIsChar(v: bv32)
    requires IsScalar(v)
    ensures Char(Encode(v)) && Value(Encode(v)) == v
  {
    hide Pack2, Pack3, Pack4, Lead2, Lead3, Lead4, Tail0, Tail6, Tail12;
    if v <= 0x7F {
    } else if v <= 0x7FF {
      PackUnpack2(v);
    } else if v <= 0xFFFF {
      UnpackRange3(v);
      PackUnpack3(v);
    } else {
      UnpackRange4(v);
      PackUnpack4(v);
    }
  }

  lemma EmitCons(q: State, code: bv32, b: byte, t: seq<byte>)
    ensures var q', code' := Step(q, b), StepCode(q, code, b);
      Emit(q, code, [b] + t) == (if q' == ACCEPT then [code'] else []) + Emit(q', code', t)
  {
    assert ([b] + t)[1..] == t;
  }

  lemma LeadStepCode(b: byte, code: bv32)
    requires 0xC2 <= b <= 0xF4
    ensures StepCode(ACCEPT, code, b) == b as bv32 & (if b <= 0xDF then 0x1F else if b <= 0xEF then 0x0F else 0x07)
  {
    hide Class;
    ClassIsRange(b);
    LeadBitsMask(b);
  }

  lemma LeadBitsMask(b: byte)
    requires 0xC2 <= b <= 0xF4
    ensures LeadBits(ClassRange(b), b) == b as bv32 & (if b <= 0xDF then 0x1F else if b <= 0xEF then 0x0F else 0x07)
  {
    if b <= 0xDF {
    } else if b <= 0xEF {
    } else {
    }
  }

  /** Over one UTF8-char the automaton emits its value, once, and is back at ACCEPT with that value in codep. */
  lemma EmitChar(code: bv32, c: seq<byte>, t: seq<byte>)
    requires Char(c)
    ensures Emit(ACCEPT, code, c + t) == [Value(c)] + Emit(ACCEPT, Value(c), t)
  {
    hide Class, Emit, ClassRow, StateRow, LeadBits, ClassRange, TailBits, Pack2, Pack3, Pack4;
    var q1, v1 := Step(ACCEPT, c[0]), StepCode(ACCEPT, code, c[0]);
    assert c + t == [c[0]] + (c[1..] + t);
    EmitCons(ACCEPT, code, c[0], c[1..] + t);
    if |c| == 1 {
      AsciiStep(c[0]);
      assert c[1..] + t == t;
    } else {
      StepAtStart(c[0]);
      LeadStepCode(c[0], code);
      PackByTailBits(c[0], c[1], if |c| > 2 then c[2] else 0, if |c| > 3 then c[3] else 0);
      EmitTails(q1, v1, c[1..], t);
      TailBitsAllUnfold(v1, c[1..]);
    }
  }

  function TailBitsAll(code: bv32, c: seq<byte>): bv32
    decreases |c|
  {
    if c == [] then code else TailBitsAll(TailBits(code, c[0]), c[1..])
  }

  lemma TailBitsAllUnfold(code: bv32, c: seq<byte>)
    requires 1 <= |c| <= 3
    ensures TailBitsAll(code, c) ==
      var v1 := TailBits(code, c[0]);
      if |c| == 1 then v1 else if |c| == 2 then TailBits(v1, c[1]) else TailBits(TailBits(v1, c[1]), c[2])
  {
    hide TailBits;
    var v1 := TailBits(code, c[0]);
    if |c| >= 2 {
      var d := c[1..];
      assert TailBitsAll(v1, d) == TailBitsAll(TailBits(v1, c[1]), d[1..]);
    }
  }

  /** The continuation octets of one character: one emission, at the last of them. */
  lemma {:induction false} EmitTails(q: State, code: bv32, c: seq<byte>, t: seq<byte>)
    requires q >= 2 && |c| == Missing(q) && Continues(q, c[0]) && forall b :: b in c ==> Tail(b)
    ensures var v := TailBitsAll(code, c); Emit(q, code, c + t) == [v] + Emit(ACCEPT, v, t)
    decreases |c|
  {
    hide Class, Emit, StateRow, TailBits;
    var q', code' := Step(q, c[0]), StepCode(q, code, c[0]);
    StepInside(q, c[0]);
    assert c + t == [c[0]] + (c[1..] + t);
    EmitCons(q, code, c[0], c[1..] + t);
    if |c| == 1 {
      assert c[1..] + t == t;
    } else {
      EmitTails(q', code', c[1..], t);
    }
  }

  /** An octet below 80 is a character of its own. */
  lemma AsciiStep(b: byte)
    requires b <= 0x7F
    ensures Step(ACCEPT, b) == ACCEPT && forall code :: StepCode(ACCEPT, code, b) == b as bv32
  {
    hide Class;
    ClassIsRange(b);
  }

  /** Everything the automaton emits over an accepted string is a scalar value, and together they encode the string. */
  lemma {:induction false} EmitIsDecoding(code: bv32, s: seq<byte>)
    requires Octets(s)
    ensures forall v :: v in Emit(ACCEPT, code, s) ==> IsScalar(v)
    ensures EncodeAll(Emit(ACCEPT, code, s)) == s
    decreases |s|
  {
    if s != [] {
      hide Class, Octets, Emit, Encode, Char, Value;
      FirstChar(s);
      var k := LeadLength(s[0]);
      var c, t := s[..k], s[k..];
      assert s == c + t;
      CharIsEncoding(c);
      EmitChar(code, c, t);
      EmitIsDecoding(Value(c), t);
      EncodeAllCons(Value(c), Emit(ACCEPT, Value(c), t));
    } else {
      assert Emit(ACCEPT, code, s) == [];
    }
  }

  lemma FirstChar(s: seq<byte>)
    requires s != [] && Octets(s)
    ensures var k := LeadLength(s[0]); k <= |s| && Char(s[..k]) && Octets(s[k..])
  {
    hide Octets, Char;
    OctetsUnfold(s);
  }

  lemma EncodeAllCons(v: bv32, vs: seq<bv32>)
    requires IsScalar(v) && forall w :: w in vs ==> IsScalar(w)
    ensures EncodeAll([v] + vs) == Encode(v) + EncodeAll(vs)
  {
    hide Encode;
    assert ([v] + vs)[1..] == vs;
  }

  /** And the scalar values of any text come back, in order, from its encoding. */
  lemma {:induction false} EmitInvertsEncode(code: bv32, vs: seq<bv32>)
    requires forall v :: v in vs ==> IsScalar(v)
    ensures Octets(EncodeAll(vs)) && Emit(ACCEPT, code, EncodeAll(vs)) == vs
    decreases |vs|
  {
    if vs != [] {
      hide Class, Encode, Value, Char, Emit;
      var c, t := Encode(vs[0]), EncodeAll(vs[1..]);
      EncodingIsChar(vs[0]);
      EmitChar(code, c, t);
      EmitInvertsEncode(vs[0], vs[1..]);
      CharLength(c);
      assert (c + t)[..|c|] == c && (c + t)[|c|..] == t;
    } else {
      assert EncodeAll(vs) == [];
    }
  }

  lemma CharLength(c: seq<byte>)
    requires Char(c)
    ensures 1 <= |c| <= 4
  {
  }

  // ---------------------------------------------------------------- in numbers

  /** Section 3 of RFC 3629, in numbers. */
  function OctetsOf(v: bv32): seq<byte>
    requires v <= 0x10FFFF
  {
    if v < 0x80 then [v as byte]
    else if v < 0x800 then [(0xC0 + v / 0x40) as byte, (0x80 + v % 0x40) as byte]
    else if v < 0x1_0000 then
      [(0xE0 + v / 0x1000) as byte, (0x80 + v / 0x40 % 0x40) as byte, (0x80 + v % 0x40) as byte]
    else
      [(0xF0 + v / 0x4_0000) as byte, (0x80 + v / 0x1000 % 0x40) as byte, (0x80 + v / 0x40 % 0x40) as byte,
       (0x80 + v % 0x40) as byte]
  }

  lemma EncodeInNumbers(v: bv32)
    requires IsScalar(v)
    ensures Encode(v) == OctetsOf(v)
  {
  }

  /** One character of the grammar is what section 3 makes of a number up to 10FFFF that is no surrogate. */
  lemma CharInNumbers(c: seq<byte>)
    ensures Char(c) <==> exists v: bv32 :: EncodesTo(v, c)
  {
    hide Char, Encode, Value, OctetsOf;
    if Char(c) {
      CharIsEncoding(c);
      EncodeInNumbers(Value(c));
      assert EncodesTo(Value(c), c);
    }
    if exists v: bv32 :: EncodesTo(v, c) {
      var v: bv32 :| EncodesTo(v, c);
      EncodeInNumbers(v);
      EncodingIsChar(v);
    }
  }

  predicate EncodesTo(v: bv32, c: seq<byte>) {
    v <= 0x10FFFF && !(0xD800 <= v <= 0xDFFF) && c == OctetsOf(v)
  }
}
