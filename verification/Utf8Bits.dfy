/** Unicode scalar values and the bit arithmetic of UTF-8 (RFC 3629 section 3). */
module Utf8Bits {
  import opened Bytes

  /** Unicode scalar values: no surrogates, nothing above 10FFFF. */
  predicate IsScalar(v: bv32) {
    v <= 0x10FFFF && !(0xD800 <= v <= 0xDFFF)
  }

  predicate Tail(b: byte) { 0x80 <= b <= 0xBF }

  function Lead2(v: bv32): byte requires v <= 0x7FF { (0xC0 | (v >> 6)) as byte }
  function Lead3(v: bv32): byte requires v <= 0xFFFF { (0xE0 | (v >> 12)) as byte }
  function Lead4(v: bv32): byte requires v <= 0x10FFFF { (0xF0 | (v >> 18)) as byte }
  function Tail12(v: bv32): byte { (0x80 | ((v >> 12) & 0x3F)) as byte }
  function Tail6(v: bv32): byte { (0x80 | ((v >> 6) & 0x3F)) as byte }
  function Tail0(v: bv32): byte { (0x80 | (v & 0x3F)) as byte }

  function Pack2(a: byte, b: byte): bv32 {
    ((a as bv32 & 0x1F) << 6) | (b as bv32 & 0x3F)
  }

  function Pack3(a: byte, b: byte, c: byte): bv32 {
    ((a as bv32 & 0x0F) << 12) | ((b as bv32 & 0x3F) << 6) | (c as bv32 & 0x3F)
  }

  function Pack4(a: byte, b: byte, c: byte, d: byte): bv32 {
    ((a as bv32 & 0x07) << 18) | ((b as bv32 & 0x3F) << 12) | ((c as bv32 & 0x3F) << 6) | (d as bv32 & 0x3F)
  }

  lemma UnpackPack2(a: byte, b: byte)
    requires 0xC2 <= a <= 0xDF && Tail(b)
    ensures var v := Pack2(a, b); 0x80 <= v <= 0x7FF && Lead2(v) == a && Tail0(v) == b
  {
  }

  lemma UnpackPack3(a: byte, b: byte, c: byte)
    requires 0xE0 <= a <= 0xEF && Tail(b) && Tail(c) && (a == 0xE0 ==> 0xA0 <= b) && (a == 0xED ==> b <= 0x9F)
    ensures var v := Pack3(a, b, c);
      0x800 <= v <= 0xFFFF && IsScalar(v) && Lead3(v) == a && Tail6(v) == b && Tail0(v) == c
  {
  }

  lemma UnpackPack4(a: byte, b: byte, c: byte, d: byte)
    requires 0xF0 <= a <= 0xF4 && Tail(b) && Tail(c) && Tail(d) && (a == 0xF0 ==> 0x90 <= b)
      && (a == 0xF4 ==> b <= 0x8F)
    ensures var v := Pack4(a, b, c, d);
      0x10000 <= v <= 0x10FFFF && Lead4(v) == a && Tail12(v) == b && Tail6(v) == c && Tail0(v) == d
  {
  }

  lemma PackUnpack2(v: bv32)
    requires 0x80 <= v <= 0x7FF
    ensures 0xC2 <= Lead2(v) <= 0xDF && Tail(Tail0(v)) && Pack2(Lead2(v), Tail0(v)) == v
  {
  }

  lemma UnpackRange3(v: bv32)
    requires 0x800 <= v <= 0xFFFF && IsScalar(v)
    ensures 0xE0 <= Lead3(v) <= 0xEF && Tail(Tail6(v)) && Tail(Tail0(v))
    ensures (Lead3(v) == 0xE0 ==> 0xA0 <= Tail6(v)) && (Lead3(v) == 0xED ==> Tail6(v) <= 0x9F)
  {
  }

  lemma PackUnpack3(v: bv32)
    requires 0x800 <= v <= 0xFFFF
    ensures Pack3(Lead3(v), Tail6(v), Tail0(v)) == v
  {
  }

  lemma UnpackRange4(v: bv32)
    requires 0x10000 <= v <= 0x10FFFF
    ensures 0xF0 <= Lead4(v) <= 0xF4 && Tail(Tail12(v)) && Tail(Tail6(v)) && Tail(Tail0(v))
    ensures (Lead4(v) == 0xF0 ==> 0x90 <= Tail12(v)) && (Lead4(v) == 0xF4 ==> Tail12(v) <= 0x8F)
  {
  }

  lemma PackUnpack4(v: bv32)
    requires 0x10000 <= v <= 0x10FFFF
    ensures Pack4(Lead4(v), Tail12(v), Tail6(v), Tail0(v)) == v
  {
  }

  /** What decode() adds to codep for a continuation octet. */
  function TailBits(code: bv32, b: byte): bv32 {
    (b as bv32 & 0x3f) | (code << 6)
  }

  /** What decode() puts in codep for a lead octet of a class. */
  function LeadBits(class_: nat, b: byte): bv32
    requires class_ < 16
  {
    ((0xff as bv32) >> class_) & b as bv32
  }

  /** The packed value is what the automaton accumulates, octet by octet. */
  lemma PackByTailBits(a: byte, b: byte, c: byte, d: byte)
    ensures Pack2(a, b) == TailBits(a as bv32 & 0x1F, b)
    ensures Pack3(a, b, c) == TailBits(TailBits(a as bv32 & 0x0F, b), c)
    ensures Pack4(a, b, c, d) == TailBits(TailBits(TailBits(a as bv32 & 0x07, b), c), d)
  {
  }
}
