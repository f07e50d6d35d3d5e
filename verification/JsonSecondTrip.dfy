/** What printing and parsing does to numbers, and that doing it again changes nothing more. */
module JsonSecondTrip {
  import opened Wrappers
  import opened Bytes
  import opened JsonText
  import opened JsonParse
  import opened JsonRoundTrip

  // ---------------------------------------------------------------- doubles

  /** m * 2^e */
  function Scaled(m: int, e: int): real {
    if e >= 0 then (m * PowerOfTwo(e)) as real else m as real / PowerOfTwo(-e) as real
  }

  function PowerOfTwo(n: nat): (r: nat)
    ensures r > 0
  {
    if n == 0 then 1 else 2 * PowerOfTwo(n - 1)
  }

  /** The finite values of a double: 53 bits, and an exponent. */
  ghost predicate IsDouble(v: real) {
    exists m: int, e: int :: v == Scaled(m, e) && 0 - PowerOfTwo(53) < m < PowerOfTwo(53) && -1074 <= e <= 971
  }

  /**
    * What section 5.2.4.2.2 of ISO C99 and section 5.12.2 of IEEE 754-2008 promise of sprintf() and strtod(): 17 digits
    * identify a double; 15 digits survive being read and printed; an int has no more than 15.
    */
  ghost predicate Precise(lib: Library) {
    && Reads(lib)
    && (forall v :: IsDouble(v) ==> lib.strtod(lib.longer(v)).value == Finite(v))
    && (forall v :: IsDouble(v) ==> Stable(lib, v))
    && (forall n: int :: INT_MIN <= n <= INT_MAX ==> lib.shorter(n as real) == Decimal(n))
  }

  predicate Stable(lib: Library, v: real) {
    var r := lib.strtod(lib.shorter(v));
    r.Converted? && r.value.Finite? ==> lib.shorter(r.value.value) == lib.shorter(v)
  }

  /** The finite numbers of a tree can be held by a double. */
  ghost predicate Doubles(numbers: set<Double>) {
    forall d :: d in numbers && d.Finite? ==> IsDouble(d.value)
  }

  /** Rounding to 15 digits takes the number out of range. */
  predicate Overflows(lib: Library, d: Double) {
    && d.Finite? && !IsInt(d)
    && var r := lib.strtod(lib.shorter(d.value));
       r.Converted? && (r.value.Infinity? || r.value.MinusInfinity?)
  }

  predicate NoneOverflows(lib: Library, numbers: set<Double>) {
    forall d :: d in numbers ==> !Overflows(lib, d)
  }

  predicate AllFinite(numbers: set<Double>) {
    forall d :: d in numbers ==> d.Finite?
  }

  // ---------------------------------------------------------------- one number

  /** The number that comes back from a finite one, by the digits it was printed with. */
  lemma NumberCases(lib: Library, v: real)
    requires Precise(lib) && IsDouble(v)
    ensures var d, b := Finite(v), NumberBack(lib, Finite(v));
      && b.Number?
      && if IsInt(d) then b.value == d
         else if !Recovers(lib, v) then b.value == d
         else b.value == lib.strtod(lib.shorter(v)).value && CompareDouble(b.value, v)
  {
    hide IntOf, Decimal, IsDouble, CompareDouble;
    NumberIsWhole(lib, Finite(v));
    assert Stable(lib, v);
    assert Whole(lib.strtod, lib.longer(v));
  }

  lemma CloseToItself(v: real)
    ensures CompareDouble(Finite(v), v)
  {
  }

  /** Without an overflow a number comes back nearly as it was, and is printed as before. */
  lemma NumberAgain(lib: Library, v: real)
    requires Precise(lib) && IsDouble(v) && !Overflows(lib, Finite(v))
    ensures var b := NumberBack(lib, Finite(v));
      && b.Number? && b.value.Finite? && CompareDouble(b.value, v)
      && NumberText(lib, b.value) == NumberText(lib, Finite(v))
  {
    hide IntOf, Decimal, IsDouble, CompareDouble, Reads;
    NumberCases(lib, v);
    CloseToItself(v);
    var b := NumberBack(lib, Finite(v)).value;
    if !IsInt(Finite(v)) && Recovers(lib, v) {
      RecoveredAgain(lib, v);
    }
  }

  lemma RecoveredAgain(lib: Library, v: real)
    requires Precise(lib) && IsDouble(v) && !IsInt(Finite(v)) && Recovers(lib, v) && !Overflows(lib, Finite(v))
    ensures var w := lib.strtod(lib.shorter(v)).value;
      w.Finite? && NumberText(lib, w) == lib.shorter(v)
  {
    hide IntOf, Decimal, IsDouble, Reads;
    var w := lib.strtod(lib.shorter(v)).value;
    assert w.Finite? by { hide Abs; }
    assert Stable(lib, v);
    CloseToItself(w.value);
    hide CompareDouble;
    IntOfRange(w);
    if IsInt(w) {
      assert lib.shorter(IntOf(w) as real) == Decimal(IntOf(w));
    }
  }

  /** With an overflow it comes back as an infinity, which is printed as null. */
  lemma NumberLost(lib: Library, d: Double)
    requires Reads(lib) && Overflows(lib, d)
    ensures var b := NumberBack(lib, d);
      && b.Number? && !b.value.Finite? && NumberBack(lib, b.value) == Null
  {
    hide IntOf, Decimal;
  }

  // ---------------------------------------------------------------- trees

  /** The same tree, but for numbers that compare_double() takes for equal. */
  predicate Near(j: Json, k: Json)
    decreases j, 0
  {
    match j
    case Number(d) => d.Finite? && k.Number? && k.value.Finite? && CompareDouble(k.value, d.value)
    case Array(items) => k.Array? && AllNear(items, k.items)
    case Object(members) => k.Object? && MembersNear(members, k.members)
    case _ => k == j
  }

  predicate AllNear(items: seq<Json>, others: seq<Json>)
    decreases items, 1
  {
    if items == [] then others == []
    else others != [] && Near(items[0], others[0]) && AllNear(items[1..], others[1..])
  }

  predicate MembersNear(members: seq<Member>, others: seq<Member>)
    decreases members, 1
  {
    if members == [] then others == []
    else
      && others != [] && members[0].name == others[0].name && Near(members[0].value, others[0].value)
      && MembersNear(members[1..], others[1..])
  }

  lemma {:induction false} BackIsNear(lib: Library, j: Json)
    requires Precise(lib) && Doubles(Numbers(j))
    ensures Near(j, Back(lib, j)) <==> NoneOverflows(lib, Numbers(j)) && AllFinite(Numbers(j))
    decreases j, 0
  {
    hide Precise, IsDouble, NumberText, CompareDouble, NumberBack, Overflows;
    match j
    case Number(d) => NumberIsNear(lib, d);
    case Array(items) => AllBackNear(lib, items);
    case Object(members) => MembersBackNear(lib, members);
    case _ =>
  }

  lemma NumberIsNear(lib: Library, d: Double)
    requires Precise(lib) && (d.Finite? ==> IsDouble(d.value))
    ensures Near(Number(d), NumberBack(lib, d)) <==> !Overflows(lib, d) && d.Finite?
  {
    assert Reads(lib);
    hide Precise, IsDouble, NumberText, CompareDouble, Reads, NumberBack, Overflows;
    if d.Finite? && !Overflows(lib, d) {
      NumberAgain(lib, d.value);
    } else if d.Finite? {
      NumberLost(lib, d);
    }
  }

  lemma {:induction false} AllBackNear(lib: Library, items: seq<Json>)
    requires Precise(lib) && Doubles(NumbersOfAll(items))
    ensures AllNear(items, BackAll(lib, items)) <==>
      NoneOverflows(lib, NumbersOfAll(items)) && AllFinite(NumbersOfAll(items))
    decreases items, 1
  {
    hide Precise, IsDouble, Near, Back, Overflows;
    if items != [] {
      BackIsNear(lib, items[0]);
      AllBackNear(lib, items[1..]);
    }
  }

  lemma {:induction false} MembersBackNear(lib: Library, members: seq<Member>)
    requires Precise(lib) && Doubles(NumbersOfMembers(members))
    ensures MembersNear(members, MembersBack(lib, members)) <==>
      NoneOverflows(lib, NumbersOfMembers(members)) && AllFinite(NumbersOfMembers(members))
    decreases members, 1
  {
    hide Precise, IsDouble, Near, Back, Overflows;
    if members != [] {
      BackIsNear(lib, members[0].value);
      MembersBackNear(lib, members[1..]);
    }
  }

  /** What came back comes back as it is, unless a number overflowed. */
  lemma {:induction false} BackAgain(lib: Library, j: Json)
    requires Precise(lib) && Doubles(Numbers(j))
    ensures Back(lib, Back(lib, j)) == Back(lib, j) <==> NoneOverflows(lib, Numbers(j))
    decreases j, 0
  {
    hide Precise, IsDouble, NumberText, NumberBack, Overflows;
    match j
    case Number(d) => NumberBackAgain(lib, d);
    case Array(items) => AllBackAgain(lib, items);
    case Object(members) => MembersBackAgain(lib, members);
    case _ =>
  }

  lemma NumberBackAgain(lib: Library, d: Double)
    requires Precise(lib) && (d.Finite? ==> IsDouble(d.value))
    ensures Back(lib, NumberBack(lib, d)) == NumberBack(lib, d) <==> !Overflows(lib, d)
  {
    assert Reads(lib);
    hide Precise, IsDouble, NumberText, CompareDouble, Reads, Overflows;
    if d.Finite? && !Overflows(lib, d) {
      NumberAgain(lib, d.value);
    } else if d.Finite? {
      NumberLost(lib, d);
    } else {
      InfiniteStays(lib, d);
    }
  }

  lemma InfiniteStays(lib: Library, d: Double)
    requires !d.Finite?
    ensures !Overflows(lib, d) && NumberBack(lib, d) == Null
  {
  }

  lemma {:induction false} AllBackAgain(lib: Library, items: seq<Json>)
    requires Precise(lib) && Doubles(NumbersOfAll(items))
    ensures BackAll(lib, BackAll(lib, items)) == BackAll(lib, items) <==> NoneOverflows(lib, NumbersOfAll(items))
    decreases items, 1
  {
    hide Precise, IsDouble, Back, Overflows;
    if items != [] {
      BackAgain(lib, items[0]);
      AllBackAgain(lib, items[1..]);
      BackCons(lib, items);
      var back := BackAll(lib, items);
      BackCons(lib, back);
      assert back[1..] == BackAll(lib, items[1..]);
      var again := BackAll(lib, back);
      assert again == back <==> again[0] == back[0] && again[1..] == back[1..];
    }
  }

  lemma {:induction false} MembersBackAgain(lib: Library, members: seq<Member>)
    requires Precise(lib) && Doubles(NumbersOfMembers(members))
    ensures MembersBack(lib, MembersBack(lib, members)) == MembersBack(lib, members) <==>
      NoneOverflows(lib, NumbersOfMembers(members))
    decreases members, 1
  {
    hide Precise, IsDouble, Back, Overflows;
    if members != [] {
      BackAgain(lib, members[0].value);
      MembersBackAgain(lib, members[1..]);
      MembersBackCons(lib, members);
      var back := MembersBack(lib, members);
      MembersBackCons(lib, back);
      assert back[1..] == MembersBack(lib, members[1..]);
      var again := MembersBack(lib, back);
      assert again == back <==> again[0] == back[0] && again[1..] == back[1..];
    }
  }

  /** And it has the same text. */
  lemma {:induction false} SameText(lib: Library, j: Json, format: bool, depth: nat)
    requires Precise(lib) && Doubles(Numbers(j)) && NoneOverflows(lib, Numbers(j))
    ensures Text(lib, Back(lib, j), format, depth) == Text(lib, j, format, depth)
    decreases j, 0
  {
    hide Precise, IsDouble, NumberText, NumberBack, Overflows, Quoted, Tabs;
    match j
    case Number(d) => SameNumberText(lib, d, format, depth);
    case Array(items) => SameItemsText(lib, items, format, depth + 1);
    case Object(members) => SameMembersText(lib, members, format, depth + 1);
    case _ =>
  }

  lemma SameNumberText(lib: Library, d: Double, format: bool, depth: nat)
    requires Precise(lib) && (d.Finite? ==> IsDouble(d.value)) && !Overflows(lib, d)
    ensures Text(lib, NumberBack(lib, d), format, depth) == NumberText(lib, d)
  {
    hide Precise, IsDouble, NumberBack, Overflows, IntOf, Decimal;
    if d.Finite? {
      NumberAgain(lib, d.value);
    } else {
      InfiniteStays(lib, d);
    }
  }

  lemma {:induction false} SameItemsText(lib: Library, items: seq<Json>, format: bool, depth: nat)
    requires Precise(lib) && Doubles(NumbersOfAll(items)) && NoneOverflows(lib, NumbersOfAll(items))
    ensures ItemsText(lib, BackAll(lib, items), format, depth) == ItemsText(lib, items, format, depth)
    decreases items, 1
  {
    hide Precise, IsDouble, Text, Back, Overflows, ItemSeparator;
    if items != [] {
      SameText(lib, items[0], format, depth);
      SameItemsText(lib, items[1..], format, depth);
      BackCons(lib, items);
    }
  }

  lemma {:induction false} SameMembersText(lib: Library, members: seq<Member>, format: bool, depth: nat)
    requires Precise(lib) && Doubles(NumbersOfMembers(members)) && NoneOverflows(lib, NumbersOfMembers(members))
    ensures MembersText(lib, MembersBack(lib, members), format, depth) == MembersText(lib, members, format, depth)
    decreases members, 1
  {
    hide Precise, IsDouble, Text, Back, Overflows, Quoted, MemberColon, MemberEnd, Tabs;
    if members != [] {
      SameText(lib, members[0].value, format, depth);
      SameMembersText(lib, members[1..], format, depth);
      MembersBackCons(lib, members);
    }
  }

  // ---------------------------------------------------------------- printing and parsing twice

  /**
    * cJSON_Parse() gives back what cJSON_Print() was given, but for numbers that compare_double() takes for equal, if
    * and only if all numbers are finite and stay so when they are rounded to 15 digits. Printing and parsing again
    * changes neither tree nor text, if and only if no number is taken out of range by that rounding.
    */
  lemma PrintedTwice(lib: Library, j: Json, format: bool, wholeText: bool)
    requires Precise(lib) && Doubles(Numbers(j)) && Readable(j) && Height(j) <= 1000
    ensures var first := Parse(lib.strtod, Text(lib, j, format, 0) + [0], wholeText);
      && first.Some?
      && (Near(j, first.value) <==> NoneOverflows(lib, Numbers(j)) && AllFinite(Numbers(j)))
      && var second := Parse(lib.strtod, Text(lib, first.value, format, 0) + [0], wholeText);
        && (second == first <==> NoneOverflows(lib, Numbers(j)))
        && (Text(lib, first.value, format, 0) == Text(lib, j, format, 0) <==> NoneOverflows(lib, Numbers(j)))
  {
    assert Reads(lib);
    hide Precise, Doubles, Reads, Readable, Parse, Text, Near, NoneOverflows, AllFinite, Back, Height, Numbers;
    TreeRoundTrip(lib, j, format, wholeText);
    BackReadable(lib, j);
    TreeRoundTrip(lib, Back(lib, j), format, wholeText);
    BackIsNear(lib, j);
    BackAgain(lib, j);
    if NoneOverflows(lib, Numbers(j)) {
      SameText(lib, j, format, 0);
    }
  }

  /** DBL_MAX, (2^53 - 1) * 2^971 */
  function LargestDouble(): real { Scaled(PowerOfTwo(53) - 1, 971) }

  lemma LargestIsNoInt()
    ensures IsDouble(LargestDouble()) && !IsInt(Finite(LargestDouble()))
  {
    var m, p := PowerOfTwo(53) - 1, PowerOfTwo(971);
    assert m > INT_MAX by {
      PowerOf32();
      PowersGrow(32, 53);
      hide PowerOfTwo;
    }
    assert m * p >= m by {
      Larger(m, p);
    }
    hide PowerOfTwo;
    assert LargestDouble() == (m * p) as real;
    hide LargestDouble;
  }

  lemma PowerOf32()
    ensures PowerOfTwo(32) == 0x1_0000_0000
  {
    assert PowerOfTwo(8) == 0x100;
    assert PowerOfTwo(16) == 0x1_0000;
    assert PowerOfTwo(24) == 0x100_0000;
  }

  lemma {:induction false} PowersGrow(a: nat, b: nat)
    requires a <= b
    ensures PowerOfTwo(a) <= PowerOfTwo(b)
    decreases b
  {
    if a < b {
      PowersGrow(a, b - 1);
    }
  }

  lemma Larger(m: nat, p: int)
    requires p > 0
    ensures m * p >= m
  {
  }

  /** The 15 digits of DBL_MAX, 1.79769313486232e+308, are more than DBL_MAX: strtod() gives an infinity. */
  lemma LargestIsLost(lib: Library, format: bool, wholeText: bool)
    requires Reads(lib) && lib.strtod(lib.shorter(LargestDouble())).value == Infinity
    ensures var first := Parse(lib.strtod, Text(lib, Number(Finite(LargestDouble())), format, 0) + [0], wholeText);
      && first == Some(Number(Infinity))
      && Text(lib, first.value, format, 0) == NULL_TEXT
  {
    LargestIsNoInt();
    var j := Number(Finite(LargestDouble()));
    assert Back(lib, j) == Number(Infinity) by {
      hide Scaled, PowerOfTwo, IntOf, Decimal;
      assert Whole(lib.strtod, lib.shorter(LargestDouble()));
    }
    hide Parse, Back, LargestDouble, Reads;
    TreeRoundTrip(lib, j, format, wholeText);
  }
}
