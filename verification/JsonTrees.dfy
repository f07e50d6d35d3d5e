/** Trees of linked items, and the JSON values they stand for. */
module JsonTrees {
  import opened Wrappers
  import opened Bytes
  import opened JsonText
  import opened JsonItems

  /** The items of a tree: one, and the trees of its children. */
  datatype Shape = Shape(node: Item, kids: seq<Shape>)

  function Nodes(kids: seq<Shape>): (c: seq<Item>)
    ensures |c| == |kids| && forall i :: 0 <= i < |kids| ==> c[i] == kids[i].node
  {
    if kids == [] then [] else Nodes(kids[..|kids| - 1]) + [kids[|kids| - 1].node]
  }

  /** All items under the node of s. */
  ghost function Below(s: Shape): set<Item> {
    All(s.kids)
  }

  /** All items of some trees. */
  ghost function All(kids: seq<Shape>): (r: set<Item>)
    ensures forall i :: 0 <= i < |kids| ==> kids[i].node in r && Below(kids[i]) <= r
  {
    if kids == [] then {}
    else
      var n := |kids| - 1;
      All(kids[..n]) + {kids[n].node} + Below(kids[n])
  }

  /** No item is in two places. */
  ghost predicate Tree(s: Shape) {
    s.node !in Below(s) && Forest(s.kids)
  }

  ghost predicate Forest(kids: seq<Shape>) {
    && (forall i :: 0 <= i < |kids| ==> Tree(kids[i]))
    && (forall i, j :: 0 <= i < |kids| && 0 <= j < |kids| && i != j ==> Apart(kids[i], kids[j]))
  }

  ghost predicate Apart(s: Shape, t: Shape) {
    s.node != t.node && s.node !in Below(t) && Below(s) !! Below(t)
  }

  /** The tree of items stands for j. */
  ghost predicate Built(s: Shape, j: Json)
    reads s.node`kind, s.node`valuestring, s.node`valueint, s.node`valuedouble, s.node`child, Below(s)
    decreases j
  {
    match j
    case Null => s.node.kind == CJSON_NULL && Leaf(s)
    case False => s.node.kind == CJSON_FALSE && Leaf(s)
    case True => s.node.kind == CJSON_TRUE && Leaf(s)
    case Number(v) => HoldsNumber(s.node, v) && Leaf(s)
    case String(chars) => s.node.kind == CJSON_STRING && s.node.valuestring == Some(chars) && Leaf(s)
    case Raw(text) => s.node.kind == CJSON_RAW && s.node.valuestring == Some(text) && Leaf(s)
    case Array(items) =>
      && s.node.kind == CJSON_ARRAY && |s.kids| == |items| && Children(s.node, Nodes(s.kids))
      && forall i :: 0 <= i < |items| ==> Built(s.kids[i], items[i])
    case Object(members) =>
      && s.node.kind == CJSON_OBJECT && |s.kids| == |members| && Children(s.node, Nodes(s.kids))
      && forall i :: 0 <= i < |members| ==>
           s.kids[i].node.name == Some(members[i].name) && Built(s.kids[i], members[i].value)
  }

  /** The types of items, by the numbers that cJSON.h gives them. */
  lemma TypesInNumbers(s: Shape, j: Json)
    requires Built(s, j)
    ensures s.node.kind ==
      match j
      case False => 1
      case True => 2
      case Null => 4
      case Number(_) => 8
      case String(_) => 16
      case Array(_) => 32
      case Object(_) => 64
      case Raw(_) => 128
  {
  }

  ghost predicate HoldsNumber(item: Item, v: Double)
    reads item`kind, item`valueint, item`valuedouble, item`child
  {
    && item.kind == CJSON_NUMBER && item.valuedouble == v && item.child == null
    && (v.NaN? || item.valueint == IntOf(v))
  }

  /** When a value was read into an item: a tree of items under it that stands for the value. */
  ghost predicate Grew(item: Item, s: Shape, value: Json)
    reads s.node`kind, s.node`valuestring, s.node`valueint, s.node`valuedouble, s.node`child, Below(s)
  {
    s.node == item && Tree(s) && Built(s, value)
  }

  lemma LeafIsTree(item: Item)
    ensures Tree(Shape(item, [])) && Below(Shape(item, [])) == {}
  {
  }

  ghost predicate Leaf(s: Shape)
    reads s.node`child
  {
    s.kids == [] && s.node.child == null
  }

  // ---------------------------------------------------------------- building

  /** A list still under construction: like children, but the prev of the first is not set. */
  ghost predicate Linked(head: Item?, current: Item?, c: seq<Item>)
    reads c`next, c`prev
  {
    && Distinct(c) && head == At(c, 0) && current == At(c, |c| - 1)
    && (forall i {:trigger c[i].next} :: 0 <= i < |c| ==> c[i].next == At(c, i + 1))
    && (forall i {:trigger c[i].prev} :: 0 <= i < |c| ==> c[i].prev == At(c, i - 1))
  }

  ghost predicate BuiltAll(kids: seq<Shape>, values: seq<Json>)
    reads All(kids)
  {
    |kids| == |values| && forall i :: 0 <= i < |kids| ==> Built(kids[i], values[i])
  }

  /** The trees read so far by the loop of parse_array() or parse_object(). */
  ghost predicate Growing(head: Item?, current: Item?, kids: seq<Shape>, values: seq<Json>)
    reads All(kids)
  {
    Linked(head, current, Nodes(kids)) && Forest(kids) && BuiltAll(kids, values)
  }

  ghost predicate NamedAll(kids: seq<Shape>, members: seq<Member>)
    reads All(kids)`name
  {
    |kids| == |members| && forall i :: 0 <= i < |kids| ==> kids[i].node.name == Some(members[i].name)
  }

  /** The nodes of a forest are under none of its trees. */
  lemma NodesApart(kids: seq<Shape>, i: nat, k: nat)
    requires Forest(kids) && i < |kids| && k < |kids|
    ensures kids[i].node !in Below(kids[k])
  {
    hide Below;
    if i != k {
      assert Apart(kids[i], kids[k]);
    }
  }

  /** How the loops of parse_array() and parse_object() begin: a new item, linked behind the others. */
  method AppendNew(head: Item?, current: Item?, ghost kids: seq<Shape>, ghost values: seq<Json>)
    returns (first: Item, last: Item)
    requires Growing(head, current, kids, values)
    requires forall x :: x in All(kids) ==> allocated(x)
    modifies Of(current)`next
    ensures fresh(last) && Linked(first, last, Nodes(kids) + [last]) && Forest(kids) && BuiltAll(kids, values)
    ensures last.child == null && last !in All(kids) && first == if head == null then last else head
  {
    hide Built, All, Below, Forest, Nodes, Tree;
    ghost var c, all := Nodes(kids), All(kids);
    var newItem := new Item();
    assert newItem !in all;
    if head == null {
      first, last := newItem, newItem;
    } else {
      first, last := head, newItem;
      current.next := newItem;
      newItem.prev := current;
      forall i | 0 <= i < |kids| ensures Built(kids[i], values[i]) {
        assert kids[i].node in all && Below(kids[i]) <= all && newItem !in all;
        NodesApart(kids, |kids| - 1, i);
      }
    }
    ghost var d := c + [newItem];
    assert d[|c|] == newItem && forall i :: 0 <= i < |c| ==> d[i] == c[i];
  }

  /** One tree more. */
  lemma Grown(head: Item?, current: Item?, kids: seq<Shape>, values: seq<Json>, s: Shape, v: Json)
    requires Linked(head, current, Nodes(kids) + [s.node]) && Forest(kids) && BuiltAll(kids, values)
    requires Tree(s) && Built(s, v) && s.node !in All(kids) && Below(s) !! All(kids)
    ensures Growing(head, current, kids + [s], values + [v]) && All(kids + [s]) == All(kids) + {s.node} + Below(s)
  {
    assert All(kids + [s]) == All(kids) + {s.node} + Below(s) && Nodes(kids + [s]) == Nodes(kids) + [s.node] by {
      assert (kids + [s])[..|kids|] == kids;
    }
    hide Built, Below, Tree, All, Linked, Nodes;
    var k := kids + [s];
    forall i | 0 <= i < |kids| ensures Apart(kids[i], s) && Apart(s, kids[i]) {
      assert kids[i].node in All(kids) && Below(kids[i]) <= All(kids);
    }
    hide Apart;
    assert Forest(k) && BuiltAll(k, values + [v]);
  }

  /** How they end: the list becomes the children of the item. */
  method Close(item: Item, kind: nat, head: Item?, current: Item?, ghost kids: seq<Shape>, ghost values: seq<Json>)
    requires Growing(head, current, kids, values) && item !in All(kids)
    modifies item`kind, item`child, Of(head)`prev
    ensures item.kind == kind && Children(item, Nodes(kids)) && Forest(kids) && BuiltAll(kids, values)
  {
    hide Built, All, Below, Forest, Nodes, Tree;
    if head != null {
      head.prev := current;
    }
    item.kind := kind;
    item.child := head;
    forall i | 0 <= i < |kids| ensures Built(kids[i], values[i]) {
      assert kids[i].node in All(kids) && Below(kids[i]) <= All(kids);
      NodesApart(kids, 0, i);
    }
  }

  function Values(members: seq<Member>): (values: seq<Json>)
    ensures |values| == |members| && forall i :: 0 <= i < |members| ==> values[i] == members[i].value
  {
    if members == [] then [] else Values(members[..|members| - 1]) + [members[|members| - 1].value]
  }

  lemma NothingLinked()
    ensures Growing(null, null, [], []) && All([]) == {}
  {
  }

  lemma NothingNamed()
    ensures NamedAll([], []) && Values([]) == []
  {
  }

  lemma NamedToo(kids: seq<Shape>, members: seq<Member>, s: Shape, m: Member)
    requires NamedAll(kids, members) && s.node.name == Some(m.name)
    ensures NamedAll(kids + [s], members + [m]) && Values(members + [m]) == Values(members) + [m.value]
  {
  }

  lemma ArrayBuilt(s: Shape, items: seq<Json>)
    requires s.node.kind == CJSON_ARRAY && Children(s.node, Nodes(s.kids)) && BuiltAll(s.kids, items)
    requires Forest(s.kids) && s.node !in All(s.kids)
    ensures Tree(s) && Built(s, Array(items))
  {
  }

  lemma ObjectBuilt(s: Shape, members: seq<Member>)
    requires s.node.kind == CJSON_OBJECT && Children(s.node, Nodes(s.kids)) && BuiltAll(s.kids, Values(members))
    requires NamedAll(s.kids, members) && Forest(s.kids) && s.node !in All(s.kids)
    ensures Tree(s) && Built(s, Object(members))
  {
  }

  /** How parse_array() ends: with the elements as children. */
  method CloseArray(item: Item, head: Item?, current: Item?, ghost kids: seq<Shape>, ghost values: seq<Json>)
    requires Growing(head, current, kids, values) && item !in All(kids)
    modifies item`kind, item`child, Of(head)`prev
    ensures Grew(item, Shape(item, kids), Array(values)) && Below(Shape(item, kids)) == All(kids)
  {
    hide Growing, Forest, BuiltAll, All, Nodes;
    Close(item, CJSON_ARRAY, head, current, kids, values);
    ArrayBuilt(Shape(item, kids), values);
  }

  /** How parse_object() ends: with the members as children. */
  method CloseObject(item: Item, head: Item?, current: Item?, ghost kids: seq<Shape>, ghost members: seq<Member>)
    requires Growing(head, current, kids, Values(members)) && NamedAll(kids, members) && item !in All(kids)
    modifies item`kind, item`child, Of(head)`prev
    ensures Grew(item, Shape(item, kids), Object(members)) && Below(Shape(item, kids)) == All(kids)
  {
    hide Growing, Forest, BuiltAll, Values, All, Nodes;
    Close(item, CJSON_OBJECT, head, current, kids, Values(members));
    ObjectBuilt(Shape(item, kids), members);
  }

  // ---------------------------------------------------------------- walking

  lemma ArrayParts(s: Shape, items: seq<Json>)
    requires Built(s, Array(items))
    ensures Children(s.node, Nodes(s.kids)) && BuiltAll(s.kids, items) && Below(s) == All(s.kids)
    ensures s.node.kind == CJSON_ARRAY
  {
  }

  lemma ObjectParts(s: Shape, members: seq<Member>)
    requires Built(s, Object(members))
    ensures Children(s.node, Nodes(s.kids)) && BuiltAll(s.kids, Values(members)) && NamedAll(s.kids, members)
    ensures Below(s) == All(s.kids)
  {
  }

  lemma FirstChild(parent: Item, kids: seq<Shape>)
    requires Children(parent, Nodes(kids))
    ensures parent.child == At(Nodes(kids), 0)
  {
  }

  lemma NextChild(parent: Item, kids: seq<Shape>, i: nat)
    requires Children(parent, Nodes(kids)) && At(Nodes(kids), i) != null
    ensures i < |kids| && kids[i].node == At(Nodes(kids), i) && kids[i].node.next == At(Nodes(kids), i + 1)
    ensures kids[i].node.next == null <==> i + 1 == |kids|
  {
    hide Nodes, Distinct;
    assert Nodes(kids)[i].next == At(Nodes(kids), i + 1);
  }

  lemma SameLength(kids: seq<Shape>, values: seq<Json>)
    requires BuiltAll(kids, values)
    ensures |kids| == |values| == |Nodes(kids)|
  {
  }

  lemma BuiltAt(kids: seq<Shape>, values: seq<Json>, i: nat)
    requires BuiltAll(kids, values) && i < |kids|
    ensures i < |values| && Built(kids[i], values[i]) && Below(kids[i]) <= All(kids)
  {
  }

  lemma NamedAt(kids: seq<Shape>, members: seq<Member>, i: nat)
    requires NamedAll(kids, members) && i < |kids|
    ensures i < |members| && kids[i].node.name == Some(members[i].name)
  {
  }

  // ---------------------------------------------------------------- editing

  function Without<T>(s: seq<T>, i: nat): seq<T>
    requires i < |s|
  {
    s[..i] + s[i + 1..]
  }

  function With<T>(s: seq<T>, i: nat, x: T): seq<T> {
    if i < |s| then s[..i] + [x] + s[i..] else s + [x]
  }

  /** cJSON_DetachItemFromArray() on an array takes an element out of its value, and leaves the element what it was. */
  method DetachElement(parent: Item, which: nat, ghost s: Shape, ghost items: seq<Json>) returns (detached: Item?)
    requires Grew(parent, s, Array(items)) && which < |items| && forall x :: x in Below(s) ==> allocated(x)
    modifies parent`child, Nodes(s.kids)`next, Nodes(s.kids)`prev
    ensures |s.kids| == |items| && detached == s.kids[which].node && Grew(detached, s.kids[which], items[which])
    ensures Grew(parent, Shape(parent, Without(s.kids, which)), Array(Without(items, which)))
  {
    hide Built, All, Below, Forest, Nodes, Tree, Children, Detached, Without;
    ghost var kids := s.kids;
    TreeParts(s);
    ArrayParts(s, items);
    SameLength(kids, items);
    BuiltAt(kids, items, which);
    detached := DetachItemFromArray(parent, which, Nodes(kids));
    assert BuiltAll(kids, items) by {
      forall i | 0 <= i < |kids| ensures Built(kids[i], items[i]) {
        KidApart(s, i);
      }
    }
    BuiltAt(kids, items, which);
    WithoutKid(kids, items, which);
    ArrayBuilt(Shape(parent, Without(kids, which)), Without(items, which));
  }

  lemma TreeParts(s: Shape)
    requires Tree(s)
    ensures Forest(s.kids) && s.node !in All(s.kids) && Below(s) == All(s.kids)
    ensures forall i :: 0 <= i < |s.kids| ==> Tree(s.kids[i])
  {
  }

  lemma KidApart(s: Shape, i: nat)
    requires Tree(s) && i < |s.kids|
    ensures s.kids[i].node != s.node && s.node !in Below(s.kids[i])
    ensures forall k :: 0 <= k < |s.kids| ==> s.kids[k].node !in Below(s.kids[i])
  {
    TreeParts(s);
    hide Below, Forest, Tree;
    assert s.kids[i].node in All(s.kids) && Below(s.kids[i]) <= All(s.kids);
    forall k | 0 <= k < |s.kids| ensures s.kids[k].node !in Below(s.kids[i]) {
      NodesApart(s.kids, k, i);
    }
  }

  lemma WithoutKid(kids: seq<Shape>, values: seq<Json>, which: nat)
    requires Forest(kids) && BuiltAll(kids, values) && which < |kids|
    ensures var k := Without(kids, which);
      && Forest(k) && BuiltAll(k, Without(values, which)) && All(k) <= All(kids)
      && Nodes(k) == Detached(Nodes(kids), which)
  {
    hide Built, Below, Tree, All, Apart, Nodes;
    var k := Without(kids, which);
    WithoutAt(kids, which);
    WithoutAt(values, which);
    WithoutAt(Nodes(kids), which);
    AllWithin(k, kids);
    assert Nodes(k) == Without(Nodes(kids), which) by { hide Without; }
    hide Without;
    forall i, j | 0 <= i < |k| && 0 <= j < |k| && i != j ensures Apart(k[i], k[j]) {
      assert k[i] == kids[if i < which then i else i + 1] && k[j] == kids[if j < which then j else j + 1];
    }
  }

  lemma WithoutAt<T>(s: seq<T>, which: nat)
    requires which < |s|
    ensures var t := Without(s, which);
      |t| == |s| - 1 && forall i :: 0 <= i < |t| ==> t[i] == s[if i < which then i else i + 1]
  {
  }

  lemma WithAt<T>(s: seq<T>, which: nat, x: T)
    ensures var t, at := With(s, which, x), if which < |s| then which else |s|;
      |t| == |s| + 1 && forall i :: 0 <= i < |t| ==> t[i] == if i == at then x else s[if i < at then i else i - 1]
  {
  }

  lemma {:induction false} AllWithin(some: seq<Shape>, kids: seq<Shape>)
    requires forall i :: 0 <= i < |some| ==> some[i] in kids
    ensures All(some) <= All(kids)
  {
    if some != [] {
      hide Below;
      var n := |some| - 1;
      AllWithin(some[..n], kids);
      var i :| 0 <= i < |kids| && kids[i] == some[n];
      assert kids[i].node in All(kids) && Below(kids[i]) <= All(kids);
    }
  }

  /** cJSON_InsertItemInArray() on an array puts a value into its value. */
  method InsertElement(parent: Item, which: nat, newitem: Item, ghost s: Shape, ghost items: seq<Json>,
                       ghost t: Shape, ghost value: Json)
    requires Grew(parent, s, Array(items)) && Grew(newitem, t, value) && newitem.next == null
    requires Apart(s, t) && Apart(t, s)
    requires (forall x :: x in Below(s) ==> allocated(x)) && (forall x :: x in Below(t) ==> allocated(x))
    modifies parent`child, newitem`next, newitem`prev, Nodes(s.kids)`next, Nodes(s.kids)`prev
    ensures Grew(parent, Shape(parent, With(s.kids, which, t)), Array(With(items, which, value)))
  {
    hide Built, All, Below, Forest, Nodes, Tree, Children, Inserted, With;
    ghost var kids := s.kids;
    TreeParts(s);
    ArrayParts(s, items);
    SameLength(kids, items);
    NodesInAll(kids);
    TreeParts(t);
    assert newitem !in Nodes(kids) && newitem !in Below(t);
    var ok := InsertItemInArray(parent, which, newitem, Nodes(kids));
    assert BuiltAll(kids, items) by {
      forall i | 0 <= i < |kids| ensures Built(kids[i], items[i]) {
        KidApart(s, i);
        assert kids[i].node in All(kids) && Below(kids[i]) <= All(kids);
      }
    }
    WithKid(s, items, which, t, value);
    ArrayBuilt(Shape(parent, With(kids, which, t)), With(items, which, value));
  }

  lemma NodesInAll(kids: seq<Shape>)
    ensures forall x :: x in Nodes(kids) ==> x in All(kids)
  {
  }

  lemma WithKid(s: Shape, values: seq<Json>, which: nat, t: Shape, value: Json)
    requires Tree(s) && Tree(t) && Apart(s, t) && Apart(t, s) && BuiltAll(s.kids, values) && Built(t, value)
    ensures var k := With(s.kids, which, t);
      && Forest(k) && BuiltAll(k, With(values, which, value)) && s.node !in All(k)
      && Nodes(k) == Inserted(Nodes(s.kids), which, t.node)
  {
    hide *;
    TreeParts(s);
    AllKidsApart(s, t);
    ForestWith(s.kids, which, t);
    BuiltWith(s.kids, values, which, t, value);
    NodesWith(s.kids, which, t);
    AllWith(s.kids, which, t);
    NotWithin(s, t);
  }

  lemma AllKidsApart(s: Shape, t: Shape)
    requires Apart(s, t) && Apart(t, s)
    ensures forall i :: 0 <= i < |s.kids| ==> Apart(s.kids[i], t) && Apart(t, s.kids[i])
  {
    hide Apart;
    forall i | 0 <= i < |s.kids| ensures Apart(s.kids[i], t) && Apart(t, s.kids[i]) {
      KidsApart(s, i, t);
    }
  }

  lemma AllWith(kids: seq<Shape>, which: nat, t: Shape)
    ensures All(With(kids, which, t)) <= All(kids) + {t.node} + Below(t)
  {
    hide Below, All, With;
    WithAt(kids, which, t);
    AllOfTwo(With(kids, which, t), kids, t);
  }

  lemma ForestWith(kids: seq<Shape>, which: nat, t: Shape)
    requires Forest(kids) && Tree(t)
    requires forall i :: 0 <= i < |kids| ==> Apart(kids[i], t) && Apart(t, kids[i])
    ensures Forest(With(kids, which, t))
  {
    hide Built, Below, Tree, All, With, Apart;
    var k, at := With(kids, which, t), if which < |kids| then which else |kids|;
    WithAt(kids, which, t);
    forall i, j | 0 <= i < |k| && 0 <= j < |k| && i != j ensures Apart(k[i], k[j]) {
      assert i != at ==> k[i] == kids[if i < at then i else i - 1];
      assert j != at ==> k[j] == kids[if j < at then j else j - 1];
    }
  }

  lemma BuiltWith(kids: seq<Shape>, values: seq<Json>, which: nat, t: Shape, value: Json)
    requires BuiltAll(kids, values) && Built(t, value)
    ensures BuiltAll(With(kids, which, t), With(values, which, value))
  {
    hide Built, With;
    WithAt(kids, which, t);
    WithAt(values, which, value);
  }

  lemma NodesWith(kids: seq<Shape>, which: nat, t: Shape)
    ensures Nodes(With(kids, which, t)) == Inserted(Nodes(kids), which, t.node)
  {
    hide Nodes, With;
    var nodes := Nodes(kids);
    WithAt(kids, which, t);
    WithAt(nodes, which, t.node);
    assert With(nodes, which, t.node) == Inserted(nodes, which, t.node) by {
      WithIsInserted(nodes, which, t.node);
    }
  }

  lemma WithIsInserted(c: seq<Item>, which: nat, x: Item)
    ensures With(c, which, x) == Inserted(c, which, x)
  {
  }

  lemma KidsApart(s: Shape, i: nat, t: Shape)
    requires i < |s.kids| && Apart(s, t) && Apart(t, s)
    ensures Apart(s.kids[i], t) && Apart(t, s.kids[i])
  {
    var kids := s.kids;
    assert Below(s) == All(kids);
    hide Below, All;
    assert kids[i].node in All(kids) && Below(kids[i]) <= All(kids);
  }

  lemma NotWithin(s: Shape, t: Shape)
    requires Tree(s) && Apart(s, t)
    ensures s.node !in All(s.kids) + {t.node} + Below(t)
  {
    TreeParts(s);
  }

  lemma {:induction false} AllOfTwo(k: seq<Shape>, kids: seq<Shape>, t: Shape)
    requires forall i :: 0 <= i < |k| ==> k[i] == t || k[i] in kids
    ensures All(k) <= All(kids) + {t.node} + Below(t)
  {
    if k != [] {
      hide Below;
      var n := |k| - 1;
      AllOfTwo(k[..n], kids, t);
      if k[n] != t {
        var i :| 0 <= i < |kids| && kids[i] == k[n];
        assert kids[i].node in All(kids) && Below(kids[i]) <= All(kids);
      }
    }
  }
}
