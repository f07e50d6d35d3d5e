/**
  * The children of a cJSON item: a list linked by next, in which prev leads back and the prev of the first
  * child is the last one. The operations that rewire it act on the sequence of the children.
  */
module JsonItems {
  import opened Wrappers
  import opened Bytes
  import opened JsonText

  const CJSON_INVALID := 0
  const CJSON_FALSE := 1
  const CJSON_TRUE := 2
  const CJSON_NULL := 4
  const CJSON_NUMBER := 8
  const CJSON_STRING := 16
  const CJSON_ARRAY := 32
  const CJSON_OBJECT := 64
  const CJSON_RAW := 128

  /** struct cJSON, its field type called kind and its field string called name; C strings that are NULL are None. */
  class Item {
    var next: Item?
    var prev: Item?
    var child: Item?
    var kind: nat
    var valuestring: Option<seq<byte>>
    var valueint: int
    var valuedouble: Double
    var name: Option<seq<byte>>

    /** cJSON_New_Item(): linked to nothing, and nothing in it. */
    constructor ()
      ensures next == null && prev == null && child == null
      ensures kind == CJSON_INVALID && valuestring == None && valueint == 0 && valuedouble == Finite(0.0)
      ensures name == None
    {
      next, prev, child := null, null, null;
      kind, valuestring, valueint, valuedouble, name := CJSON_INVALID, None, 0, Finite(0.0), None;
    }
  }

  /** The children of parent are the items of c, in this order. */
  ghost predicate Children(parent: Item, c: seq<Item>)
    reads parent`child, c`next, c`prev
  {
    && Distinct(c)
    && parent.child == At(c, 0)
    && (forall i {:trigger c[i].next} :: 0 <= i < |c| ==> c[i].next == At(c, i + 1))
    && (forall i {:trigger c[i].prev} :: 0 <= i < |c| ==> c[i].prev == At(c, if i > 0 then i - 1 else |c| - 1))
  }

  ghost predicate Distinct(c: seq<Item>) {
    forall i, j :: 0 <= i < j < |c| ==> c[i] != c[j]
  }

  function At(c: seq<Item>, i: int): Item? {
    if 0 <= i < |c| then c[i] else null
  }

  function Of(x: Item?): set<Item> {
    if x == null then {} else {x}
  }

  // ---------------------------------------------------------------- what the operations mean

  /** Behind the last item, if there is no item at which to insert. */
  function Inserted(c: seq<Item>, which: nat, x: Item): seq<Item> {
    if which < |c| then c[..which] + [x] + c[which..] else c + [x]
  }

  function Detached(c: seq<Item>, which: nat): seq<Item>
    requires which < |c|
  {
    c[..which] + c[which + 1..]
  }

  function IndexOf<T(==)>(c: seq<T>, x: T): (i: nat)
    requires x in c
    ensures i < |c| && c[i] == x
  {
    if c[0] == x then 0 else 1 + IndexOf(c[1..], x)
  }

  /** Inserting and detaching by place. */
  lemma InsertedByPlace(c: seq<Item>, which: nat, x: Item)
    ensures var d, at := Inserted(c, which, x), if which < |c| then which else |c|;
      && |d| == |c| + 1 && d[at] == x
      && forall k :: 0 <= k < |c| ==> d[if k < at then k else k + 1] == c[k]
  {
  }

  lemma DetachedByPlace(c: seq<Item>, which: nat)
    requires which < |c|
    ensures var d := Detached(c, which);
      |d| == |c| - 1 && forall k :: 0 <= k < |d| ==> d[k] == c[if k < which then k else k + 1]
  {
  }

  /** The links of children: next leads on to NULL, prev back, and around from the first to the last. */
  lemma LinksOfChildren(parent: Item, c: seq<Item>, k: nat)
    requires Children(parent, c) && k < |c|
    ensures parent.child == c[0] && c[0].prev == c[|c| - 1]
    ensures c[k].next == (if k + 1 < |c| then c[k + 1] else null) && (k > 0 ==> c[k].prev == c[k - 1])
  {
  }

  /** No two sequences describe the same links. */
  lemma ChildrenUnique(parent: Item, c: seq<Item>, d: seq<Item>)
    requires Children(parent, c) && Children(parent, d)
    ensures c == d
  {
    if |c| <= |d| {
      SamePrefix(parent, c, d, |c|);
    } else {
      SamePrefix(parent, d, c, |d|);
    }
  }

  lemma {:induction false} SamePrefix(parent: Item, c: seq<Item>, d: seq<Item>, n: nat)
    requires Children(parent, c) && Children(parent, d) && n <= |c| <= |d|
    ensures c[..n] == d[..n] && (n == |c| ==> |c| == |d|)
  {
    if n > 0 {
      SamePrefix(parent, c, d, n - 1);
      assert c[n - 1] == d[n - 1] by {
        if n > 1 {
          assert c[n - 2] == c[..n - 1][n - 2] == d[..n - 1][n - 2] == d[n - 2];
          assert c[n - 2].next == c[n - 1];
        }
      }
      assert c[..n] == c[..n - 1] + [c[n - 1]] && d[..n] == d[..n - 1] + [d[n - 1]];
      assert c[n - 1].next == At(c, n) == At(d, n);
    }
  }

  // ---------------------------------------------------------------- reading

  /** cJSON_GetArraySize() */
  method GetArraySize(parent: Item?, ghost c: seq<Item>) returns (size: nat)
    requires parent != null ==> Children(parent, c)
    ensures size == if parent == null then 0 else |c|
  {
    size := 0;
    if parent == null {
      return;
    }
    var current := parent.child;
    while current != null
      invariant size <= |c| && current == At(c, size)
      decreases |c| - size
    {
      size := size + 1;
      current := current.next;
    }
  }

  /** cJSON_GetArrayItem() */
  method GetArrayItem(parent: Item?, index: int, ghost c: seq<Item>) returns (item: Item?)
    requires parent != null ==> Children(parent, c)
    ensures item == if parent == null then null else At(c, index)
  {
    if index < 0 || parent == null {
      return null;
    }
    item := parent.child;
    var left: nat := index;
    while item != null && left > 0
      invariant left <= index
      invariant item == At(c, index - left)
      decreases left
    {
      left := left - 1;
      item := item.next;
    }
  }

  // ---------------------------------------------------------------- rewiring

  method SuffixObject(prev: Item, item: Item)
    modifies prev`next, item`prev
    ensures prev.next == item && item.prev == prev
  {
    prev.next := item;
    item.prev := prev;
  }

  /**
    * add_item_to_array(): links the item behind the last child. That appends it, except that an item whose next is
    * still set brings along what it leads to, and one that is a child already closes a cycle.
    */
  method AddItemToArray(parent: Item?, item: Item?, ghost c: seq<Item>) returns (ok: bool)
    requires parent != null ==> Children(parent, c)
    modifies Of(parent)`child, Of(item)`next, Of(item)`prev, c`next, c`prev
    ensures ok <==> parent != null && item != null && parent != item
    ensures ok ==> (Children(parent, c + [item]) <==> item !in c && (c == [] || old(item.next) == null))
    ensures ok && c == [] ==> parent.child == item && item.prev == item && item.next == null
    ensures ok && c != [] ==> LedBehind(parent, c, item, old(item.next))
    ensures !ok ==> parent != null ==> Children(parent, c)
  {
    if item == null || parent == null || parent == item {
      return false;
    }
    var child := parent.child;
    if child == null {
      parent.child := item;
      item.prev := item;
      item.next := null;
    } else {
      assert child.prev == c[|c| - 1];
      if child.prev != null {
        SuffixObject(child.prev, item);
        parent.child.prev := item;
      }
    }
    ghost var d := c + [item];
    assert d[|c|] == item;
    if item !in c {
      assert d[|c|].next == null <==> c == [] || old(item.next) == null;
    } else {
      ghost var i := IndexOf(c, item);
      assert d[i] == d[|c|];
    }
    ok := true;
  }

  /** The links after item was put behind the children: item keeps its next, unless it was the last child itself. */
  ghost predicate LedBehind(parent: Item, c: seq<Item>, item: Item, next: Item?)
    requires c != []
    reads parent, c, item
  {
    var last := c[|c| - 1];
    && parent.child == c[0] && c[0].prev == item && last.next == item
    && (item != last ==> item.next == next)
    && (item != c[0] ==> item.prev == last)
    && (forall k {:trigger c[k].next} :: 0 <= k < |c| - 1 && c[k] != item ==> c[k].next == c[k + 1])
  }

  /** An item put last that leads on, also one that was a child already: no sequence at all describes the links. */
  lemma LastLeadsNowhere(parent: Item, c: seq<Item>, item: Item, next: Item?, d: seq<Item>)
    requires c != [] && LedBehind(parent, c, item, next) && (item in c || next != null)
    requires item in c ==> Distinct(c) && next == At(c, IndexOf(c, item) + 1)
    ensures !Children(parent, d)
  {
    assert item.next != null;
    if Children(parent, d) {
      HeadKnowsLast(parent, d);
    }
  }

  lemma HeadKnowsLast(parent: Item, d: seq<Item>)
    requires Children(parent, d) && parent.child != null
    ensures parent.child.prev != null && parent.child.prev.next == null
  {
    assert d[0].prev == At(d, |d| - 1);
    assert d[|d| - 1].next == At(d, |d|);
  }

  /** cJSON_DetachItemViaPointer() */
  method DetachItemViaPointer(parent: Item?, item: Item?, ghost c: seq<Item>) returns (detached: Item?)
    requires parent != null ==> Children(parent, c)
    requires parent != null && item != null ==> item in c
    modifies Of(parent)`child, Of(item)`next, Of(item)`prev, c`next, c`prev
    ensures detached == if parent == null then null else item
    ensures detached != null ==>
      Children(parent, Detached(c, IndexOf(c, item))) && item.next == null && item.prev == null
    ensures detached == null && parent != null ==> Children(parent, c)
  {
    if parent == null || item == null {
      return null;
    }
    ghost var i := IndexOf(c, item);
    assert item.prev == At(c, if i > 0 then i - 1 else |c| - 1) && item.next == At(c, i + 1);
    if item != parent.child {
      item.prev.next := item.next;
    }
    if item.next != null {
      item.next.prev := item.prev;
    }
    if item == parent.child {
      parent.child := item.next;
    } else if item.next == null {
      parent.child.prev := item.prev;
    }
    item.prev := null;
    item.next := null;
    detached := item;
    LinksAround(parent, c, i);
  }

  /** The links of the other children lead around child i. */
  ghost predicate LeadAround(parent: Item, c: seq<Item>, i: nat)
    reads parent, c
  {
    var last := if i + 1 == |c| then i - 1 else |c| - 1;
    && parent.child == At(c, if i == 0 then 1 else 0)
    && (forall k {:trigger c[k].next} :: 0 <= k < |c| && k != i ==>
      c[k].next == At(c, if k + 1 == i then i + 1 else k + 1))
    && (forall k {:trigger c[k].prev} :: 0 <= k < |c| && k != i ==>
          c[k].prev == At(c, if k == 0 || (k == 1 && i == 0) then last else if k == i + 1 then i - 1 else k - 1))
  }

  lemma DistinctAfter(c: seq<Item>, i: nat, x: Item?)
    requires i < |c| && Distinct(c) && x !in c
    ensures Distinct(Detached(c, i)) && (x != null ==> Distinct(Inserted(c, i, x)) && Distinct(c[i := x]))
  {
  }

  lemma LinksAround(parent: Item, c: seq<Item>, i: nat)
    requires i < |c| && Distinct(c) && LeadAround(parent, c, i)
    ensures Children(parent, Detached(c, i))
  {
    DistinctAfter(c, i, null);
    hide Distinct;
    var d := Detached(c, i);
    assert forall k :: 0 <= k < |d| ==> d[k] == c[if k < i then k else k + 1];
    assert forall k {:trigger d[k].next} :: 0 <= k < |d| ==> d[k].next == At(d, k + 1);
  }

  /** The links of the children lead to x in front of child i. */
  ghost predicate LeadTo(parent: Item, c: seq<Item>, i: nat, x: Item)
    requires i < |c|
    reads parent, c, x
  {
    && parent.child == (if i == 0 then x else c[0])
    && x.next == c[i] && x.prev == At(c, if i == 0 then |c| - 1 else i - 1)
    && (forall k {:trigger c[k].next} :: 0 <= k < |c| ==> c[k].next == if k + 1 == i then x else At(c, k + 1))
    && (forall k {:trigger c[k].prev} :: 0 <= k < |c| ==>
          c[k].prev == if k == i then x else At(c, if k == 0 then |c| - 1 else k - 1))
  }

  lemma LinksTo(parent: Item, c: seq<Item>, i: nat, x: Item)
    requires i < |c| && Distinct(c) && x !in c && LeadTo(parent, c, i, x)
    ensures Children(parent, Inserted(c, i, x))
  {
    DistinctAfter(c, i, x);
    hide Distinct;
    var d := Inserted(c, i, x);
    assert forall k :: 0 <= k < |d| ==> d[k] == if k == i then x else c[if k < i then k else k - 1];
    assert forall k {:trigger d[k].next} :: 0 <= k < |d| ==> d[k].next == At(d, k + 1);
  }

  /** cJSON_InsertItemInArray(); where it falls back to appending, an item that leads on is appended wrongly. */
  method InsertItemInArray(parent: Item?, which: int, newitem: Item?, ghost c: seq<Item>) returns (ok: bool)
    requires parent != null ==> Children(parent, c)
    requires newitem == null ==> parent == null || !(0 <= which < |c|)
    modifies Of(parent)`child, Of(newitem)`next, Of(newitem)`prev, c`next, c`prev
    ensures ok <==> which >= 0 && parent != null && newitem != null && (parent != newitem || which < |c|)
    ensures ok ==> (Children(parent, Inserted(c, which, newitem)) <==>
      newitem !in c && (which < |c| || c == [] || old(newitem.next) == null))
    ensures !ok && parent != null ==> Children(parent, c)
  {
    if which < 0 {
      return false;
    }
    var afterInserted := GetArrayItem(parent, which, c);
    if afterInserted == null {
      ok := AddItemToArray(parent, newitem, c);
      return;
    }
    assert afterInserted == c[which];
    assert afterInserted.prev == At(c, if which > 0 then which - 1 else |c| - 1);
    newitem.next := afterInserted;
    newitem.prev := afterInserted.prev;
    afterInserted.prev := newitem;
    if afterInserted == parent.child {
      parent.child := newitem;
    } else {
      newitem.prev.next := newitem;
    }
    if newitem !in c {
      LinksTo(parent, c, which, newitem);
    } else {
      InsertedTwice(c, which, newitem);
    }
    ok := true;
  }

  lemma InsertedTwice(c: seq<Item>, which: nat, x: Item)
    requires x in c && which < |c|
    ensures !Distinct(Inserted(c, which, x))
  {
    var d, i := Inserted(c, which, x), IndexOf(c, x);
    assert d[which] == x && d[if i < which then i else i + 1] == x;
  }

  /** cJSON_ReplaceItemViaPointer(), up to the deletion of the old item. */
  method ReplaceItemViaPointer(parent: Item?, item: Item?, replacement: Item?, ghost c: seq<Item>) returns (ok: bool)
    requires parent != null ==> Children(parent, c)
    requires item != null && parent != null ==> item in c
    modifies Of(parent)`child, Of(item)`next, Of(item)`prev, Of(replacement)`next, Of(replacement)`prev, c`next, c`prev
    ensures ok <==> parent != null && parent.child != null && replacement != null && item != null
    ensures ok ==> (Children(parent, c[IndexOf(c, item) := replacement]) <==> replacement == item || replacement !in c)
    ensures ok && replacement != item ==> item.next == null && item.prev == null
    ensures !ok && parent != null ==> Children(parent, c)
  {
    if parent == null || parent.child == null || replacement == null || item == null {
      return false;
    }
    ghost var i := IndexOf(c, item);
    if replacement == item {
      assert c[i := item] == c;
      return true;
    }
    assert item.prev == At(c, if i > 0 then i - 1 else |c| - 1) && item.next == At(c, i + 1);
    replacement.next := item.next;
    replacement.prev := item.prev;
    if replacement.next != null {
      replacement.next.prev := replacement;
    }
    if parent.child == item {
      if parent.child.prev == parent.child {
        replacement.prev := replacement;
      }
      parent.child := replacement;
    } else {
      if replacement.prev != null {
        replacement.prev.next := replacement;
      }
      if replacement.next == null {
        parent.child.prev := replacement;
      }
    }
    item.next := null;
    item.prev := null;
    if replacement !in c {
      LinksThrough(parent, c, i, replacement);
    } else {
      ghost var d, j := c[i := replacement], IndexOf(c, replacement);
      assert d[i] == d[j];
    }
    ok := true;
  }

  /** The links of the other children lead to x in the place of child i. */
  ghost predicate LeadThrough(parent: Item, c: seq<Item>, i: nat, x: Item)
    requires i < |c|
    reads parent, c, x
  {
    && parent.child == (if i == 0 then x else c[0])
    && x.next == At(c, i + 1) && x.prev == (if |c| == 1 then x else At(c, if i == 0 then |c| - 1 else i - 1))
    && (forall k {:trigger c[k].next} :: 0 <= k < |c| && k != i ==> c[k].next == if k + 1 == i then x else At(c, k + 1))
    && (forall k {:trigger c[k].prev} :: 0 <= k < |c| && k != i ==>
          var j := if k == 0 then |c| - 1 else k - 1;
          c[k].prev == if j == i then x else At(c, j))
  }

  lemma LinksThrough(parent: Item, c: seq<Item>, i: nat, x: Item)
    requires i < |c| && Distinct(c) && x !in c && LeadThrough(parent, c, i, x)
    ensures Children(parent, c[i := x])
  {
    DistinctAfter(c, i, x);
    hide Distinct;
    var d := c[i := x];
    assert forall k :: 0 <= k < |d| ==> d[k] == if k == i then x else c[k];
    assert forall k {:trigger d[k].next} :: 0 <= k < |d| ==> d[k].next == At(d, k + 1);
  }

  /** cJSON_DetachItemFromArray() */
  method DetachItemFromArray(parent: Item?, which: int, ghost c: seq<Item>) returns (detached: Item?)
    requires parent != null ==> Children(parent, c)
    modifies Of(parent)`child, c`next, c`prev
    ensures detached == if parent == null then null else At(c, which)
    ensures parent != null ==> Children(parent, if detached == null then c else Detached(c, which))
    ensures detached != null ==> detached.next == null && detached.prev == null
  {
    if which < 0 {
      return null;
    }
    var item := GetArrayItem(parent, which, c);
    if item != null {
      AtIndex(c, which);
    }
    detached := DetachItemViaPointer(parent, item, c);
  }

  lemma AtIndex(c: seq<Item>, which: nat)
    requires which < |c| && Distinct(c)
    ensures IndexOf(c, c[which]) == which
  {
  }

  /** cJSON_ReplaceItemInArray() */
  method ReplaceItemInArray(parent: Item?, which: int, newitem: Item?, ghost c: seq<Item>) returns (ok: bool)
    requires parent != null ==> Children(parent, c)
    modifies Of(parent)`child, Of(newitem)`next, Of(newitem)`prev, c`next, c`prev
    ensures ok <==> parent != null && newitem != null && 0 <= which < |c|
    ensures ok ==> (Children(parent, c[which := newitem]) <==> newitem == c[which] || newitem !in c)
    ensures !ok && parent != null ==> Children(parent, c)
  {
    if which < 0 {
      return false;
    }
    var item := GetArrayItem(parent, which, c);
    if item != null {
      AtIndex(c, which);
    }
    ok := ReplaceItemViaPointer(parent, item, newitem, c);
  }

  // ---------------------------------------------------------------- one call undoes another

  /** Inserting an item and detaching it again leaves the children as they were. */
  method InsertThenDetach(parent: Item, which: nat, newitem: Item, ghost c: seq<Item>) returns (detached: Item?)
    requires Children(parent, c) && newitem !in c && newitem != parent && newitem.next == null
    modifies parent`child, newitem`next, newitem`prev, c`next, c`prev
    ensures detached == newitem && Children(parent, c)
    ensures newitem.next == null && newitem.prev == null
  {
    hide Children, Inserted, Detached, IndexOf, Distinct;
    ghost var d, i := Inserted(c, which, newitem), if which < |c| then which else |c|;
    InsertedAt(c, which, newitem);
    var ok := InsertItemInArray(parent, which, newitem, c);
    ChildrenDistinct(parent, d);
    AtIndex(d, i);
    detached := DetachItemViaPointer(parent, newitem, d);
  }

  /** Detaching a child and inserting it at its place again leaves the children as they were. */
  method DetachThenInsert(parent: Item, which: nat, ghost c: seq<Item>) returns (ok: bool)
    requires Children(parent, c) && which < |c| && c[which] != parent
    modifies parent`child, c`next, c`prev
    ensures ok && Children(parent, c)
  {
    hide Children, Inserted, Detached, IndexOf, Distinct;
    ghost var d := Detached(c, which);
    ChildrenDistinct(parent, c);
    DetachedAt(c, which, c[which]);
    var item := DetachItemFromArray(parent, which, c);
    ok := InsertItemInArray(parent, which, item, d);
    assert c[which := c[which]] == c;
  }

  /** Detaching a child and inserting another item in its place does what replacing it does. */
  method DetachAndInsertReplaces(parent: Item, which: nat, newitem: Item, ghost c: seq<Item>) returns (ok: bool)
    requires Children(parent, c) && which < |c| && newitem !in c && newitem != parent && newitem.next == null
    modifies parent`child, newitem`next, newitem`prev, c`next, c`prev
    ensures ok && Children(parent, c[which := newitem])
  {
    hide Children, Inserted, Detached, IndexOf, Distinct;
    ghost var d := Detached(c, which);
    ChildrenDistinct(parent, c);
    DetachedAt(c, which, newitem);
    var item := DetachItemFromArray(parent, which, c);
    ok := InsertItemInArray(parent, which, newitem, d);
  }

  lemma ChildrenDistinct(parent: Item, c: seq<Item>)
    requires Children(parent, c)
    ensures Distinct(c)
  {
  }

  lemma InsertedAt(c: seq<Item>, which: nat, x: Item)
    ensures var d, i := Inserted(c, which, x), if which < |c| then which else |c|;
      && |d| == |c| + 1 && d[i] == x && Detached(d, i) == c
      && forall k :: 0 <= k < |d| ==> d[k] == x || d[k] in c
  {
  }

  lemma DetachedAt(c: seq<Item>, which: nat, x: Item)
    requires which < |c| && Distinct(c)
    ensures var d := Detached(c, which);
      && |d| == |c| - 1 && (which < |d| || which == |d|) && c[which] !in d && Inserted(d, which, x) == c[which := x]
      && forall k :: 0 <= k < |d| ==> d[k] in c
  {
  }
}
