/** The child lists of cJSON: doubly linked, with the last item found through the first one's prev.
    Every operation rewires the pointers of real objects; what it does is said about the sequence
    of items that the pointers represent. */
module JsonList {

  class Item {
    var next: Item?
    var prev: Item?
    var child: Item?

    constructor ()
      ensures next == null && prev == null && child == null
    {
      next, prev, child := null, null, null;
    }
  }

  ghost predicate Distinct(items: seq<Item>) {
    forall i, j | 0 <= i < |items| && 0 <= j < |items| && i != j :: items[i] != items[j]
  }

  function NextOf(items: seq<Item>, i: nat): Item? {
    if i + 1 < |items| then items[i + 1] else null
  }

  /** parent's children are items: next and prev are inverse, the first item's prev is the last
      item and the last item's next is null. */
  ghost predicate Linked(parent: Item, items: seq<Item>)
    reads parent, items
  {
    && parent !in items && Distinct(items)
    && parent.child == (if items == [] then null else items[0])
    && (forall i {:trigger items[i].next} | 0 <= i < |items| :: items[i].next == NextOf(items, i))
    && (forall i {:trigger items[i].prev} | 0 < i < |items| :: items[i].prev == items[i - 1])
    && (items != [] ==> items[0].prev == items[|items| - 1])
  }

  // No other item is the one at k.
  lemma Apart(items: seq<Item>, k: int)
    requires Distinct(items)
    ensures 0 <= k < |items| ==> forall i | 0 <= i < |items| && i != k :: items[i] != items[k]
  {
  }

  lemma DistinctWith(items: seq<Item>, k: nat, x: Item)
    requires Distinct(items) && k <= |items| && x !in items
    ensures Distinct(With(items, k, x)) && Distinct(items + [x])
    ensures k < |items| ==> Distinct(Without(items, k)) && Distinct(items[k := x])
  {
    var all := With(items, k, x);
    assert forall i | 0 <= i < |all| :: all[i] == if i < k then items[i] else if i == k then x else items[i - 1];
    if k < |items| {
      var rest := Without(items, k);
      assert forall i | 0 <= i < |rest| :: rest[i] == if i < k then items[i] else items[i + 1];
    }
  }

  lemma DistinctWithout(items: seq<Item>, k: nat)
    requires Distinct(items) && k < |items|
    ensures Distinct(Without(items, k)) && |Without(items, k)| == |items| - 1
    ensures forall i | 0 <= i < |items| - 1 :: Without(items, k)[i] == if i < k then items[i] else items[i + 1]
    ensures forall x | x in Without(items, k) :: x in items
  {
    var rest := Without(items, k);
    assert forall i | 0 <= i < |rest| :: rest[i] == if i < k then items[i] else items[i + 1];
  }

  // The pointers at one position.
  lemma Around(parent: Item, items: seq<Item>, k: nat)
    requires Linked(parent, items) && k < |items|
    ensures items[k].next == NextOf(items, k)
    ensures items[k].prev == if k > 0 then items[k - 1] else items[|items| - 1]
    ensures items[k] == parent.child <==> k == 0
  {
    assert parent.child == items[0];
  }

  /** Appending does not reset the item's next when the list is not empty, so the list stays well
      formed exactly when that was null, as in a new or detached item. */
  method AddItemToArray(list: Item?, item: Item?, ghost items: seq<Item>) returns (ok: bool)
    requires list != null ==> Linked(list, items) && item !in items
    modifies if list != null && item != null then {list, item} + set x | x in items else {}
    ensures ok <==> item != null && list != null && list != item
    ensures ok ==> (Linked(list, items + [item]) <==> items == [] || old(item.next) == null)
    ensures ok ==> item.child == old(item.child)
    ensures !ok ==> (list != null ==> unchanged(list)) && forall x | x in items :: unchanged(x)
    ensures forall x | x in items :: x.child == old(x.child)
  {
    if item == null || list == null || list == item { return false; }
    DistinctWith(items, |items|, item);
    Apart(items, |items| - 1);
    Apart(items, 0);
    hide Distinct;
    var child := list.child;
    if child == null {
      list.child := item;
      item.prev := item;
      item.next := null;
    } else {
      var last := child.prev;
      if last != null {
        last.next := item;
        item.prev := last;
        list.child.prev := item;
      }
    }
    LinkedWith(list, items, item);
    return true;
  }

  // The list once the pointers to and from the new last item are set.
  lemma LinkedWith(list: Item, items: seq<Item>, item: Item)
    requires list !in items && item !in items && list != item && Distinct(items + [item])
    requires list.child == if items == [] then item else items[0]
    requires forall i {:trigger items[i].next} | 0 <= i < |items| ::
               items[i].next == if i + 1 < |items| then items[i + 1] else item
    requires forall i {:trigger items[i].prev} | 0 < i < |items| :: items[i].prev == items[i - 1]
    requires if items == [] then item.prev == item && item.next == null
             else item.prev == items[|items| - 1] && items[0].prev == item
    ensures Linked(list, items + [item]) <==> item.next == null
  {
    hide Distinct;
    var all := items + [item];
    assert all[|items|] == item;
    if item.next == null {
      forall i | 0 <= i < |all| ensures all[i].next == NextOf(all, i) {
        if i < |items| { assert all[i] == items[i]; }
      }
    } else {
      assert all[|items|].next != NextOf(all, |items|);
    }
  }

  method GetArrayItem(list: Item, index: nat, ghost items: seq<Item>) returns (r: Item?)
    requires Linked(list, items)
    ensures r == if index < |items| then items[index] else null
  {
    r := list.child;
    var k := index;
    ghost var i := 0;
    while r != null && k > 0
      invariant 0 <= i <= |items| && i + k == index && 0 <= k
      invariant r == if i < |items| then items[i] else null
      decreases k
    {
      k := k - 1;
      r := r.next;
      i := i + 1;
    }
  }

  function Without<X>(s: seq<X>, k: nat): seq<X>
    requires k < |s|
  {
    s[..k] + s[k + 1..]
  }

  function With<X>(s: seq<X>, k: nat, x: X): seq<X>
    requires k <= |s|
  {
    s[..k] + [x] + s[k..]
  }

  method DetachItemViaPointer(parent: Item?, item: Item?, ghost items: seq<Item>, ghost k: nat) returns (r: Item?)
    requires parent != null && item != null ==>
      Linked(parent, items) && (if k < |items| then items[k] == item else item != parent.child && item.prev == null)
    modifies if parent != null && item != null then {parent, item} + set x | x in items else {}
    ensures parent == null || item == null || k >= |items| ==>
      r == null && (parent != null ==> unchanged(parent)) && forall x | x in items :: unchanged(x)
    ensures parent != null && item != null && k < |items| ==>
      r == item && item.next == null && item.prev == null && Linked(parent, Without(items, k))
    ensures forall x | x in items :: x.child == old(x.child)
  {
    if parent != null && item != null && k < |items| {
      Around(parent, items, k);
    }
    if parent == null || item == null || (item != parent.child && item.prev == null) { return null; }
    Unlink(parent, item, items, k);
    return item;
  }

  method Unlink(parent: Item, item: Item, ghost items: seq<Item>, ghost k: nat)
    requires Linked(parent, items) && k < |items| && items[k] == item
    modifies parent, items
    ensures Linked(parent, Without(items, k)) && item.next == null && item.prev == null
    ensures forall x | x in items :: x.child == old(x.child)
  {
    ghost var rest := Without(items, k);
    Around(parent, items, k);
    DistinctWithout(items, k);
    Apart(items, k - 1);
    Apart(items, k);
    Apart(items, k + 1);
    Apart(items, 0);
    Apart(items, |items| - 1);
    hide Distinct, Without;
    if item != parent.child {
      item.prev.next := item.next;
    }
    if item.next != null {
      item.next.prev := item.prev;
    }
    if item == parent.child {
      parent.child := item.next;
    } else if item.next == null {
      parent.child.prev := item.prev;
    }
    item.prev := null;
    item.next := null;
    forall i | 0 <= i < |rest|
      ensures rest[i].next == NextOf(rest, i)
      ensures i > 0 ==> rest[i].prev == rest[i - 1]
    {
      if i < k {
        assert rest[i] == items[i] && old(items[i].next) == NextOf(items, i);
        assert i > 0 ==> rest[i - 1] == items[i - 1] && old(items[i].prev) == items[i - 1];
      } else {
        assert rest[i] == items[i + 1] && old(items[i + 1].next) == NextOf(items, i + 1);
        assert old(items[i + 1].prev) == items[i];
        assert i > k ==> rest[i - 1] == items[i];
      }
    }
  }

  method InsertItemInArray(list: Item?, which: int, newitem: Item?, ghost items: seq<Item>) returns (ok: bool)
    requires list != null ==> Linked(list, items) && newitem !in items && newitem != list
    modifies if list != null && newitem != null then {list, newitem} + set x | x in items else {}
    ensures ok <==> which >= 0 && newitem != null && list != null
    ensures ok ==> (Linked(list, With(items, if which < |items| then which else |items|, newitem)) <==>
                    which < |items| || items == [] || old(newitem.next) == null)
    ensures !ok ==> (list != null ==> unchanged(list)) && forall x | x in items :: unchanged(x)
    ensures forall x | x in items :: x.child == old(x.child)
  {
    if which < 0 || newitem == null { return false; }
    var after := null;
    if list != null { after := GetArrayItem(list, which, items); }
    if after == null {
      ok := AddItemToArray(list, newitem, items);
      if list != null { assert items[..|items|] + [newitem] + items[|items|..] == items + [newitem]; }
      return;
    }
    Around(list, items, which);
    if after != list.child && after.prev == null { return false; }
    InsertBefore(list, after, newitem, items, which);
    return true;
  }

  // The rewiring for an insertion before an existing item.
  method InsertBefore(list: Item, after: Item, newitem: Item, ghost items: seq<Item>, ghost k: nat)
    requires Linked(list, items) && k < |items| && after == items[k] && newitem !in items && newitem != list
    modifies list, newitem, items
    ensures Linked(list, With(items, k, newitem))
    ensures forall x | x in items :: x.child == old(x.child)
  {
    ghost var all := With(items, k, newitem);
    Around(list, items, k);
    DistinctWith(items, k, newitem);
    Apart(items, k);
    Apart(items, k - 1);
    Apart(items, 0);
    hide Distinct;
    newitem.next := after;
    newitem.prev := after.prev;
    after.prev := newitem;
    if after == list.child {
      list.child := newitem;
    } else {
      newitem.prev.next := newitem;
    }
    forall i | 0 <= i < |all|
      ensures all[i].next == NextOf(all, i)
      ensures i > 0 ==> all[i].prev == all[i - 1]
    {
      if i < k {
        assert all[i] == items[i] && old(items[i].next) == NextOf(items, i);
        assert i > 0 ==> all[i - 1] == items[i - 1] && old(items[i].prev) == items[i - 1];
      } else if i > k {
        assert all[i] == items[i - 1] && old(items[i - 1].next) == NextOf(items, i - 1);
        assert i > k + 1 ==> all[i - 1] == items[i - 2] && old(items[i - 1].prev) == items[i - 2];
      }
    }
  }

  method ReplaceItemViaPointer(parent: Item?, item: Item?, replacement: Item?, ghost items: seq<Item>, ghost k: nat)
    returns (ok: bool)
    requires parent != null ==> Linked(parent, items)
    requires parent != null && item != null && replacement != null && parent.child != null ==>
      k < |items| && items[k] == item && (replacement == item || replacement !in items) && replacement != parent
    modifies if parent != null && item != null && replacement != null
             then {parent, replacement} + set x | x in items
             else {}
    ensures ok <==> parent != null && item != null && replacement != null && items != []
    ensures ok ==> Linked(parent, items[k := replacement])
    ensures ok && replacement != item ==> item.next == null && item.prev == null
    ensures !ok ==> (parent != null ==> unchanged(parent) && forall x | x in items :: unchanged(x))
  {
    if parent == null || parent.child == null || replacement == null || item == null {
      assert parent != null && parent.child == null ==> items == [];
      return false;
    }
    if replacement == item {
      assert items[k := replacement] == items;
      return true;
    }
    Around(parent, items, k);
    replacement.next := item.next;
    replacement.prev := item.prev;
    if replacement.next != null {
      replacement.next.prev := replacement;
    }
    if parent.child == item {
      if parent.child.prev == parent.child {
        replacement.prev := replacement;
      }
      parent.child := replacement;
    } else {
      if replacement.prev != null {
        replacement.prev.next := replacement;
      }
      if replacement.next == null {
        parent.child.prev := replacement;
      }
    }
    item.next := null;
    item.prev := null;
    return true;
  }

  /** The list that parse_array and parse_object build from the items they allocate. */
  method LinkParsed(parent: Item, items: seq<Item>)
    requires parent !in items && Distinct(items)
    requires forall x | x in items :: x.next == null && x.prev == null
    modifies parent, items
    ensures Linked(parent, items)
    ensures forall x | x in items :: x.child == old(x.child)
  {
    var head: Item?, current: Item? := null, null;
    for k := 0 to |items|
      invariant if k == 0 then head == null else head == items[0] && current == items[k - 1]
      invariant forall i {:trigger items[i].next} | 0 <= i < |items| ::
                  items[i].next == if i + 1 < k then items[i + 1] else null
      invariant forall i {:trigger items[i].prev} | 0 <= i < |items| ::
                  items[i].prev == if 0 < i < k then items[i - 1] else null
      invariant forall x | x in items :: x.child == old(x.child)
    {
      var item := items[k];
      if head == null {
        head, current := item, item;
      } else {
        current.next := item;
        item.prev := current;
        current := item;
      }
    }
    if head != null {
      head.prev := current;
    }
    parent.child := head;
  }

  // ----- Sequences of operations -----

  datatype ListOp = Append(x: Item) | Insert(k: nat, x: Item) | Detach(k: nat) | Replace(k: nat, x: Item)

  // An operation on a sequence; a position past the end appends, or changes nothing.
  function Applied(items: seq<Item>, op: ListOp): seq<Item> {
    match op
    case Append(x) => items + [x]
    case Insert(k, x) => With(items, if k < |items| then k else |items|, x)
    case Detach(k) => if k < |items| then Without(items, k) else items
    case Replace(k, x) => if k < |items| then items[k := x] else items
  }

  function AppliedAll(items: seq<Item>, ops: seq<ListOp>): seq<Item>
    decreases |ops|
  {
    if ops == [] then items else AppliedAll(Applied(items, ops[0]), ops[1..])
  }

  // Each operation brings in an item of the pool that is not in the list at that time.
  ghost predicate Fresh(items: seq<Item>, ops: seq<ListOp>, pool: set<Item>)
    decreases |ops|
  {
    ops == [] ||
    (&& (ops[0].Detach? || (ops[0].x in pool && ops[0].x !in items))
     && Fresh(Applied(items, ops[0]), ops[1..], pool))
  }

  /** Items of the pool outside the list are unlinked, as new and as removed items are. */
  ghost predicate Pool(parent: Item, items: seq<Item>, pool: set<Item>)
    reads pool
  {
    && parent !in pool && (forall x | x in items :: x in pool)
    && (forall x | x in pool && x !in items :: x.next == null)
  }

  lemma Members(items: seq<Item>, k: nat, x: Item)
    requires k <= |items|
    ensures forall y :: y in With(items, k, x) <==> y == x || y in items
    ensures forall y :: y in items + [x] <==> y == x || y in items
    ensures k < |items| && Distinct(items) ==> forall y :: y in Without(items, k) <==> y in items && y != items[k]
    ensures k < |items| && Distinct(items)
        ==> forall y :: y in items[k := x] <==> y == x || (y in items && y != items[k])
  {
    assert forall y | y in items :: y in items[..k] || y in items[k..];
    if k < |items| && Distinct(items) {
      assert forall y | y in items && y != items[k] :: y in items[..k] || y in items[k + 1..];
      assert forall y | y in items && y != items[k] :: y in items[k := x] by {
        forall y | y in items && y != items[k] ensures y in items[k := x] {
          var i :| 0 <= i < |items| && items[i] == y;
          assert items[k := x][i] == y;
        }
      }
      assert items[k := x][k] == x;
    }
  }

  method ApplyNew(parent: Item, op: ListOp, ghost items: seq<Item>, ghost pool: set<Item>)
    requires Linked(parent, items) && Pool(parent, items, pool)
    requires (op.Append? || op.Insert?) && op.x in pool && op.x !in items
    modifies parent, pool
    ensures Linked(parent, Applied(items, op)) && Pool(parent, Applied(items, op), pool)
  {
    hide Distinct;
    assert op.x.next == null;
    Members(items, if op.Insert? && op.k < |items| then op.k else |items|, op.x);
    if op.Append? {
      var _ := AddItemToArray(parent, op.x, items);
    } else {
      var _ := InsertItemInArray(parent, op.k, op.x, items);
    }
  }

  lemma LinkedIsDistinct(parent: Item, items: seq<Item>)
    requires Linked(parent, items)
    ensures Distinct(items)
  {
  }

  method ApplyDetach(parent: Item, k: nat, ghost items: seq<Item>, ghost pool: set<Item>)
    requires Linked(parent, items) && Pool(parent, items, pool)
    modifies parent, pool
    ensures Linked(parent, Applied(items, Detach(k))) && Pool(parent, Applied(items, Detach(k)), pool)
  {
    LinkedIsDistinct(parent, items);
    if k < |items| { Members(items, k, items[k]); }
    hide Distinct, Linked, Without;
    var item := GetArrayItem(parent, k, items);
    if item != null {
      var _ := DetachItemViaPointer(parent, item, items, k);
      forall x | x in pool && x !in Without(items, k) ensures x.next == null {
        if x != item { assert x !in items && x != parent && old(x.next) == null; }
      }
    }
  }

  method ApplyReplace(parent: Item, k: nat, x: Item, ghost items: seq<Item>, ghost pool: set<Item>)
    requires Linked(parent, items) && Pool(parent, items, pool) && x in pool && x !in items
    modifies parent, pool
    ensures Linked(parent, Applied(items, Replace(k, x))) && Pool(parent, Applied(items, Replace(k, x)), pool)
  {
    LinkedIsDistinct(parent, items);
    if k < |items| { Replaced(items, k, x); }
    hide Distinct, Linked, Without, With;
    var item := GetArrayItem(parent, k, items);
    if item != null {
      var _ := ReplaceItemViaPointer(parent, item, x, items, k);
      ghost var rest := items[k := x];
      forall y | y in pool && y !in rest ensures y.next == null {
        if y != item { assert y !in items && y != x && old(y.next) == null; }
      }
    }
  }

  lemma Replaced(items: seq<Item>, k: nat, x: Item)
    requires k < |items| && Distinct(items)
    ensures forall y :: y in items[k := x] ==> y == x || y in items
    ensures x in items[k := x] && forall y :: y in items && y != items[k] ==> y in items[k := x]
  {
    Members(items, k, x);
    assert items[k := x][k] == x;
  }

  /** Any sequence of operations keeps the list well formed and changes the sequence it stands for
      by exactly those operations. */
  method ApplyAll(parent: Item, ops: seq<ListOp>, ghost items: seq<Item>, ghost pool: set<Item>)
    requires Linked(parent, items) && Pool(parent, items, pool) && Fresh(items, ops, pool)
    modifies parent, pool
    ensures Linked(parent, AppliedAll(items, ops)) && Pool(parent, AppliedAll(items, ops), pool)
  {
    hide Linked, Pool, Applied;
    ghost var now := items;
    var k := 0;
    while k < |ops|
      invariant 0 <= k <= |ops| && Linked(parent, now) && Pool(parent, now, pool) && Fresh(now, ops[k..], pool)
      invariant AppliedAll(now, ops[k..]) == AppliedAll(items, ops)
    {
      assert ops[k..][0] == ops[k] && ops[k..][1..] == ops[k + 1..];
      if ops[k].Append? || ops[k].Insert? {
        ApplyNew(parent, ops[k], now, pool);
      } else if ops[k].Detach? {
        ApplyDetach(parent, ops[k].k, now, pool);
      } else {
        ApplyReplace(parent, ops[k].k, ops[k].x, now, pool);
      }
      now := Applied(now, ops[k]);
      k := k + 1;
    }
  }
}
