/** The kernel's intrusive doubly-linked list (klib_list and klib_list_item in
    kernel/include/types/list.h). A list root points at its head and tail
    items; every item points at its neighbours, at the list it belongs to and
    at the object it carries. The order of the items is kept in the ghost
    sequence `nodes`; Valid() ties every pointer to that order. */
module KlibList {
  import opened Common

  class ListItem<T> {
    var prev: ListItem?<T>
    /** The object the item stands for; None is a null item pointer. */
    var item: Option<T>
    var listObj: KList?<T>
    var next: ListItem?<T>

    /** A freshly initialised item: in no list and carrying nothing. */
    constructor ()
      ensures prev == null && item == None && listObj == null && next == null
    {
      prev := null;
      item := None;
      listObj := null;
      next := null;
    }
  }

  /** No item occurs twice. */
  ghost predicate Distinct<T>(nodes: seq<ListItem<T>>)
  {
    forall i, j :: 0 <= i < j < |nodes| ==> nodes[i] != nodes[j]
  }

  lemma DistinctSnoc<T>(nodes: seq<ListItem<T>>, x: ListItem<T>)
    requires Distinct(nodes) && x !in nodes
    ensures Distinct(nodes + [x])
  {
  }

  lemma DistinctCons<T>(x: ListItem<T>, nodes: seq<ListItem<T>>)
    requires Distinct(nodes) && x !in nodes
    ensures Distinct([x] + nodes)
  {
  }

  /** The i-th item links to its neighbours in nodes (null at either end),
      belongs to l and carries an object. */
  ghost predicate LinkedAt<T>(nodes: seq<ListItem<T>>, i: int, l: KList<T>)
    requires 0 <= i < |nodes|
    reads nodes[i]
  {
    nodes[i].listObj == l && nodes[i].item.Some? &&
    nodes[i].prev == (if i == 0 then null else nodes[i - 1]) &&
    nodes[i].next == (if i + 1 == |nodes| then null else nodes[i + 1])
  }

  /** An item with the same neighbours in two orders is linked in both or in
      neither. */
  lemma Relink<T>(a: seq<ListItem<T>>, i: int, b: seq<ListItem<T>>, j: int, l: KList<T>)
    requires 0 <= i < |a| && 0 <= j < |b| && a[i] == b[j]
    requires (i == 0) == (j == 0) && (i > 0 ==> a[i - 1] == b[j - 1])
    requires (i + 1 == |a|) == (j + 1 == |b|) && (i + 1 < |a| ==> a[i + 1] == b[j + 1])
    ensures LinkedAt(a, i, l) == LinkedAt(b, j, l)
  {
  }

  class KList<T> {
    var head: ListItem?<T>
    var tail: ListItem?<T>
    /** The items in list order, from head to tail. */
    ghost var nodes: seq<ListItem<T>>

    /** The list is well formed: head and tail are the ends of `nodes`, each
        item links to its neighbours in `nodes`, believes it is in this list
        and carries an object, and no item occurs twice. */
    ghost predicate Valid()
      reads this, nodes
    {
      (|nodes| == 0 ==> head == null && tail == null) &&
      (|nodes| > 0 ==> head == nodes[0] && tail == nodes[|nodes| - 1]) &&
      (forall i :: 0 <= i < |nodes| ==> LinkedAt(nodes, i, this)) &&
      Distinct(nodes)
    }

    /** A new list root is empty. */
    constructor ()
      ensures head == null && tail == null && nodes == [] && Valid()
    {
      head := null;
      tail := null;
      nodes := [];
    }
  }

  /** klib_list_initialize: the root forgets its items and is empty. */
  method Initialize<T>(l: KList<T>)
    modifies l
    ensures l.head == null && l.tail == null && l.nodes == [] && l.Valid()
  {
    l.head := null;
    l.tail := null;
    l.nodes := [];
  }

  /** klib_list_item_initialize: the item is in no list and carries nothing. */
  method ItemInitialize<T>(n: ListItem<T>)
    modifies n
    ensures n.prev == null && n.item == None && n.listObj == null && n.next == null
  {
    n.item := None;
    n.listObj := null;
    n.next := null;
    n.prev := null;
  }

  /** klib_list_add_tail: the new item becomes the tail; the others keep
      their order. The source asserts that the item carries an object and
      has no successor (nor, in an empty list, a predecessor). */
  method AddTail<T>(l: KList<T>, newItem: ListItem<T>)
    requires l.Valid() && newItem !in l.nodes
    requires newItem.item.Some? && newItem.next == null
    requires l.tail == null ==> newItem.prev == null
    modifies l, newItem, l.tail
    ensures l.Valid() && l.nodes == old(l.nodes) + [newItem]
    ensures l.tail == newItem && newItem.listObj == l
  {
    ghost var n0 := l.nodes;
    ghost var last := l.tail;
    if l.tail == null {
      l.head := newItem;
      l.tail := newItem;
    } else {
      l.tail.next := newItem;
      newItem.prev := l.tail;
      l.tail := newItem;
    }
    newItem.listObj := l;
    l.nodes := l.nodes + [newItem];
    DistinctSnoc(n0, newItem);
    ghost var m := l.nodes;
    forall i | 0 <= i < |m|
      ensures LinkedAt(m, i, l)
    {
      if i + 1 < |n0| {
        assert old(LinkedAt(n0, i, l));
        assert n0[i] != n0[|n0| - 1];
        Relink(n0, i, m, i, l);
      } else if i + 1 == |n0| {
        assert old(LinkedAt(n0, i, l));
      }
    }
  }

  /** klib_list_add_head: the new item becomes the head; the others keep
      their order. */
  method AddHead<T>(l: KList<T>, newItem: ListItem<T>)
    requires l.Valid() && newItem !in l.nodes
    requires newItem.item.Some? && newItem.prev == null
    requires l.head == null ==> newItem.next == null
    modifies l, newItem, l.head
    ensures l.Valid() && l.nodes == [newItem] + old(l.nodes)
    ensures l.head == newItem && newItem.listObj == l
  {
    ghost var n0 := l.nodes;
    ghost var first := l.head;
    if l.head == null {
      l.head := newItem;
      l.tail := newItem;
    } else {
      l.head.prev := newItem;
      newItem.next := l.head;
      l.head := newItem;
    }
    newItem.listObj := l;
    l.nodes := [newItem] + l.nodes;
    DistinctCons(newItem, n0);
    ghost var m := l.nodes;
    forall i | 0 <= i < |m|
      ensures LinkedAt(m, i, l)
    {
      if i > 1 {
        assert old(LinkedAt(n0, i - 1, l));
        assert n0[i - 1] != n0[0];
        Relink(n0, i - 1, m, i, l);
      } else if i == 1 {
        assert old(LinkedAt(n0, 0, l));
      }
    }
  }

  /** nodes with x inserted at position p. */
  function InsertAt<T>(nodes: seq<ListItem<T>>, p: nat, x: ListItem<T>): (r: seq<ListItem<T>>)
    requires p <= |nodes|
    ensures |r| == |nodes| + 1 && r[p] == x
    ensures forall i :: 0 <= i < p ==> r[i] == nodes[i]
    ensures forall i :: p < i < |r| ==> r[i] == nodes[i - 1]
  {
    nodes[..p] + [x] + nodes[p..]
  }

  /** Inserting x at position p keeps the items distinct. */
  lemma DistinctInsert<T>(nodes: seq<ListItem<T>>, p: nat, x: ListItem<T>)
    requires Distinct(nodes) && x !in nodes && p <= |nodes|
    ensures Distinct(InsertAt(nodes, p, x))
  {
    var m := InsertAt(nodes, p, x);
    forall i, j | 0 <= i < j < |m|
      ensures m[i] != m[j]
    {
      if j < p {
      } else if i > p {
      } else if i == p {
        assert m[j] == nodes[j - 1];
      } else if j == p {
        assert m[i] == nodes[i];
      } else {
        assert m[i] == nodes[i] && m[j] == nodes[j - 1];
      }
    }
  }

  /** klib_list_add_after: the new item goes straight after listItem, and
      becomes the tail when listItem was the tail. The source asserts that
      the new item is in no list and carries an object. */
  method AddAfter<T>(listItem: ListItem<T>, newItem: ListItem<T>, ghost l: KList<T>, ghost k: nat)
    requires listItem.listObj == l && l.Valid() && k < |l.nodes| && l.nodes[k] == listItem
    requires newItem.listObj == null && newItem.item.Some?
    modifies l, listItem, newItem, listItem.next
    ensures l.Valid() && l.nodes == old(l.nodes[..k + 1]) + [newItem] + old(l.nodes[k + 1..])
    ensures newItem.listObj == l
    ensures l.tail == (if old(l.tail) == listItem then newItem else old(l.tail))
  {
    ghost var n0 := l.nodes;
    ghost var after := listItem.next;
    assert LinkedAt(n0, k, l);
    assert k + 1 < |n0| ==> LinkedAt(n0, k + 1, l);
    forall j | 0 <= j < |n0|
      ensures n0[j] != newItem
    {
      assert LinkedAt(n0, j, l);
    }
    newItem.next := listItem.next;
    newItem.prev := listItem;
    listItem.next := newItem;
    if newItem.next != null {
      newItem.next.prev := newItem;
    }
    newItem.listObj := listItem.listObj;
    if listItem.listObj.tail == listItem {
      listItem.listObj.tail := newItem;
    }
    l.nodes := InsertAt(n0, k + 1, newItem);
    DistinctInsert(n0, k + 1, newItem);
    ghost var m := l.nodes;
    forall i | 0 <= i < |m|
      ensures LinkedAt(m, i, l)
    {
      if i < k {
        assert old(LinkedAt(n0, i, l));
        assert n0[i] != n0[k] && (k + 1 < |n0| ==> n0[i] != n0[k + 1]);
        Relink(n0, i, m, i, l);
      } else if i > k + 2 {
        assert old(LinkedAt(n0, i - 1, l));
        assert n0[i - 1] != n0[k] && n0[i - 1] != n0[k + 1];
        Relink(n0, i - 1, m, i, l);
      }
    }
    assert m == n0[..k + 1] + [newItem] + n0[k + 1..];
  }

  /** klib_list_add_before: the new item goes straight before listItem, and
      becomes the head when listItem was the head. */
  method AddBefore<T>(listItem: ListItem<T>, newItem: ListItem<T>, ghost l: KList<T>, ghost k: nat)
    requires listItem.listObj == l && l.Valid() && k < |l.nodes| && l.nodes[k] == listItem
    requires newItem.listObj == null && newItem.item.Some?
    modifies l, listItem, newItem, listItem.prev
    ensures l.Valid() && l.nodes == old(l.nodes[..k]) + [newItem] + old(l.nodes[k..])
    ensures newItem.listObj == l
    ensures l.head == (if old(l.head) == listItem then newItem else old(l.head))
  {
    ghost var n0 := l.nodes;
    ghost var before := listItem.prev;
    assert LinkedAt(n0, k, l);
    assert k > 0 ==> LinkedAt(n0, k - 1, l);
    forall j | 0 <= j < |n0|
      ensures n0[j] != newItem
    {
      assert LinkedAt(n0, j, l);
    }
    newItem.prev := listItem.prev;
    newItem.next := listItem;
    listItem.prev := newItem;
    if newItem.prev != null {
      newItem.prev.next := newItem;
    }
    newItem.listObj := listItem.listObj;
    if listItem.listObj.head == listItem {
      listItem.listObj.head := newItem;
    }
    l.nodes := InsertAt(n0, k, newItem);
    DistinctInsert(n0, k, newItem);
    ghost var m := l.nodes;
    forall i | 0 <= i < |m|
      ensures LinkedAt(m, i, l)
    {
      if i + 1 < k {
        assert old(LinkedAt(n0, i, l));
        assert n0[i] != n0[k] && n0[i] != n0[k - 1];
        Relink(n0, i, m, i, l);
      } else if i > k + 1 {
        assert old(LinkedAt(n0, i - 1, l));
        assert n0[i - 1] != n0[k] && (k > 0 ==> n0[i - 1] != n0[k - 1]);
        Relink(n0, i - 1, m, i, l);
      }
    }
    assert m == n0[..k] + [newItem] + n0[k..];
  }

  /** nodes without the item at position p. */
  function RemoveAt<T>(nodes: seq<ListItem<T>>, p: nat): (r: seq<ListItem<T>>)
    requires p < |nodes|
    ensures |r| + 1 == |nodes|
    ensures forall i :: 0 <= i < p ==> r[i] == nodes[i]
    ensures forall i :: p <= i < |r| ==> r[i] == nodes[i + 1]
  {
    nodes[..p] + nodes[p + 1..]
  }

  /** Removing an item keeps the others distinct, and the removed one is
      no longer among them. */
  lemma DistinctRemove<T>(nodes: seq<ListItem<T>>, p: nat)
    requires Distinct(nodes) && p < |nodes|
    ensures Distinct(RemoveAt(nodes, p)) && nodes[p] !in RemoveAt(nodes, p)
  {
    var m := RemoveAt(nodes, p);
    forall i, j | 0 <= i < j < |m|
      ensures m[i] != m[j]
    {
      if j < p {
      } else if i >= p {
        assert m[i] == nodes[i + 1] && m[j] == nodes[j + 1];
      } else {
        assert m[i] == nodes[i] && m[j] == nodes[j + 1];
      }
    }
    forall i | 0 <= i < |m|
      ensures m[i] != nodes[p]
    {
      if i >= p {
        assert m[i] == nodes[i + 1];
      }
    }
  }

  /** klib_list_remove: the entry leaves the list it is in, which keeps the
      other items in their order; the entry's links and list pointer are
      cleared, head and tail move off it when it was at an end. */
  method Remove<T>(entry: ListItem<T>, ghost l: KList<T>, ghost k: nat)
    requires entry.listObj == l && l.Valid() && k < |l.nodes| && l.nodes[k] == entry
    modifies l, entry, entry.prev, entry.next
    ensures l.Valid() && l.nodes == old(l.nodes[..k]) + old(l.nodes[k + 1..])
    ensures entry.listObj == null && entry.next == null && entry.prev == null
    ensures entry.item == old(entry.item)
  {
    ghost var n0 := l.nodes;
    ghost var before := entry.prev;
    ghost var after := entry.next;
    assert LinkedAt(n0, k, l);
    assert k > 0 ==> LinkedAt(n0, k - 1, l);
    assert k + 1 < |n0| ==> LinkedAt(n0, k + 1, l);
    var removingFrom := entry.listObj;
    if entry.prev == null {
      removingFrom.head := entry.next;
    }
    if entry.next == null {
      removingFrom.tail := entry.prev;
    }
    if entry.prev != null {
      entry.prev.next := entry.next;
    }
    if entry.next != null {
      entry.next.prev := entry.prev;
    }
    entry.listObj := null;
    entry.next := null;
    entry.prev := null;
    l.nodes := RemoveAt(n0, k);
    DistinctRemove(n0, k);
    ghost var m := l.nodes;
    forall i | 0 <= i < |m|
      ensures LinkedAt(m, i, l)
    {
      if i + 1 < k {
        assert old(LinkedAt(n0, i, l));
        assert n0[i] != n0[k] && n0[i] != n0[k - 1];
        Relink(n0, i, m, i, l);
      } else if i > k {
        assert old(LinkedAt(n0, i + 1, l));
        assert n0[i + 1] != n0[k] && n0[i + 1] != n0[k + 1] && (k > 0 ==> n0[i + 1] != n0[k - 1]);
        Relink(n0, i + 1, m, i, l);
      }
    }
    assert m == n0[..k] + n0[k + 1..];
  }

  /** klib_list_is_empty. For a well-formed list, empty means no items. */
  method IsEmpty<T>(l: KList<T>) returns (r: bool)
    ensures r <==> l.head == null && l.tail == null
    ensures l.Valid() ==> (r <==> l.nodes == [])
  {
    r := l.head == null && l.tail == null;
  }

  /** klib_list_item_is_in_any_list: whether the item points at a list. Every
      item of a well-formed list does. */
  method ItemIsInAnyList<T>(n: ListItem<T>, ghost l: KList<T>) returns (r: bool)
    ensures r <==> n.listObj != null
    ensures l.Valid() && n in l.nodes ==> r && n.listObj == l
  {
    if l.Valid() && n in l.nodes {
      var i :| 0 <= i < |l.nodes| && l.nodes[i] == n;
      assert LinkedAt(l.nodes, i, l);
    }
    r := n.listObj != null;
  }

  /** The i-th item of a walk is followed by the next one, or by null at
      the end. */
  ghost predicate NextAt<T>(chain: seq<ListItem<T>>, i: int)
    requires 0 <= i < |chain|
    reads chain[i]
  {
    chain[i].next == (if i + 1 == |chain| then null else chain[i + 1])
  }

  /** chain is what following next pointers from the head visits before
      reaching null. The walk of klib_list_get_length ends only when such a
      chain exists; klib_list_is_valid's walk is taken as a lasso below. */
  ghost predicate IsWalk<T>(l: KList<T>, chain: seq<ListItem<T>>)
    reads l, chain
  {
    l.head == (if |chain| == 0 then null else chain[0]) &&
    forall i :: 0 <= i < |chain| ==> NextAt(chain, i)
  }

  /** The items of a well-formed list are the walk from its head. */
  lemma ValidIsWalk<T>(l: KList<T>)
    requires l.Valid()
    ensures IsWalk(l, l.nodes)
  {
    forall i | 0 <= i < |l.nodes|
      ensures NextAt(l.nodes, i)
    {
      assert LinkedAt(l.nodes, i, l);
    }
  }

  /** A walk that reaches null visits no item twice. */
  lemma {:induction false} WalkIsDistinct<T>(l: KList<T>, chain: seq<ListItem<T>>)
    requires IsWalk(l, chain)
    ensures Distinct(chain)
  {
    forall i, j | 0 <= i < j < |chain|
      ensures chain[i] != chain[j]
    {
      WalkNoRepeat(chain, i, j);
    }
  }

  /** Two positions of a null-terminated walk hold different items: equal
      items would have equal successors all the way to the end. */
  lemma {:induction false} WalkNoRepeat<T>(chain: seq<ListItem<T>>, i: int, j: int)
    requires forall k :: 0 <= k < |chain| ==> NextAt(chain, k)
    requires 0 <= i < j < |chain|
    ensures chain[i] != chain[j]
    decreases |chain| - j
  {
    assert NextAt(chain, i) && NextAt(chain, j);
    if j + 1 < |chain| {
      WalkNoRepeat(chain, i + 1, j + 1);
    }
  }

  /** Where the next pointer of item i of a lasso leads: to item i + 1, and
      from the last item to null (back == -1) or back to item back. */
  ghost predicate LassoNextAt<T>(chain: seq<ListItem<T>>, i: int, back: int)
    requires 0 <= i < |chain| && -1 <= back < |chain|
    reads chain[i]
  {
    chain[i].next == (if i + 1 < |chain| then chain[i + 1] else if back < 0 then null else chain[back])
  }

  /** chain is what following next pointers from the head visits before it
      reaches null (back == -1) or an item it has already visited (item
      back). Every list, whatever its pointers, has such a walk: the heap
      is finite. */
  ghost predicate IsLasso<T>(l: KList<T>, chain: seq<ListItem<T>>, back: int)
    reads l, chain
  {
    -1 <= back < |chain| &&
    l.head == (if |chain| == 0 then null else chain[0]) &&
    Distinct(chain) &&
    forall i :: 0 <= i < |chain| ==> LassoNextAt(chain, i, back)
  }

  /** A walk that reaches null is a lasso without a loop. */
  lemma WalkIsLasso<T>(l: KList<T>, chain: seq<ListItem<T>>)
    ensures IsWalk(l, chain) <==> IsLasso(l, chain, -1)
  {
    if IsWalk(l, chain) {
      WalkIsDistinct(l, chain);
      forall i | 0 <= i < |chain|
        ensures LassoNextAt(chain, i, -1)
      {
        assert NextAt(chain, i);
      }
    }
    if IsLasso(l, chain, -1) {
      forall i | 0 <= i < |chain|
        ensures NextAt(chain, i)
      {
        assert LassoNextAt(chain, i, -1);
      }
    }
  }

  /** klib_list_get_length: the number of items the walk from the head
      visits. */
  method GetLength<T>(l: KList<T>, ghost chain: seq<ListItem<T>>) returns (count: nat)
    requires IsWalk(l, chain)
    ensures count == |chain|
  {
    count := 0;
    var listItem := l.head;
    while listItem != null
      invariant count <= |chain|
      invariant listItem == (if count == |chain| then null else chain[count])
      decreases |chain| - count
    {
      assert NextAt(chain, count);
      listItem := listItem.next;
      count := count + 1;
    }
  }

  /** The checks klib_list_is_valid makes of one item it visits: it belongs
      to l; with no predecessor it is the head, otherwise its predecessor
      points back at it; with no successor it is the tail, otherwise its
      successor points back at it; it carries an object. */
  ghost predicate ItemChecks<T>(l: KList<T>, n: ListItem<T>)
    reads l, n, n.prev, n.next
  {
    n.listObj == l &&
    (n.prev == null ==> l.head == n) && (n.prev != null ==> n.prev.next == n) &&
    (n.next == null ==> l.tail == n) && (n.next != null ==> n.next.prev == n) &&
    n.item.Some?
  }

  /** What klib_list_is_valid accepts: head and tail are both null or both
      set, and every item on the walk passes ItemChecks. */
  ghost predicate Consistent<T>(l: KList<T>, chain: seq<ListItem<T>>)
    reads *
  {
    ((l.head == null) == (l.tail == null)) &&
    forall i :: 0 <= i < |chain| ==> ItemChecks(l, chain[i])
  }

  /** A loop that enters the walk below its head cannot pass the checks:
      the item it enters would need two different predecessors, the item
      before it and the last item. */
  lemma {:induction false} BackEdgeInconsistent<T>(l: KList<T>, chain: seq<ListItem<T>>, back: int)
    requires IsLasso(l, chain, back) && back > 0
    ensures !Consistent(l, chain)
  {
    var n := |chain|;
    assert LassoNextAt(chain, back - 1, back) && LassoNextAt(chain, n - 1, back);
    assert chain[back - 1] != chain[n - 1];
  }

  /** klib_list_is_valid, as written, on the walk from the head: it is true
      exactly when the walk reaches null and every item passes the checks.
      A walk that loops back below the head is always refused. A walk that
      loops back to the head with every item passing the checks is a ring
      the source walks forever, and is left out. */
  method IsValid<T>(l: KList<T>, ghost chain: seq<ListItem<T>>, ghost back: int) returns (ok: bool)
    requires IsLasso(l, chain, back)
    requires !(back == 0 && Consistent(l, chain))
    ensures ok <==> back == -1 && Consistent(l, chain)
  {
    if (l.head == null && l.tail != null) || (l.head != null && l.tail == null) {
      return false;
    }
    var cur := l.head;
    ghost var c := 0;
    while cur != null
      invariant c <= |chain|
      invariant c < |chain| ==> cur == chain[c]
      invariant c == |chain| ==> cur == null && back == -1
      invariant forall i :: 0 <= i < c ==> ItemChecks(l, chain[i])
      decreases |chain| - c
    {
      if cur.listObj != l {
        assert !ItemChecks(l, chain[c]);
        return false;
      }
      if cur.prev == null && l.head != cur {
        assert !ItemChecks(l, chain[c]);
        return false;
      } else if cur.prev != null && cur.prev.next != cur {
        assert !ItemChecks(l, chain[c]);
        return false;
      }
      if cur.next == null && l.tail != cur {
        assert !ItemChecks(l, chain[c]);
        return false;
      } else if cur.next != null && cur.next.prev != cur {
        assert !ItemChecks(l, chain[c]);
        return false;
      }
      if cur.item.None? {
        assert !ItemChecks(l, chain[c]);
        return false;
      }
      assert LassoNextAt(chain, c, back);
      if c + 1 == |chain| && back > 0 {
        BackEdgeInconsistent(l, chain, back);
      }
      cur := cur.next;
      c := c + 1;
    }
    return true;
  }

  /** Every well-formed list passes klib_list_is_valid. */
  lemma ValidIsConsistent<T>(l: KList<T>)
    requires l.Valid()
    ensures IsWalk(l, l.nodes) && Consistent(l, l.nodes)
  {
    ValidIsWalk(l);
    var s := l.nodes;
    forall i | 0 <= i < |s|
      ensures ItemChecks(l, s[i])
    {
      assert LinkedAt(s, i, l);
      if i > 0 {
        assert LinkedAt(s, i - 1, l);
      }
      if i + 1 < |s| {
        assert LinkedAt(s, i + 1, l);
      }
    }
  }

  /** A list whose head has a predecessor outside the list, pointing back at
      it, passes klib_list_is_valid although the head is not linked as the
      first item should be (its prev pointer is not null). klib_list_remove
      of that head then leaves the list's head pointer on the removed item. */
  lemma ForeignPrevPassesCheck<T>(l: KList<T>, h: ListItem<T>, x: ListItem<T>)
    requires l.head == h && l.tail == h && h.listObj == l && h.item.Some?
    requires h.next == null && h.prev == x && x.next == h
    ensures IsWalk(l, [h]) && Consistent(l, [h]) && !LinkedAt([h], 0, l)
  {
    assert NextAt([h], 0);
    assert ItemChecks(l, [h][0]);
  }

  /** The item checks with the missing one added: the head has no
      predecessor. */
  ghost predicate ItemChecksCorrected<T>(l: KList<T>, n: ListItem<T>)
    reads l, n, n.prev, n.next
  {
    ItemChecks(l, n) && (l.head == n ==> n.prev == null)
  }

  ghost predicate ConsistentCorrected<T>(l: KList<T>, chain: seq<ListItem<T>>)
    reads *
  {
    ((l.head == null) == (l.tail == null)) &&
    forall i :: 0 <= i < |chain| ==> ItemChecksCorrected(l, chain[i])
  }

  /** With the head's predecessor checked, no loop passes: a loop back to
      the head gives the head the last item as its predecessor, and a loop
      further down fails the checks as written already. */
  lemma {:induction false} CorrectedRejectsLoops<T>(l: KList<T>, chain: seq<ListItem<T>>, back: int)
    requires IsLasso(l, chain, back) && back >= 0
    ensures !ConsistentCorrected(l, chain)
  {
    if back > 0 {
      BackEdgeInconsistent(l, chain, back);
      CorrectedIsStronger(l, chain);
    } else {
      assert LassoNextAt(chain, |chain| - 1, back);
    }
  }

  /** The corrected checks include the checks as written. */
  lemma CorrectedIsStronger<T>(l: KList<T>, chain: seq<ListItem<T>>)
    ensures ConsistentCorrected(l, chain) ==> Consistent(l, chain)
  {
    if ConsistentCorrected(l, chain) {
      forall i | 0 <= i < |chain|
        ensures ItemChecks(l, chain[i])
      {
        assert ItemChecksCorrected(l, chain[i]);
      }
    }
  }

  /** klib_list_is_valid with the head's predecessor checked as well, on
      the walk from the head: it always ends, and is true exactly when the
      walk reaches null and every item passes the corrected checks. */
  method IsValidCorrected<T>(l: KList<T>, ghost chain: seq<ListItem<T>>, ghost back: int) returns (ok: bool)
    requires IsLasso(l, chain, back)
    ensures ok <==> back == -1 && ConsistentCorrected(l, chain)
  {
    if (l.head == null && l.tail != null) || (l.head != null && l.tail == null) {
      return false;
    }
    var cur := l.head;
    ghost var c := 0;
    while cur != null
      invariant c <= |chain|
      invariant c < |chain| ==> cur == chain[c]
      invariant c == |chain| ==> cur == null && back == -1
      invariant forall i :: 0 <= i < c ==> ItemChecksCorrected(l, chain[i])
      decreases |chain| - c
    {
      if cur.listObj != l || cur.item.None? {
        assert !ItemChecksCorrected(l, chain[c]);
        return false;
      }
      if (cur.prev == null) != (l.head == cur) {
        assert !ItemChecksCorrected(l, chain[c]);
        return false;
      } else if cur.prev != null && cur.prev.next != cur {
        assert !ItemChecksCorrected(l, chain[c]);
        return false;
      }
      if cur.next == null && l.tail != cur {
        assert !ItemChecksCorrected(l, chain[c]);
        return false;
      } else if cur.next != null && cur.next.prev != cur {
        assert !ItemChecksCorrected(l, chain[c]);
        return false;
      }
      assert LassoNextAt(chain, c, back);
      if c + 1 == |chain| && back >= 0 {
        CorrectedRejectsLoops(l, chain, back);
      }
      cur := cur.next;
      c := c + 1;
    }
    return true;
  }

  /** The corrected check accepts exactly the well-formed lists: a list is
      well formed if and only if its items are the walk from its head and
      every one of them passes the corrected checks. */
  lemma CorrectedCheckIsExact<T>(l: KList<T>)
    ensures l.Valid() <==> IsWalk(l, l.nodes) && ConsistentCorrected(l, l.nodes)
  {
    var s := l.nodes;
    if l.Valid() {
      ValidIsConsistent(l);
      forall i | 0 <= i < |s|
        ensures ItemChecksCorrected(l, s[i])
      {
        assert ItemChecks(l, s[i]) && LinkedAt(s, i, l);
        if i > 0 {
          assert s[i] != s[0];
        }
      }
    }
    if IsWalk(l, s) && ConsistentCorrected(l, s) {
      WalkIsDistinct(l, s);
      forall i | 0 <= i < |s|
        ensures LinkedAt(s, i, l)
      {
        assert ItemChecksCorrected(l, s[i]) && NextAt(s, i);
        if i > 0 {
          assert ItemChecks(l, s[i - 1]) && NextAt(s, i - 1);
        }
      }
      if |s| > 0 {
        assert ItemChecks(l, s[|s| - 1]) && NextAt(s, |s| - 1);
      }
    }
  }

  /** Adding at the head of a well-formed list grows the length that
      klib_list_get_length reports by one. */
  method AddHeadGrowsLength<T>(l: KList<T>, newItem: ListItem<T>) returns (before: nat, after: nat)
    requires l.Valid() && newItem !in l.nodes
    requires newItem.item.Some? && newItem.prev == null
    requires l.head == null ==> newItem.next == null
    modifies l, newItem, l.head
    ensures l.Valid() && after == before + 1
  {
    ValidIsWalk(l);
    before := GetLength(l, l.nodes);
    AddHead(l, newItem);
    ValidIsWalk(l);
    after := GetLength(l, l.nodes);
  }
}
