/** The kernel's unbalanced binary search tree (kl_binary_tree in
    kernel/klib/data_structures/binary_tree.h). Nodes are modelled as values;
    a node pointer together with its chain of parent links is a Position: the
    subtree the pointer points at and the ancestors above it, nearest first.
    The tree's meaning is its in-order sequence of entries and the dictionary
    that sequence describes. */
module BinaryTree {
  import opened Common
  import opened SortedEntries

  datatype Tree<V> = Nil | Node(left: Tree<V>, key: int, value: V, right: Tree<V>)

  /** One step down from an ancestor: which child was taken, and the rest of that ancestor. */
  datatype Frame<V> = WentLeft(key: int, value: V, right: Tree<V>) | WentRight(left: Tree<V>, key: int, value: V)

  /** A node pointer with its parent chain: `path[0]` is the parent of `focus`. */
  datatype Position<V> = Position(focus: Tree<V>, path: seq<Frame<V>>)

  function Attach<V>(f: Frame<V>, t: Tree<V>): Tree<V>
  {
    match f
    case WentLeft(k, v, r) => Node(t, k, v, r)
    case WentRight(l, k, v) => Node(l, k, v, t)
  }

  /** The whole tree that a subtree and its ancestors make up. */
  function Plug<V>(t: Tree<V>, path: seq<Frame<V>>): Tree<V>
    decreases |path|
  {
    if |path| == 0 then t else Plug(Attach(path[0], t), path[1..])
  }

  function Whole<V>(p: Position<V>): Tree<V>
  {
    Plug(p.focus, p.path)
  }

  /** Follow the left child pointer; the parent becomes the nearest ancestor. */
  function LeftChild<V>(p: Position<V>): (r: Position<V>)
    requires p.focus.Node?
    ensures Whole(r) == Whole(p) && r.focus == p.focus.left
  {
    var f := p.focus;
    var path := [WentLeft(f.key, f.value, f.right)] + p.path;
    assert path[1..] == p.path;
    Position(f.left, path)
  }

  /** Follow the right child pointer. */
  function RightChild<V>(p: Position<V>): (r: Position<V>)
    requires p.focus.Node?
    ensures Whole(r) == Whole(p) && r.focus == p.focus.right
  {
    var f := p.focus;
    var path := [WentRight(f.left, f.key, f.value)] + p.path;
    assert path[1..] == p.path;
    Position(f.right, path)
  }

  ghost function InOrder<V>(t: Tree<V>): seq<Entry<V>>
  {
    match t
    case Nil => []
    case Node(l, k, v, r) => InOrder(l) + [Entry(k, v)] + InOrder(r)
  }

  /** The entries that come before a subtree in the whole tree's order. */
  ghost function Before<V>(path: seq<Frame<V>>): seq<Entry<V>>
    decreases |path|
  {
    if |path| == 0 then []
    else Before(path[1..]) + (match path[0]
                              case WentLeft(_, _, _) => []
                              case WentRight(l, k, v) => InOrder(l) + [Entry(k, v)])
  }

  /** The entries that come after a subtree in the whole tree's order. */
  ghost function After<V>(path: seq<Frame<V>>): seq<Entry<V>>
    decreases |path|
  {
    if |path| == 0 then []
    else (match path[0]
          case WentLeft(k, v, r) => [Entry(k, v)] + InOrder(r)
          case WentRight(_, _, _) => []) + After(path[1..])
  }

  /** The binary search tree ordering: in-order keys strictly increase. */
  ghost predicate Ordered<V>(t: Tree<V>)
  {
    Sorted(InOrder(t))
  }

  /** The dictionary a tree stores. */
  ghost function Content<V>(t: Tree<V>): map<int, V>
  {
    AsMap(InOrder(t))
  }

  lemma {:induction false} PlugInOrder<V>(t: Tree<V>, path: seq<Frame<V>>)
    ensures InOrder(Plug(t, path)) == Before(path) + InOrder(t) + After(path)
    decreases |path|
  {
    if |path| > 0 {
      PlugInOrder(Attach(path[0], t), path[1..]);
    }
  }

  /** k lies strictly between the entries before and after the position. */
  ghost predicate InRange<V>(p: Position<V>, k: int)
  {
    AllBelow(Before(p.path), k) && AllAbove(After(p.path), k)
  }

  lemma FocusSorted<V>(p: Position<V>)
    requires Ordered(Whole(p))
    ensures Ordered(p.focus)
  {
    PlugInOrder(p.focus, p.path);
    SortedHalves(Before(p.path) + InOrder(p.focus), After(p.path));
    SortedHalves(Before(p.path), InOrder(p.focus));
  }

  /** Stepping to the left child keeps a key below the parent's key in range. */
  lemma DescendLeft<V>(p: Position<V>, k: int)
    requires Ordered(Whole(p)) && InRange(p, k) && p.focus.Node? && k < p.focus.key
    ensures InRange(LeftChild(p), k)
  {
    var f := p.focus;
    var path' := LeftChild(p).path;
    assert path'[1..] == p.path;
    FocusSorted(p);
    SortedSplit(InOrder(f.left), Entry(f.key, f.value), InOrder(f.right));
    var a := [Entry(f.key, f.value)] + InOrder(f.right);
    assert AllAbove(a, k) by {
      forall i | 0 <= i < |a| ensures k < a[i].key {
        if i > 0 {
          assert a[i] == InOrder(f.right)[i - 1];
        }
      }
    }
    assert After(path') == a + After(p.path);
  }

  /** Stepping to the right child keeps a key above the parent's key in range. */
  lemma DescendRight<V>(p: Position<V>, k: int)
    requires Ordered(Whole(p)) && InRange(p, k) && p.focus.Node? && p.focus.key < k
    ensures InRange(RightChild(p), k)
  {
    var f := p.focus;
    var path' := RightChild(p).path;
    assert path'[1..] == p.path;
    FocusSorted(p);
    SortedSplit(InOrder(f.left), Entry(f.key, f.value), InOrder(f.right));
    var b := InOrder(f.left) + [Entry(f.key, f.value)];
    assert AllBelow(b, k) by {
      forall i | 0 <= i < |b| ensures b[i].key < k {
        if i < |InOrder(f.left)| {
          assert b[i] == InOrder(f.left)[i];
        }
      }
    }
    assert Before(path') == Before(p.path) + b;
  }

  /** node_search: from the start node, follow the key down and stop at a node
      with that key or at the node whose missing child the key would hang
      from. Only an empty start gives a null result. */
  function NodeSearch<V>(p: Position<V>, k: int): (r: Position<V>)
    ensures Whole(r) == Whole(p)
    ensures r.focus.Nil? <==> p.focus.Nil?
    decreases p.focus
  {
    match p.focus
    case Nil => p
    case Node(l, nk, nv, rt) =>
      if nk == k then p
      else if k < nk then
        if l.Nil? then p else NodeSearch(LeftChild(p), k)
      else
        if rt.Nil? then p else NodeSearch(RightChild(p), k)
  }

  /** On an ordered tree the search ends at the node holding k when k is
      stored, and otherwise at a node that shows k is absent. */
  lemma {:induction false} SearchLands<V>(p: Position<V>, k: int)
    requires Ordered(Whole(p)) && InRange(p, k)
    ensures var r := NodeSearch(p, k);
      (r.focus.Node? && r.focus.key == k) <==> k in Content(Whole(p))
    ensures var r := NodeSearch(p, k);
      r.focus.Node? && r.focus.key == k ==> Content(Whole(p))[k] == r.focus.value
    decreases p.focus
  {
    if p.focus.Nil? {
      MissAt(p, k);
    } else if p.focus.key == k {
      HitAt(p);
    } else if k < p.focus.key {
      if p.focus.left.Nil? {
        MissAt(p, k);
      } else {
        DescendLeft(p, k);
        SearchLands(LeftChild(p), k);
      }
    } else {
      if p.focus.right.Nil? {
        MissAt(p, k);
      } else {
        DescendRight(p, k);
        SearchLands(RightChild(p), k);
      }
    }
  }

  /** The key of the node at a position is stored with that node's value. */
  lemma HitAt<V>(p: Position<V>)
    requires Ordered(Whole(p)) && p.focus.Node?
    ensures p.focus.key in Content(Whole(p)) && Content(Whole(p))[p.focus.key] == p.focus.value
  {
    var f := p.focus;
    PlugInOrder(f, p.path);
    var a := Before(p.path) + InOrder(f.left);
    var b := InOrder(f.right) + After(p.path);
    Regroup(Before(p.path), InOrder(f.left), [Entry(f.key, f.value)], InOrder(f.right), After(p.path));
    ReplaceEntry(a, Entry(f.key, f.value), f.value, b);
  }

  /** A search that stops without finding k (an empty start, or a missing
      child on k's side) proves k absent. */
  lemma MissAt<V>(p: Position<V>, k: int)
    requires Ordered(Whole(p)) && InRange(p, k)
    requires p.focus.Nil? || (k < p.focus.key && p.focus.left.Nil?) || (p.focus.key < k && p.focus.right.Nil?)
    ensures k !in Content(Whole(p))
  {
    var b, m, a := Before(p.path), InOrder(p.focus), After(p.path);
    PlugInOrder(p.focus, p.path);
    FocusSorted(p);
    FocusOutside(p.focus, k);
    Outside(b, m, a, k);
  }

  /** A node whose child on k's side is missing holds no key equal to k. */
  lemma FocusOutside<V>(t: Tree<V>, k: int)
    requires Ordered(t)
    requires t.Nil? || (k < t.key && t.left.Nil?) || (t.key < k && t.right.Nil?)
    ensures AllBelow(InOrder(t), k) || AllAbove(InOrder(t), k)
  {
    if t.Node? {
      SortedSplit(InOrder(t.left), Entry(t.key, t.value), InOrder(t.right));
      if k < t.key {
        assert InOrder(t) == [Entry(t.key, t.value)] + InOrder(t.right);
        assert AllAbove(InOrder(t), k);
      } else {
        assert InOrder(t) == InOrder(t.left) + [Entry(t.key, t.value)];
        assert AllBelow(InOrder(t), k);
      }
    }
  }

  /** A key outside all three runs is not stored. */
  lemma Outside<V>(a: seq<Entry<V>>, m: seq<Entry<V>>, b: seq<Entry<V>>, k: int)
    requires AllBelow(a, k) && (AllBelow(m, k) || AllAbove(m, k)) && AllAbove(b, k)
    ensures k !in AsMap(a + m + b)
  {
    AsMapAppend(a, m);
    AsMapAppend(a + m, b);
    AboveHasNot(a, k);
    AboveHasNot(m, k);
    AboveHasNot(b, k);
  }

  lemma SearchFromRoot<V>(t: Tree<V>, k: int)
    ensures var r := NodeSearch(Position(t, []), k);
      Ordered(t) ==> ((r.focus.Node? && r.focus.key == k) <==> k in Content(t)) &&
                     (r.focus.Node? && r.focus.key == k ==> Content(t)[k] == r.focus.value)
  {
    if Ordered(t) {
      SearchLands(Position(t, []), k);
    }
  }

  /** contains: the search lands on a node holding the key. */
  function Contains<V>(t: Tree<V>, k: int): (r: bool)
    ensures Ordered(t) ==> (r <==> k in Content(t))
  {
    var p := NodeSearch(Position(t, []), k);
    SearchFromRoot(t, k);
    p.focus.Node? && p.focus.key == k
  }

  /** search: the value of the node the search lands on; the key must be present. */
  function Search<V>(t: Tree<V>, k: int): (r: V)
    requires Contains(t, k)
    ensures Ordered(t) ==> k in Content(t) && r == Content(t)[k]
  {
    var p := NodeSearch(Position(t, []), k);
    SearchFromRoot(t, k);
    p.focus.value
  }

  /** find_left_leaf: the leftmost node below a node; nothing of its subtree comes before it. */
  function FindLeftLeaf<V>(p: Position<V>): (r: Position<V>)
    requires p.focus.Node?
    ensures r.focus.Node? && r.focus.left.Nil?
    ensures Whole(r) == Whole(p)
    ensures Before(r.path) == Before(p.path)
    decreases p.focus
  {
    if p.focus.left.Nil? then p
    else
      assert LeftChild(p).path[1..] == p.path;
      FindLeftLeaf(LeftChild(p))
  }

  /** find_right_leaf: the rightmost node below a node; nothing of its subtree comes after it. */
  function FindRightLeaf<V>(p: Position<V>): (r: Position<V>)
    requires p.focus.Node?
    ensures r.focus.Node? && r.focus.right.Nil?
    ensures Whole(r) == Whole(p)
    ensures After(r.path) == After(p.path)
    decreases p.focus
  {
    if p.focus.right.Nil? then p
    else
      assert RightChild(p).path[1..] == p.path;
      FindRightLeaf(RightChild(p))
  }

  /** remove_node: unlink a node. With two children it copies the key and value
      of the leftmost node on the right (left_side_last set) or of the
      rightmost node on the left (left_side_last clear) and removes that node
      instead; otherwise the only child (or nothing) takes its place. Either
      way exactly the node's entry leaves the in-order sequence. */
  function RemoveNode<V>(t: Tree<V>, leftSideLast: bool): (r: Tree<V>)
    requires t.Node?
    ensures InOrder(r) == InOrder(t.left) + InOrder(t.right)
    decreases if t.left.Node? && t.right.Node? then 1 else 0
  {
    if t.left.Node? && t.right.Node? then
      if leftSideLast then
        var s := FindLeftLeaf(Position(t.right, []));
        var rest := RemoveNode(s.focus, leftSideLast);
        SpliceLeftmost(t.right, s, rest);
        Node(t.left, s.focus.key, s.focus.value, Plug(rest, s.path))
      else
        var s := FindRightLeaf(Position(t.left, []));
        var rest := RemoveNode(s.focus, leftSideLast);
        SpliceRightmost(t.left, s, rest);
        Node(Plug(rest, s.path), s.focus.key, s.focus.value, t.right)
    else if t.right.Node? then t.right
    else t.left
  }

  /** Replacing the leftmost node of a subtree by its remainder drops the
      subtree's first entry. */
  lemma SpliceLeftmost<V>(t: Tree<V>, s: Position<V>, rest: Tree<V>)
    requires s.focus.Node? && Whole(s) == t && Before(s.path) == []
    requires InOrder(rest) == InOrder(s.focus.left) + InOrder(s.focus.right) && s.focus.left.Nil?
    ensures InOrder(t) == [Entry(s.focus.key, s.focus.value)] + InOrder(Plug(rest, s.path))
  {
    PlugInOrder(s.focus, s.path);
    PlugInOrder(rest, s.path);
    assert InOrder(s.focus) == [] + [Entry(s.focus.key, s.focus.value)] + InOrder(s.focus.right);
    DropFront(Before(s.path), Entry(s.focus.key, s.focus.value), InOrder(s.focus.right), InOrder(rest), After(s.path));
  }

  /** Replacing the rightmost node of a subtree by its remainder drops the
      subtree's last entry. */
  lemma SpliceRightmost<V>(t: Tree<V>, s: Position<V>, rest: Tree<V>)
    requires s.focus.Node? && Whole(s) == t && After(s.path) == []
    requires InOrder(rest) == InOrder(s.focus.left) + InOrder(s.focus.right) && s.focus.right.Nil?
    ensures InOrder(t) == InOrder(Plug(rest, s.path)) + [Entry(s.focus.key, s.focus.value)]
  {
    PlugInOrder(s.focus, s.path);
    PlugInOrder(rest, s.path);
    assert InOrder(s.focus) == InOrder(rest) + [Entry(s.focus.key, s.focus.value)];
  }

  /** A node with two children takes the in-order predecessor's key and value
      when left_side_last is clear, and the successor's when it is set; the
      other side is untouched. */
  lemma TwoChildRemovalCopiesNeighbour<V>(t: Tree<V>, leftSideLast: bool)
    requires t.Node? && t.left.Node? && t.right.Node?
    ensures var r := RemoveNode(t, leftSideLast);
      r.Node? &&
      (!leftSideLast ==> r.right == t.right &&
                         Entry(r.key, r.value) == InOrder(t.left)[|InOrder(t.left)| - 1]) &&
      (leftSideLast ==> r.left == t.left && Entry(r.key, r.value) == InOrder(t.right)[0])
  {
    if leftSideLast {
      var s := FindLeftLeaf(Position(t.right, []));
      PlugInOrder(s.focus, s.path);
      assert InOrder(s.focus) == [Entry(s.focus.key, s.focus.value)] + InOrder(s.focus.right);
    } else {
      var s := FindRightLeaf(Position(t.left, []));
      PlugInOrder(s.focus, s.path);
      assert InOrder(s.focus) == InOrder(s.focus.left) + [Entry(s.focus.key, s.focus.value)];
    }
  }

  /** Hanging a new node where the search fell off keeps the order and adds the key. */
  lemma PlaceNew<V>(p: Position<V>, k: int, v: V)
    requires Ordered(Whole(p)) && InRange(p, k) && p.focus.Nil?
    ensures Ordered(Plug(Node(Nil, k, v, Nil), p.path))
    ensures Content(Plug(Node(Nil, k, v, Nil), p.path)) == Content(Whole(p))[k := v]
  {
    var b, a, e := Before(p.path), After(p.path), Entry(k, v);
    var t' := Node(Nil, k, v, Nil);
    PlugInOrder(p.focus, p.path);
    PlugInOrder(t', p.path);
    assert InOrder(t') == [e];
    assert InOrder(Whole(p)) == b + a;
    AddEntry(b, e, a);
  }

  /** Overwriting a node's value keeps the order and updates that key only. */
  lemma Overwrite<V>(p: Position<V>, v: V)
    requires Ordered(Whole(p)) && p.focus.Node?
    ensures Ordered(Plug(p.focus.(value := v), p.path))
    ensures Content(Plug(p.focus.(value := v), p.path)) == Content(Whole(p))[p.focus.key := v]
  {
    var f := p.focus;
    var t' := f.(value := v);
    var b, a := Before(p.path) + InOrder(f.left), InOrder(f.right) + After(p.path);
    var e := Entry(f.key, f.value);
    PlugInOrder(f, p.path);
    PlugInOrder(t', p.path);
    Regroup(Before(p.path), InOrder(f.left), [e], InOrder(f.right), After(p.path));
    Regroup(Before(p.path), InOrder(f.left), [Entry(f.key, v)], InOrder(f.right), After(p.path));
    ReplaceEntry(b, e, v, a);
  }

  /** Unlinking a node keeps the order and drops exactly its key. */
  lemma RemoveAt<V>(p: Position<V>, leftSideLast: bool)
    requires Ordered(Whole(p)) && p.focus.Node?
    ensures Ordered(Plug(RemoveNode(p.focus, leftSideLast), p.path))
    ensures Content(Plug(RemoveNode(p.focus, leftSideLast), p.path)) == Content(Whole(p)) - {p.focus.key}
  {
    var f := p.focus;
    var t' := RemoveNode(f, leftSideLast);
    var b, a := Before(p.path) + InOrder(f.left), InOrder(f.right) + After(p.path);
    var e := Entry(f.key, f.value);
    PlugInOrder(f, p.path);
    PlugInOrder(t', p.path);
    Regroup(Before(p.path), InOrder(f.left), [e], InOrder(f.right), After(p.path));
    Regroup2(Before(p.path), InOrder(f.left), InOrder(f.right), After(p.path));
    DropEntry(b, e, a);
  }

  /** One comparison of the ancestor walk in debug_check_node: a key on the
      left of an ancestor is not above it, a key on its right not below it. */
  predicate SideOk<V>(val: int, f: Frame<V>)
  {
    match f
    case WentLeft(k, _, _) => val <= k
    case WentRight(_, k, _) => k <= val
  }

  ghost predicate FitsAll<V>(val: int, path: seq<Frame<V>>)
  {
    forall i | 0 <= i < |path| :: SideOk(val, path[i])
  }

  ghost predicate AllFit<V>(s: seq<Entry<V>>, path: seq<Frame<V>>)
  {
    forall j | 0 <= j < |s| :: FitsAll(s[j].key, path)
  }

  /** What debug_check_node accepts as written: every node with a missing
      child is on the correct side of its direct parent. */
  ghost predicate CheckedAsWritten<V>(t: Tree<V>, path: seq<Frame<V>>)
  {
    match t
    case Nil => true
    case Node(l, k, v, r) =>
      ((l.Nil? || r.Nil?) ==> |path| == 0 || SideOk(k, path[0])) &&
      CheckedAsWritten(l, [WentLeft(k, v, r)] + path) &&
      CheckedAsWritten(r, [WentRight(l, k, v)] + path)
  }

  /** What the check evidently intends: every node with a missing child is on
      the correct side of every ancestor. */
  ghost predicate CheckedCorrected<V>(t: Tree<V>, path: seq<Frame<V>>)
  {
    match t
    case Nil => true
    case Node(l, k, v, r) =>
      ((l.Nil? || r.Nil?) ==> FitsAll(k, path)) &&
      CheckedCorrected(l, [WentLeft(k, v, r)] + path) &&
      CheckedCorrected(r, [WentRight(l, k, v)] + path)
  }

  /** debug_check_node as written. The walk up the parent chain compares the
      starting node's key with an ancestor only when that ancestor's child is
      the starting node itself, which holds for the direct parent alone. (The
      walk's other test, that each node is a child of its parent, always
      passes on a position.) */
  method DebugCheckNode<V>(t: Tree<V>, path: seq<Frame<V>>) returns (ok: bool)
    ensures ok == CheckedAsWritten(t, path)
    decreases t
  {
    if t.Nil? {
      return true;
    }
    if t.left.Nil? || t.right.Nil? {
      var i := 0;
      while i < |path|
        invariant 0 <= i <= |path|
        invariant i > 0 ==> SideOk(t.key, path[0])
      {
        var parentHoldsNode := i == 0;
        if parentHoldsNode && !SideOk(t.key, path[i]) {
          return false;
        }
        i := i + 1;
      }
    }
    if t.left.Node? {
      ok := DebugCheckNode(t.left, [WentLeft(t.key, t.value, t.right)] + path);
      if !ok {
        return;
      }
    }
    if t.right.Node? {
      ok := DebugCheckNode(t.right, [WentRight(t.left, t.key, t.value)] + path);
      if !ok {
        return;
      }
    }
    return true;
  }

  /** The check as written passes a tree that is not a search tree: 7 sits in
      the left subtree of 5 but only ever meets its parent 3. */
  lemma AsWrittenCheckPassesDisorder()
    ensures var t := Node(Node(Nil, 3, 0, Node(Nil, 7, 0, Nil)), 5, 0, Nil);
      CheckedAsWritten(t, []) && !WeakSorted(InOrder(t))
  {
    var n7 := Node(Nil, 7, 0, Nil);
    var n3 := Node(Nil, 3, 0, n7);
    var t := Node(n3, 5, 0, Nil);
    var up3: seq<Frame<int>> := [WentLeft(5, 0, Nil)];
    var up7 := [WentRight(Nil, 3, 0)] + up3;
    assert CheckedAsWritten(Nil, [WentLeft(7, 0, Nil)] + up7) && CheckedAsWritten(Nil, [WentRight(Nil, 7, 0)] + up7);
    assert CheckedAsWritten(n7, up7);
    assert CheckedAsWritten(Nil, [WentLeft(3, 0, n7)] + up3);
    assert CheckedAsWritten(n3, up3);
    assert [WentLeft(5, 0, Nil)] + [] == up3;
    assert CheckedAsWritten(Nil, [WentRight(n3, 5, 0)] + []);
    assert InOrder(t) == [Entry(3, 0), Entry(7, 0), Entry(5, 0)];
    assert InOrder(t)[1].key > InOrder(t)[2].key;
  }

  /** debug_check_node comparing each ancestor with the node on the walk (the
      node the walk stands on, rather than the starting node). */
  method DebugCheckNodeCorrected<V>(t: Tree<V>, path: seq<Frame<V>>) returns (ok: bool)
    ensures ok == CheckedCorrected(t, path)
    decreases t
  {
    if t.Nil? {
      return true;
    }
    if t.left.Nil? || t.right.Nil? {
      var i := 0;
      while i < |path|
        invariant 0 <= i <= |path|
        invariant forall j | 0 <= j < i :: SideOk(t.key, path[j])
      {
        if !SideOk(t.key, path[i]) {
          return false;
        }
        i := i + 1;
      }
    }
    if t.left.Node? {
      ok := DebugCheckNodeCorrected(t.left, [WentLeft(t.key, t.value, t.right)] + path);
      if !ok {
        return;
      }
    }
    if t.right.Node? {
      ok := DebugCheckNodeCorrected(t.right, [WentRight(t.left, t.key, t.value)] + path);
      if !ok {
        return;
      }
    }
    return true;
  }

  /** The corrected check accepts exactly the trees whose in-order keys never decrease. */
  lemma CorrectedCheckIsExact<V>(t: Tree<V>)
    ensures CheckedCorrected(t, []) <==> WeakSorted(InOrder(t))
  {
    if WeakSorted(InOrder(t)) {
      CheckedWhenOrdered(Position(t, []));
    }
    if CheckedCorrected(t, []) {
      OrderedWhenChecked(t, []);
    }
  }

  /** Each ancestor's own entry lies after the subtree when the walk went
      left of it and before the subtree when it went right. */
  lemma {:induction false} FrameEntry<V>(path: seq<Frame<V>>, i: nat)
    requires i < |path|
    ensures path[i].WentLeft? ==> Entry(path[i].key, path[i].value) in After(path)
    ensures path[i].WentRight? ==> Entry(path[i].key, path[i].value) in Before(path)
    decreases i
  {
    if i > 0 {
      FrameEntry(path[1..], i - 1);
    }
  }

  lemma AncestorBounds<V>(p: Position<V>)
    requires WeakSorted(InOrder(Whole(p))) && p.focus.Node?
    ensures FitsAll(p.focus.key, p.path)
  {
    var f := p.focus;
    var e := Entry(f.key, f.value);
    PlugInOrder(f, p.path);
    assert e in InOrder(f);
    forall i | 0 <= i < |p.path| ensures SideOk(f.key, p.path[i]) {
      FrameEntry(p.path, i);
      var g := Entry(p.path[i].key, p.path[i].value);
      if p.path[i].WentLeft? {
        WeakAcross(Before(p.path), InOrder(f), After(p.path), e, g);
      } else {
        WeakAcross(Before(p.path), InOrder(f), After(p.path), g, e);
      }
    }
  }

  lemma {:induction false} CheckedWhenOrdered<V>(p: Position<V>)
    requires WeakSorted(InOrder(Whole(p)))
    ensures CheckedCorrected(p.focus, p.path)
    decreases p.focus
  {
    if p.focus.Node? {
      AncestorBounds(p);
      CheckedWhenOrdered(LeftChild(p));
      CheckedWhenOrdered(RightChild(p));
    }
  }

  lemma FitsCons<V>(val: int, f: Frame<V>, path: seq<Frame<V>>)
    ensures FitsAll(val, [f] + path) <==> SideOk(val, f) && FitsAll(val, path)
  {
    var q := [f] + path;
    if SideOk(val, f) && FitsAll(val, path) {
      forall i | 0 <= i < |q| ensures SideOk(val, q[i]) {
        if i > 0 {
          assert q[i] == path[i - 1];
        }
      }
    }
    if FitsAll(val, q) {
      assert SideOk(val, q[0]);
      forall i | 0 <= i < |path| ensures SideOk(val, path[i]) {
        assert q[i + 1] == path[i];
      }
    }
  }

  /** A node with two children fits its ancestors because the keys on both
      sides of it do. */
  lemma InnerKeyFits<V>(t: Tree<V>, path: seq<Frame<V>>)
    requires t.Node? && t.left.Node? && t.right.Node?
    requires AllFit(InOrder(t.left), [WentLeft(t.key, t.value, t.right)] + path)
    requires AllFit(InOrder(t.right), [WentRight(t.left, t.key, t.value)] + path)
    ensures FitsAll(t.key, path)
  {
    var lo := InOrder(t.left);
    var hi := InOrder(t.right);
    var x := lo[|lo| - 1].key;
    var y := hi[0].key;
    assert FitsAll(x, [WentLeft(t.key, t.value, t.right)] + path);
    assert FitsAll(y, [WentRight(t.left, t.key, t.value)] + path);
    FitsCons(x, WentLeft(t.key, t.value, t.right), path);
    FitsCons(y, WentRight(t.left, t.key, t.value), path);
    forall i | 0 <= i < |path| ensures SideOk(t.key, path[i]) {
      assert SideOk(x, path[i]) && SideOk(y, path[i]);
    }
  }

  lemma {:induction false} OrderedWhenChecked<V>(t: Tree<V>, path: seq<Frame<V>>)
    requires CheckedCorrected(t, path)
    ensures WeakSorted(InOrder(t)) && AllFit(InOrder(t), path)
    decreases t
  {
    if t.Node? {
      var fl, fr := WentLeft(t.key, t.value, t.right), WentRight(t.left, t.key, t.value);
      var lo, hi := InOrder(t.left), InOrder(t.right);
      OrderedWhenChecked(t.left, [fl] + path);
      OrderedWhenChecked(t.right, [fr] + path);
      if t.left.Node? && t.right.Node? {
        InnerKeyFits(t, path);
      }
      forall j | 0 <= j < |lo| ensures lo[j].key <= t.key && FitsAll(lo[j].key, path) {
        FitsCons(lo[j].key, fl, path);
      }
      forall j | 0 <= j < |hi| ensures t.key <= hi[j].key && FitsAll(hi[j].key, path) {
        FitsCons(hi[j].key, fr, path);
      }
      WeakJoin(lo, Entry(t.key, t.value), hi);
      var s := lo + [Entry(t.key, t.value)] + hi;
      forall j | 0 <= j < |s| ensures FitsAll(s[j].key, path) {
        if j < |lo| {
          assert s[j] == lo[j];
        } else if j > |lo| {
          assert s[j] == hi[j - |lo| - 1];
        }
      }
    }
  }

  class BinTree<V> {
    var root: Tree<V>
    /** Which side the last two-child removal took its replacement from. Only
        the constructor writes it, so removal always uses the predecessor. */
    var leftSideLast: bool

    ghost predicate Valid()
      reads this
    {
      Ordered(root)
    }

    constructor ()
      ensures Valid() && root == Nil && !leftSideLast
    {
      root := Nil;
      leftSideLast := false;
    }

    /** insert: walk down from the root; an equal key has its value replaced,
        otherwise a new leaf hangs where the walk fell off the tree. */
    method Insert(k: int, v: V)
      requires Valid()
      modifies this
      ensures Valid()
      ensures Content(root) == old(Content(root))[k := v]
      ensures leftSideLast == old(leftSideLast)
    {
      var p := Position(root, []);
      while p.focus.Node? && p.focus.key != k
        invariant root == old(root) && leftSideLast == old(leftSideLast)
        invariant Whole(p) == root && Ordered(root) && InRange(p, k)
        decreases p.focus
      {
        if k < p.focus.key {
          DescendLeft(p, k);
          p := LeftChild(p);
        } else {
          DescendRight(p, k);
          p := RightChild(p);
        }
      }
      if p.focus.Nil? {
        PlaceNew(p, k, v);
        root := Plug(Node(Nil, k, v, Nil), p.path);
      } else {
        assert p.focus.key == k;
        Overwrite(p, v);
        root := Plug(p.focus.(value := v), p.path);
      }
    }

    /** remove: the key must be present; its node is unlinked. */
    method Remove(k: int)
      requires Valid() && k in Content(root)
      modifies this
      ensures Valid()
      ensures Content(root) == old(Content(root)) - {k}
      ensures leftSideLast == old(leftSideLast)
    {
      var p := NodeSearch(Position(root, []), k);
      SearchLands(Position(root, []), k);
      RemoveAt(p, leftSideLast);
      root := Plug(RemoveNode(p.focus, leftSideLast), p.path);
    }
  }
}
