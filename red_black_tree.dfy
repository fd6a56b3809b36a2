/** The kernel's red-black tree (kl_rb_tree in
    kernel/klib/data_structures/red_black_tree.h). As for the plain search
    tree, nodes are values and a node pointer with its parent chain is a
    Position. A red-black tree keeps the search ordering, a black root, no red
    node with a red child, and the same number of black nodes on every path
    down to a null leaf (a null leaf counts as one black node). */
module RedBlackTree {
  import opened Common
  import opened SortedEntries
  import BinaryTree

  datatype Color = Red | Black

  datatype Tree<V> = Nil | Node(color: Color, left: Tree<V>, key: int, value: V, right: Tree<V>)

  /** One step down from an ancestor: its colour, its entry and the child not taken. */
  datatype Frame<V> =
    | WentLeft(color: Color, key: int, value: V, right: Tree<V>)
    | WentRight(color: Color, left: Tree<V>, key: int, value: V)

  /** A node pointer with its parent chain: `path[0]` is the parent of `focus`. */
  datatype Position<V> = Position(focus: Tree<V>, path: seq<Frame<V>>)

  /** A null leaf is black. */
  function ColorOf<V>(t: Tree<V>): Color
  {
    if t.Nil? then Black else t.color
  }

  function Sibling<V>(f: Frame<V>): Tree<V>
  {
    match f
    case WentLeft(_, _, _, r) => r
    case WentRight(_, l, _, _) => l
  }

  function Attach<V>(f: Frame<V>, t: Tree<V>): Tree<V>
  {
    match f
    case WentLeft(c, k, v, r) => Node(c, t, k, v, r)
    case WentRight(c, l, k, v) => Node(c, l, k, v, t)
  }

  function Plug<V>(t: Tree<V>, path: seq<Frame<V>>): Tree<V>
    decreases |path|
  {
    if |path| == 0 then t else Plug(Attach(path[0], t), path[1..])
  }

  function Whole<V>(p: Position<V>): Tree<V>
  {
    Plug(p.focus, p.path)
  }

  function LeftChild<V>(p: Position<V>): (r: Position<V>)
    requires p.focus.Node?
    ensures Whole(r) == Whole(p) && r.focus == p.focus.left && |r.path| == |p.path| + 1
  {
    var f := p.focus;
    var path := [WentLeft(f.color, f.key, f.value, f.right)] + p.path;
    assert path[1..] == p.path;
    Position(f.left, path)
  }

  function RightChild<V>(p: Position<V>): (r: Position<V>)
    requires p.focus.Node?
    ensures Whole(r) == Whole(p) && r.focus == p.focus.right && |r.path| == |p.path| + 1
  {
    var f := p.focus;
    var path := [WentRight(f.color, f.left, f.key, f.value)] + p.path;
    assert path[1..] == p.path;
    Position(f.right, path)
  }

  /** Follow the parent pointer. */
  function Up<V>(p: Position<V>): (r: Position<V>)
    requires |p.path| > 0
    ensures Whole(r) == Whole(p) && |r.path| == |p.path| - 1
  {
    Position(Attach(p.path[0], p.focus), p.path[1..])
  }

  ghost function InOrder<V>(t: Tree<V>): seq<Entry<V>>
  {
    match t
    case Nil => []
    case Node(_, l, k, v, r) => InOrder(l) + [Entry(k, v)] + InOrder(r)
  }

  ghost function Before<V>(path: seq<Frame<V>>): seq<Entry<V>>
    decreases |path|
  {
    if |path| == 0 then []
    else Before(path[1..]) + (match path[0]
                              case WentLeft(_, _, _, _) => []
                              case WentRight(_, l, k, v) => InOrder(l) + [Entry(k, v)])
  }

  ghost function After<V>(path: seq<Frame<V>>): seq<Entry<V>>
    decreases |path|
  {
    if |path| == 0 then []
    else (match path[0]
          case WentLeft(_, k, v, r) => [Entry(k, v)] + InOrder(r)
          case WentRight(_, _, _, _) => []) + After(path[1..])
  }

  ghost predicate Ordered<V>(t: Tree<V>)
  {
    Sorted(InOrder(t))
  }

  ghost function Content<V>(t: Tree<V>): map<int, V>
  {
    AsMap(InOrder(t))
  }

  lemma {:induction false} PlugInOrder<V>(t: Tree<V>, path: seq<Frame<V>>)
    ensures InOrder(Plug(t, path)) == Before(path) + InOrder(t) + After(path)
    decreases |path|
  {
    if |path| > 0 {
      PlugInOrder(Attach(path[0], t), path[1..]);
    }
  }

  /** Subtrees with the same in-order entries give whole trees with the same entries. */
  lemma SamePlugInOrder<V>(t: Tree<V>, u: Tree<V>, path: seq<Frame<V>>)
    requires InOrder(t) == InOrder(u)
    ensures InOrder(Plug(t, path)) == InOrder(Plug(u, path))
  {
    PlugInOrder(t, path);
    PlugInOrder(u, path);
  }

  // ---------------------------------------------------------------------
  // Colour invariants

  /** Black nodes on every path from t down to a null leaf, counting the leaf
      (debug_verify_black_length's count, following the left spine). */
  function BlackHeight<V>(t: Tree<V>): (h: nat)
    ensures h >= 1
  {
    match t
    case Nil => 1
    case Node(c, l, _, _, _) => BlackHeight(l) + (if c == Black then 1 else 0)
  }

  /** Every path down from each node meets the same number of black nodes. */
  ghost predicate Balanced<V>(t: Tree<V>)
  {
    match t
    case Nil => true
    case Node(_, l, _, _, r) => Balanced(l) && Balanced(r) && BlackHeight(l) == BlackHeight(r)
  }

  /** No red node has a red child. */
  ghost predicate NoRedRed<V>(t: Tree<V>)
  {
    match t
    case Nil => true
    case Node(c, l, _, _, r) =>
      NoRedRed(l) && NoRedRed(r) && (c == Red ==> ColorOf(l) == Black && ColorOf(r) == Black)
  }

  /** The colour rules of a whole red-black tree. */
  ghost predicate RedBlack<V>(t: Tree<V>)
  {
    Balanced(t) && NoRedRed(t) && ColorOf(t) == Black
  }

  /** The ancestors of a subtree of black height h and colour c fit around it:
      each sibling is a sound red-black subtree of the right black height and
      no red ancestor has a red child. */
  ghost predicate PathOk<V>(path: seq<Frame<V>>, h: nat, c: Color)
    decreases |path|
  {
    |path| == 0 ||
    (var f := path[0];
     var s := Sibling(f);
     Balanced(s) && NoRedRed(s) && BlackHeight(s) == h &&
     (f.color == Red ==> c == Black && ColorOf(s) == Black) &&
     PathOk(path[1..], h + (if f.color == Black then 1 else 0), f.color))
  }

  lemma AttachSound<V>(f: Frame<V>, t: Tree<V>)
    requires Balanced(t) && NoRedRed(t)
    requires Balanced(Sibling(f)) && NoRedRed(Sibling(f)) && BlackHeight(Sibling(f)) == BlackHeight(t)
    requires f.color == Red ==> ColorOf(t) == Black && ColorOf(Sibling(f)) == Black
    ensures Balanced(Attach(f, t)) && NoRedRed(Attach(f, t))
    ensures BlackHeight(Attach(f, t)) == BlackHeight(t) + (if f.color == Black then 1 else 0)
    ensures ColorOf(Attach(f, t)) == f.color
  {
  }

  /** A sound subtree placed under fitting ancestors makes a sound whole tree. */
  lemma {:induction false} PlugSound<V>(t: Tree<V>, path: seq<Frame<V>>)
    requires Balanced(t) && NoRedRed(t) && PathOk(path, BlackHeight(t), ColorOf(t))
    ensures Balanced(Plug(t, path)) && NoRedRed(Plug(t, path))
    decreases |path|
  {
    if |path| > 0 {
      AttachSound(path[0], t);
      PlugSound(Attach(path[0], t), path[1..]);
    }
  }

  /** Conversely, the subtree at any position of a sound tree is sound and its
      ancestors fit around it. */
  lemma {:induction false} PlugSoundInverse<V>(t: Tree<V>, path: seq<Frame<V>>)
    requires Balanced(Plug(t, path)) && NoRedRed(Plug(t, path))
    ensures Balanced(t) && NoRedRed(t) && PathOk(path, BlackHeight(t), ColorOf(t))
    decreases |path|
  {
    if |path| > 0 {
      PlugSoundInverse(Attach(path[0], t), path[1..]);
    }
  }

  /** The whole tree's root colour is the outermost ancestor's. */
  lemma {:induction false} PlugColor<V>(t: Tree<V>, path: seq<Frame<V>>)
    ensures ColorOf(Plug(t, path)) == if |path| == 0 then ColorOf(t) else path[|path| - 1].color
    decreases |path|
  {
    if |path| > 0 {
      PlugColor(Attach(path[0], t), path[1..]);
    }
  }

  /** Below a black parent the subtree's own colour does not matter. */
  lemma BlackParentAcceptsAny<V>(path: seq<Frame<V>>, h: nat, c: Color, c': Color)
    requires |path| > 0 && path[0].color == Black && PathOk(path, h, c)
    ensures PathOk(path, h, c')
  {
  }

  // ---------------------------------------------------------------------
  // Rotations

  /** rotate_left: the right child takes the node's place, the node becomes
      its left child and takes over its former left subtree. Colours stay with
      their nodes. */
  function RotateLeft<V>(t: Tree<V>): (r: Tree<V>)
    requires t.Node? && t.right.Node?
    ensures r.Node? && r.left.Node?
    ensures InOrder(r) == InOrder(t)
  {
    var c := t.right;
    Node(c.color, Node(t.color, t.left, t.key, t.value, c.left), c.key, c.value, c.right)
  }

  /** rotate_right: the mirror image of rotate_left. */
  function RotateRight<V>(t: Tree<V>): (r: Tree<V>)
    requires t.Node? && t.left.Node?
    ensures r.Node? && r.right.Node?
    ensures InOrder(r) == InOrder(t)
  {
    var c := t.left;
    Node(c.color, c.left, c.key, c.value, Node(t.color, c.right, t.key, t.value, t.right))
  }

  lemma RotationsInverse<V>(t: Tree<V>)
    requires t.Node? && t.right.Node?
    ensures RotateRight(RotateLeft(t)) == t
  {
  }

  // ---------------------------------------------------------------------
  // Search

  ghost predicate InRange<V>(p: Position<V>, k: int)
  {
    AllBelow(Before(p.path), k) && AllAbove(After(p.path), k)
  }

  lemma FocusSorted<V>(p: Position<V>)
    requires Ordered(Whole(p))
    ensures Ordered(p.focus)
  {
    PlugInOrder(p.focus, p.path);
    SortedHalves(Before(p.path) + InOrder(p.focus), After(p.path));
    SortedHalves(Before(p.path), InOrder(p.focus));
  }

  lemma DescendLeft<V>(p: Position<V>, k: int)
    requires Ordered(Whole(p)) && InRange(p, k) && p.focus.Node? && k < p.focus.key
    ensures InRange(LeftChild(p), k)
  {
    var f := p.focus;
    var path' := LeftChild(p).path;
    assert path'[1..] == p.path;
    FocusSorted(p);
    SortedSplit(InOrder(f.left), Entry(f.key, f.value), InOrder(f.right));
    var a := [Entry(f.key, f.value)] + InOrder(f.right);
    assert AllAbove(a, k) by {
      forall i | 0 <= i < |a| ensures k < a[i].key {
        if i > 0 {
          assert a[i] == InOrder(f.right)[i - 1];
        }
      }
    }
    assert After(path') == a + After(p.path);
  }

  lemma DescendRight<V>(p: Position<V>, k: int)
    requires Ordered(Whole(p)) && InRange(p, k) && p.focus.Node? && p.focus.key < k
    ensures InRange(RightChild(p), k)
  {
    var f := p.focus;
    var path' := RightChild(p).path;
    assert path'[1..] == p.path;
    FocusSorted(p);
    SortedSplit(InOrder(f.left), Entry(f.key, f.value), InOrder(f.right));
    var b := InOrder(f.left) + [Entry(f.key, f.value)];
    assert AllBelow(b, k) by {
      forall i | 0 <= i < |b| ensures b[i].key < k {
        if i < |InOrder(f.left)| {
          assert b[i] == InOrder(f.left)[i];
        }
      }
    }
    assert Before(path') == Before(p.path) + b;
  }

  /** node_search: the node holding k, or the node whose missing child k
      would hang from; null only for an empty start. */
  function NodeSearch<V>(p: Position<V>, k: int): (r: Position<V>)
    ensures Whole(r) == Whole(p)
    ensures r.focus.Nil? <==> p.focus.Nil?
    decreases p.focus
  {
    match p.focus
    case Nil => p
    case Node(_, l, nk, _, rt) =>
      if nk == k then p
      else if k < nk then
        if l.Nil? then p else NodeSearch(LeftChild(p), k)
      else
        if rt.Nil? then p else NodeSearch(RightChild(p), k)
  }

  lemma HitAt<V>(p: Position<V>)
    requires Ordered(Whole(p)) && p.focus.Node?
    ensures p.focus.key in Content(Whole(p)) && Content(Whole(p))[p.focus.key] == p.focus.value
  {
    var f := p.focus;
    PlugInOrder(f, p.path);
    var a := Before(p.path) + InOrder(f.left);
    var b := InOrder(f.right) + After(p.path);
    Regroup(Before(p.path), InOrder(f.left), [Entry(f.key, f.value)], InOrder(f.right), After(p.path));
    ReplaceEntry(a, Entry(f.key, f.value), f.value, b);
  }

  lemma FocusOutside<V>(t: Tree<V>, k: int)
    requires Ordered(t)
    requires t.Nil? || (k < t.key && t.left.Nil?) || (t.key < k && t.right.Nil?)
    ensures AllBelow(InOrder(t), k) || AllAbove(InOrder(t), k)
  {
    if t.Node? {
      SortedSplit(InOrder(t.left), Entry(t.key, t.value), InOrder(t.right));
      if k < t.key {
        assert InOrder(t) == [Entry(t.key, t.value)] + InOrder(t.right);
        assert AllAbove(InOrder(t), k);
      } else {
        assert InOrder(t) == InOrder(t.left) + [Entry(t.key, t.value)];
        assert AllBelow(InOrder(t), k);
      }
    }
  }

  lemma Outside<V>(a: seq<Entry<V>>, m: seq<Entry<V>>, b: seq<Entry<V>>, k: int)
    requires AllBelow(a, k) && (AllBelow(m, k) || AllAbove(m, k)) && AllAbove(b, k)
    ensures k !in AsMap(a + m + b)
  {
    AsMapAppend(a, m);
    AsMapAppend(a + m, b);
    AboveHasNot(a, k);
    AboveHasNot(m, k);
    AboveHasNot(b, k);
  }

  lemma MissAt<V>(p: Position<V>, k: int)
    requires Ordered(Whole(p)) && InRange(p, k)
    requires p.focus.Nil? || (k < p.focus.key && p.focus.left.Nil?) || (p.focus.key < k && p.focus.right.Nil?)
    ensures k !in Content(Whole(p))
  {
    var b, m, a := Before(p.path), InOrder(p.focus), After(p.path);
    PlugInOrder(p.focus, p.path);
    FocusSorted(p);
    FocusOutside(p.focus, k);
    Outside(b, m, a, k);
  }

  lemma {:induction false} SearchLands<V>(p: Position<V>, k: int)
    requires Ordered(Whole(p)) && InRange(p, k)
    ensures var r := NodeSearch(p, k);
      (r.focus.Node? && r.focus.key == k) <==> k in Content(Whole(p))
    ensures var r := NodeSearch(p, k);
      r.focus.Node? && r.focus.key == k ==> Content(Whole(p))[k] == r.focus.value
    decreases p.focus
  {
    if p.focus.Nil? {
      MissAt(p, k);
    } else if p.focus.key == k {
      HitAt(p);
    } else if k < p.focus.key {
      if p.focus.left.Nil? {
        MissAt(p, k);
      } else {
        DescendLeft(p, k);
        SearchLands(LeftChild(p), k);
      }
    } else {
      if p.focus.right.Nil? {
        MissAt(p, k);
      } else {
        DescendRight(p, k);
        SearchLands(RightChild(p), k);
      }
    }
  }

  lemma SearchFromRoot<V>(t: Tree<V>, k: int)
    ensures var r := NodeSearch(Position(t, []), k);
      Ordered(t) ==> ((r.focus.Node? && r.focus.key == k) <==> k in Content(t)) &&
                     (r.focus.Node? && r.focus.key == k ==> Content(t)[k] == r.focus.value)
  {
    if Ordered(t) {
      SearchLands(Position(t, []), k);
    }
  }

  /** contains */
  function Contains<V>(t: Tree<V>, k: int): (r: bool)
    ensures Ordered(t) ==> (r <==> k in Content(t))
  {
    var p := NodeSearch(Position(t, []), k);
    SearchFromRoot(t, k);
    p.focus.Node? && p.focus.key == k
  }

  /** search: the key must be present. */
  function Search<V>(t: Tree<V>, k: int): (r: V)
    requires Contains(t, k)
    ensures Ordered(t) ==> k in Content(t) && r == Content(t)[k]
  {
    var p := NodeSearch(Position(t, []), k);
    SearchFromRoot(t, k);
    p.focus.value
  }

  // ---------------------------------------------------------------------
  // Insertion

  /** find_uncle: the sibling of the parent, null without a grandparent. */
  function FindUncle<V>(p: Position<V>): Tree<V>
  {
    if |p.path| < 2 then Nil else Sibling(p.path[1])
  }

  /** The fix-up loop's invariant: the node it looks at is red and sound, and
      the whole tree would be a red-black tree if that node were black. */
  ghost predicate InsertInv<V>(p: Position<V>)
  {
    p.focus.Node? && p.focus.color == Red && Balanced(p.focus) && NoRedRed(p.focus) &&
    PathOk(p.path, BlackHeight(p.focus), Black) &&
    (|p.path| > 0 ==> p.path[|p.path| - 1].color == Black)
  }

  /** Red parent and red uncle: both turn black, the grandparent turns red and
      becomes the node to look at. */
  function RecolorUp<V>(p: Position<V>): (r: Position<V>)
    requires |p.path| >= 2 && FindUncle(p).Node?
    ensures |r.path| == |p.path| - 2
  {
    var parent := Attach(p.path[0].(color := Black), p.focus);
    var u := FindUncle(p).(color := Black);
    var g := match p.path[1]
             case WentLeft(_, gk, gv, _) => Node(Red, parent, gk, gv, u)
             case WentRight(_, _, gk, gv) => Node(Red, u, gk, gv, parent);
    Position(g, p.path[2..])
  }

  lemma RecolorUpSound<V>(p: Position<V>)
    requires InsertInv(p) && |p.path| >= 2 && p.path[0].color == Red
    requires FindUncle(p).Node? && FindUncle(p).color == Red
    ensures InsertInv(RecolorUp(p))
    ensures InOrder(Whole(RecolorUp(p))) == InOrder(Whole(p))
  {
    var n, pf, gf := p.focus, p.path[0], p.path[1];
    var h := BlackHeight(n);
    var rest := p.path[2..];
    assert p.path[1..][1..] == rest;
    assert PathOk(p.path[1..], h, Red);
    assert gf.color == Black;
    assert PathOk(rest, h + 1, Black);
    var parent := Attach(pf.(color := Black), n);
    var u := FindUncle(p);
    AttachSound(pf.(color := Black), n);
    var g := RecolorUp(p).focus;
    assert Balanced(u.(color := Black)) && NoRedRed(u.(color := Black));
    assert Balanced(g) && NoRedRed(g) && BlackHeight(g) == h + 1;
    if |rest| > 0 {
      assert rest[|rest| - 1] == p.path[|p.path| - 1];
    }
    var old2 := Attach(gf, Attach(pf, n));
    assert InOrder(g) == InOrder(old2);
    SamePlugInOrder(g, old2, rest);
    assert Plug(old2, rest) == Whole(p) by {
      assert Up(Up(p)) == Position(old2, rest);
    }
  }

  /** Red parent, black uncle: rotate the new node outward if it is an inner
      grandchild (rotate_left/right at the parent), then recolour the parent
      black and the grandparent red and rotate at the grandparent. */
  function RotationFix<V>(p: Position<V>): Tree<V>
    requires |p.path| >= 2 && p.focus.Node?
  {
    Plug(RotationTop(p), p.path[2..])
  }

  /** The subtree that takes the grandparent's place in RotationFix. */
  function RotationTop<V>(p: Position<V>): (r: Tree<V>)
    requires |p.path| >= 2 && p.focus.Node?
    ensures InOrder(r) == InOrder(Attach(p.path[1], Attach(p.path[0], p.focus)))
  {
    var parentPos := Up(p);
    var nodeLeft := p.path[0].WentLeft?;
    var gf := p.path[1];
    var savedParent :=
      if !nodeLeft && gf.WentLeft? then RotateLeft(parentPos.focus)
      else if nodeLeft && gf.WentRight? then RotateRight(parentPos.focus)
      else parentPos.focus;
    var nodeLeftOfSaved := if !nodeLeft && gf.WentLeft? then true
                           else if nodeLeft && gf.WentRight? then false
                           else nodeLeft;
    var g := Attach(gf.(color := Red), savedParent.(color := Black));
    if nodeLeftOfSaved then
      (assert gf.WentLeft?; RotateRight(g))
    else
      (assert gf.WentRight?; RotateLeft(g))
  }

  lemma RotationFixSound<V>(p: Position<V>)
    requires InsertInv(p) && |p.path| >= 2 && p.path[0].color == Red
    requires ColorOf(FindUncle(p)) == Black
    ensures RedBlack(RotationFix(p))
    ensures InOrder(RotationFix(p)) == InOrder(Whole(p))
  {
    var n, pf, gf := p.focus, p.path[0], p.path[1];
    var h := BlackHeight(n);
    var rest := p.path[2..];
    assert p.path[1..][1..] == rest;
    assert PathOk(p.path[1..], h, Red);
    assert gf.color == Black;
    assert PathOk(rest, h + 1, Black);
    var top := RotationTop(p);
    if pf.WentLeft? {
      RotationTopLeftSound(p);
    } else {
      RotationTopRightSound(p);
    }
    PlugSound(top, rest);
    PlugColor(top, rest);
    if |rest| > 0 {
      assert rest[|rest| - 1] == p.path[|p.path| - 1];
    }
    var old2 := Attach(gf, Attach(pf, n));
    SamePlugInOrder(top, old2, rest);
    assert Plug(old2, rest) == Whole(p) by {
      assert Up(Up(p)) == Position(old2, rest);
    }
  }

  /** The new node is its parent's left child: after the rotations the
      middle key of node, parent and grandparent is a black top over two red
      nodes, with the four black subtrees beneath in their old order. */
  lemma RotationTopLeftSound<V>(p: Position<V>)
    requires InsertInv(p) && |p.path| >= 2 && p.path[0].color == Red && p.path[0].WentLeft?
    requires ColorOf(FindUncle(p)) == Black
    ensures var top := RotationTop(p);
      Balanced(top) && NoRedRed(top) && top.Node? && top.color == Black &&
      BlackHeight(top) == BlackHeight(p.focus) + 1
  {
    var n, pf, gf := p.focus, p.path[0], p.path[1];
    var h := BlackHeight(n);
    assert PathOk(p.path[1..], h, Red);
    var s, u := Sibling(pf), Sibling(gf);
    assert Balanced(s) && NoRedRed(s) && BlackHeight(s) == h && ColorOf(s) == Black;
    assert Balanced(u) && NoRedRed(u) && BlackHeight(u) == h && ColorOf(u) == Black;
    if gf.WentLeft? {
      assert RotationTop(p) == Node(Black, n, pf.key, pf.value, Node(Red, s, gf.key, gf.value, u));
    } else {
      assert RotationTop(p) == Node(Black, Node(Red, u, gf.key, gf.value, n.left), n.key, n.value,
                                    Node(Red, n.right, pf.key, pf.value, s));
    }
  }

  /** The new node is its parent's right child: the mirror image. */
  lemma RotationTopRightSound<V>(p: Position<V>)
    requires InsertInv(p) && |p.path| >= 2 && p.path[0].color == Red && p.path[0].WentRight?
    requires ColorOf(FindUncle(p)) == Black
    ensures var top := RotationTop(p);
      Balanced(top) && NoRedRed(top) && top.Node? && top.color == Black &&
      BlackHeight(top) == BlackHeight(p.focus) + 1
  {
    var n, pf, gf := p.focus, p.path[0], p.path[1];
    var h := BlackHeight(n);
    assert PathOk(p.path[1..], h, Red);
    var s, u := Sibling(pf), Sibling(gf);
    assert Balanced(s) && NoRedRed(s) && BlackHeight(s) == h && ColorOf(s) == Black;
    assert Balanced(u) && NoRedRed(u) && BlackHeight(u) == h && ColorOf(u) == Black;
    if gf.WentLeft? {
      assert RotationTop(p) == Node(Black, Node(Red, s, pf.key, pf.value, n.left), n.key, n.value,
                                    Node(Red, n.right, gf.key, gf.value, u));
    } else {
      assert RotationTop(p) == Node(Black, Node(Red, u, gf.key, gf.value, s), pf.key, pf.value, n);
    }
  }

  /** The fix-up loop after a new red node is linked in. */
  method FixAfterInsert<V>(start: Position<V>) returns (t: Tree<V>)
    requires InsertInv(start)
    ensures RedBlack(t)
    ensures InOrder(t) == InOrder(Whole(start))
  {
    var p := start;
    while true
      invariant InsertInv(p) && InOrder(Whole(p)) == InOrder(Whole(start))
      decreases |p.path|
    {
      var uncle := FindUncle(p);
      if |p.path| == 0 {
        t := p.focus.(color := Black);
        return;
      } else if p.path[0].color == Black {
        t := Whole(p);
        BlackParentAcceptsAny(p.path, BlackHeight(p.focus), Black, Red);
        PlugSound(p.focus, p.path);
        PlugColor(p.focus, p.path);
        return;
      } else if uncle.Node? && uncle.color == Red {
        assert |p.path| >= 2;
        RecolorUpSound(p);
        p := RecolorUp(p);
      } else {
        assert |p.path| >= 2;
        RotationFixSound(p);
        t := RotationFix(p);
        return;
      }
    }
  }

  // ---------------------------------------------------------------------
  // Colour changes and structural helpers

  /** Set a node's colour; a null leaf is left alone. */
  function Paint<V>(t: Tree<V>, c: Color): (r: Tree<V>)
    ensures InOrder(r) == InOrder(t)
  {
    if t.Nil? then t else t.(color := c)
  }

  /** Painting the top of a sound subtree black keeps it sound. */
  lemma PaintBlackSound<V>(t: Tree<V>)
    requires Balanced(t) && NoRedRed(t)
    ensures RedBlack(Paint(t, Black))
  {
  }

  /** A black subtree fits wherever a subtree of the same black height and any colour did. */
  lemma PathOkBlack<V>(path: seq<Frame<V>>, h: nat, c: Color)
    requires PathOk(path, h, c)
    ensures PathOk(path, h, Black)
  {
    if |path| > 0 {
      assert PathOk(path[1..], h + (if path[0].color == Black then 1 else 0), path[0].color);
    }
  }

  /** A node whose entry changes but whose colour and children do not leaves a
      red-black tree a red-black tree. */
  lemma NewEntrySound<V>(n: Tree<V>, n': Tree<V>, path: seq<Frame<V>>)
    requires n.Node? && n'.Node? && n'.color == n.color && n'.left == n.left && n'.right == n.right
    requires RedBlack(Plug(n, path))
    ensures RedBlack(Plug(n', path))
  {
    PlugSoundInverse(n, path);
    PlugSound(n', path);
    PlugColor(n, path);
    PlugColor(n', path);
  }

  lemma {:induction false} PlugAppend<V>(t: Tree<V>, a: seq<Frame<V>>, b: seq<Frame<V>>)
    ensures Plug(t, a + b) == Plug(Plug(t, a), b)
    decreases |a|
  {
    if |a| == 0 {
      assert a + b == b;
    } else {
      assert (a + b)[0] == a[0];
      assert (a + b)[1..] == a[1..] + b;
      PlugAppend(Attach(a[0], t), a[1..], b);
    }
  }

  /** find_sibling: the other child of the parent; null for a null node or the root. */
  function FindSibling<V>(p: Position<V>): (r: Tree<V>)
    ensures |p.path| > 0 && p.focus.Node? ==>
      (if p.path[0].WentLeft? then Up(p).focus.right == r else Up(p).focus.left == r)
    ensures |p.path| == 0 || p.focus.Nil? ==> r.Nil?
  {
    if p.focus.Nil? || |p.path| == 0 then Nil else Sibling(p.path[0])
  }

  /** find_uncle is find_sibling one level up. */
  lemma UncleIsParentsSibling<V>(p: Position<V>)
    requires |p.path| >= 2
    ensures FindUncle(p) == FindSibling(Up(p))
  {
  }

  /** find_sibling as written: it asserts that the node is its parent's left
      child or that the parent has no right child, which fails for every right
      child (None stands for the failed assertion). */
  function FindSiblingAsWritten<V>(p: Position<V>): (r: Option<Tree<V>>)
    ensures r.Some? ==> r.value == FindSibling(p)
  {
    if p.focus.Nil? || |p.path| == 0 then Some(Nil)
    else if p.path[0].WentLeft? || Up(p).focus.right.Nil? then Some(Sibling(p.path[0]))
    else None
  }

  lemma FindSiblingRejectsRightChild()
    ensures var p := Position(Node(Red, Nil, 2, 0, Nil), [WentRight(Black, Nil, 1, 0)]);
      FindSiblingAsWritten(p).None? && FindSibling(p) == Nil
  {
  }

  /** find_left_leaf: the leftmost node below a node. */
  function FindLeftLeaf<V>(p: Position<V>): (r: Position<V>)
    requires p.focus.Node?
    ensures r.focus.Node? && r.focus.left.Nil?
    ensures Whole(r) == Whole(p)
    ensures Before(r.path) == Before(p.path)
    decreases p.focus
  {
    if p.focus.left.Nil? then p
    else
      assert LeftChild(p).path[1..] == p.path;
      FindLeftLeaf(LeftChild(p))
  }

  /** find_right_leaf: the rightmost node below a node. */
  function FindRightLeaf<V>(p: Position<V>): (r: Position<V>)
    requires p.focus.Node?
    ensures r.focus.Node? && r.focus.right.Nil?
    ensures Whole(r) == Whole(p)
    ensures After(r.path) == After(p.path)
    decreases p.focus
  {
    if p.focus.right.Nil? then p
    else
      assert RightChild(p).path[1..] == p.path;
      FindRightLeaf(RightChild(p))
  }

  // ---------------------------------------------------------------------
  // Rebalancing after a deletion

  /** rebalance_after_delete's precondition: below the node, the side the
      deletion happened on (X) is one black node short of the other side (S);
      X is black; and the ancestors fit the black height the node had before. */
  ghost predicate DelInv<V>(p: Position<V>, leftSideDeleted: bool)
  {
    p.focus.Node? &&
    var x := if leftSideDeleted then p.focus.left else p.focus.right;
    var s := if leftSideDeleted then p.focus.right else p.focus.left;
    Balanced(x) && NoRedRed(x) && ColorOf(x) == Black &&
    Balanced(s) && NoRedRed(s) && BlackHeight(s) == BlackHeight(x) + 1 &&
    (p.focus.color == Red ==> ColorOf(s) == Black) &&
    PathOk(p.path, BlackHeight(s) + (if p.focus.color == Black then 1 else 0), p.focus.color)
  }

  /** Rebalancing either finishes, moves one level up, or (red sibling) turns
      the node red, after which it finishes. */
  function DelMeasure<V>(p: Position<V>, leftSideDeleted: bool): nat
    requires p.focus.Node?
  {
    var s := if leftSideDeleted then p.focus.right else p.focus.left;
    if p.focus.color == Red then 0 else 2 * |p.path| + (if ColorOf(s) == Red then 2 else 1)
  }

  /** Both children black and a red child under the sibling, deletion on the
      left: a rotation at the sibling when only its near child is red, then a
      rotation at the node and recolouring. */
  function RedNephewLeft<V>(n: Tree<V>): (r: Tree<V>)
    requires n.Node? && n.right.Node?
    ensures InOrder(r) == InOrder(n)
  {
    var s := n.right;
    var s1 := if ColorOf(s.left) == Red && ColorOf(s.right) == Black
              then RotateRight(s.(left := Paint(s.left, Black)))
              else s;
    var top := RotateLeft(n.(right := s1));
    if n.color == Red then top.(color := Red, left := Paint(top.left, Black), right := Paint(top.right, Black))
    else top.(right := Paint(top.right, Black))
  }

  /** The mirror image of RedNephewLeft, deletion on the right. */
  function RedNephewRight<V>(n: Tree<V>): (r: Tree<V>)
    requires n.Node? && n.left.Node?
    ensures InOrder(r) == InOrder(n)
  {
    var s := n.left;
    var s1 := if ColorOf(s.right) == Red && ColorOf(s.left) == Black
              then RotateLeft(s.(right := Paint(s.right, Black)))
              else s;
    var top := RotateRight(n.(left := s1));
    if n.color == Red then top.(color := Red, left := Paint(top.left, Black), right := Paint(top.right, Black))
    else top.(left := Paint(top.left, Black))
  }

  /** The red-nephew case removes the deficit: the new subtree has the node's
      colour and the black height the node had before the deletion. */
  lemma RedNephewLeftSound<V>(n: Tree<V>)
    requires n.Node? && ColorOf(n.left) == Black && ColorOf(n.right) == Black
    requires Balanced(n.left) && NoRedRed(n.left) && Balanced(n.right) && NoRedRed(n.right)
    requires BlackHeight(n.right) == BlackHeight(n.left) + 1
    requires n.right.Node? && (ColorOf(n.right.left) == Red || ColorOf(n.right.right) == Red)
    ensures var r := RedNephewLeft(n);
      Balanced(r) && NoRedRed(r) && ColorOf(r) == n.color &&
      BlackHeight(r) == BlackHeight(n.right) + (if n.color == Black then 1 else 0)
  {
  }

  lemma RedNephewRightSound<V>(n: Tree<V>)
    requires n.Node? && ColorOf(n.left) == Black && ColorOf(n.right) == Black
    requires Balanced(n.left) && NoRedRed(n.left) && Balanced(n.right) && NoRedRed(n.right)
    requires BlackHeight(n.left) == BlackHeight(n.right) + 1
    requires n.left.Node? && (ColorOf(n.left.left) == Red || ColorOf(n.left.right) == Red)
    ensures var r := RedNephewRight(n);
      Balanced(r) && NoRedRed(r) && ColorOf(r) == n.color &&
      BlackHeight(r) == BlackHeight(n.left) + (if n.color == Black then 1 else 0)
  {
  }

  /** The sibling and its children all black: the sibling turns red and the node black. */
  function BlackSiblingRecolor<V>(n: Tree<V>, leftSideDeleted: bool): (r: Tree<V>)
    requires n.Node?
    ensures InOrder(r) == InOrder(n)
  {
    if leftSideDeleted then n.(color := Black, right := Paint(n.right, Red))
    else n.(color := Black, left := Paint(n.left, Red))
  }

  lemma BlackSiblingRecolorSound<V>(n: Tree<V>, leftSideDeleted: bool)
    requires n.Node?
    requires var x := if leftSideDeleted then n.left else n.right;
      var s := if leftSideDeleted then n.right else n.left;
      Balanced(x) && NoRedRed(x) && Balanced(s) && NoRedRed(s) && BlackHeight(s) == BlackHeight(x) + 1 &&
      ColorOf(s) == Black && s.Node? && ColorOf(s.left) == Black && ColorOf(s.right) == Black
    ensures var r := BlackSiblingRecolor(n, leftSideDeleted);
      Balanced(r) && NoRedRed(r) && r.color == Black &&
      BlackHeight(r) == BlackHeight(if leftSideDeleted then n.right else n.left)
  {
    var s := if leftSideDeleted then n.right else n.left;
    var s' := Paint(s, Red);
    assert BlackHeight(s') == BlackHeight(s.left) == BlackHeight(s) - 1;
    assert Balanced(s') && NoRedRed(s');
  }

  /** A red sibling: rotate it above the node, paint it (and its outer child)
      black and the node red; the node keeps the deficit, now under a red node
      with a black sibling. */
  function RedSiblingRotate<V>(p: Position<V>, leftSideDeleted: bool): (q: Position<V>)
    requires p.focus.Node? && (if leftSideDeleted then p.focus.right.Node? else p.focus.left.Node?)
    ensures InOrder(Whole(q)) == InOrder(Whole(p))
    ensures |q.path| == |p.path| + 1 && q.path[0].WentLeft? == leftSideDeleted
  {
    if leftSideDeleted then
      var top := RotateLeft(p.focus);
      var top' := top.(color := Black, left := top.left.(color := Red), right := Paint(top.right, Black));
      SamePlugInOrder(top', p.focus, p.path);
      LeftChild(Position(top', p.path))
    else
      var top := RotateRight(p.focus);
      var top' := top.(color := Black, right := top.right.(color := Red), left := Paint(top.left, Black));
      SamePlugInOrder(top', p.focus, p.path);
      RightChild(Position(top', p.path))
  }

  lemma RedNephewCase<V>(p: Position<V>, leftSideDeleted: bool)
    requires DelInv(p, leftSideDeleted)
    requires ColorOf(p.focus.left) == Black && ColorOf(p.focus.right) == Black
    requires var s := if leftSideDeleted then p.focus.right else p.focus.left;
      ColorOf(s.left) == Red || ColorOf(s.right) == Red
    ensures var top := if leftSideDeleted then RedNephewLeft(p.focus) else RedNephewRight(p.focus);
      RedBlack(Paint(Plug(top, p.path), Black)) && InOrder(Paint(Plug(top, p.path), Black)) == InOrder(Whole(p))
  {
    var top := if leftSideDeleted then RedNephewLeft(p.focus) else RedNephewRight(p.focus);
    if leftSideDeleted {
      RedNephewLeftSound(p.focus);
    } else {
      RedNephewRightSound(p.focus);
    }
    PlugSound(top, p.path);
    PaintBlackSound(Plug(top, p.path));
    SamePlugInOrder(top, p.focus, p.path);
  }

  /** Sibling all black, node red or at the root: recolouring finishes the job. */
  lemma BlackSiblingDone<V>(p: Position<V>, leftSideDeleted: bool)
    requires DelInv(p, leftSideDeleted)
    requires ColorOf(p.focus.left) == Black && ColorOf(p.focus.right) == Black
    requires var s := if leftSideDeleted then p.focus.right else p.focus.left;
      ColorOf(s.left) == Black && ColorOf(s.right) == Black
    requires |p.path| == 0 || p.focus.color == Red
    ensures var n' := BlackSiblingRecolor(p.focus, leftSideDeleted);
      |p.path| == 0 ==> RedBlack(Paint(n', Black))
    ensures var n' := BlackSiblingRecolor(p.focus, leftSideDeleted);
      |p.path| > 0 ==> (p.path[0].color == Black &&
                        RedBlack(Paint(Plug(Attach(p.path[0].(color := Black), n'), p.path[1..]), Black)))
    ensures InOrder(Plug(BlackSiblingRecolor(p.focus, leftSideDeleted), p.path)) == InOrder(Whole(p))
  {
    var n' := BlackSiblingRecolor(p.focus, leftSideDeleted);
    BlackSiblingRecolorSound(p.focus, leftSideDeleted);
    SamePlugInOrder(n', p.focus, p.path);
    if |p.path| > 0 {
      var h := if leftSideDeleted then BlackHeight(p.focus.right) else BlackHeight(p.focus.left);
      PathOkBlack(p.path, h, Red);
      assert p.path[0].(color := Black) == p.path[0];
      PlugSound(n', p.path);
      PaintBlackSound(Plug(n', p.path));
    }
  }

  /** Sibling all black under a black node: the deficit moves up to the parent. */
  lemma BlackSiblingUp<V>(p: Position<V>, leftSideDeleted: bool)
    requires DelInv(p, leftSideDeleted)
    requires ColorOf(p.focus.left) == Black && ColorOf(p.focus.right) == Black
    requires var s := if leftSideDeleted then p.focus.right else p.focus.left;
      ColorOf(s.left) == Black && ColorOf(s.right) == Black
    requires |p.path| > 0 && p.focus.color == Black
    ensures var q := Up(Position(BlackSiblingRecolor(p.focus, leftSideDeleted), p.path));
      DelInv(q, p.path[0].WentLeft?) && DelMeasure(q, p.path[0].WentLeft?) < DelMeasure(p, leftSideDeleted) &&
      InOrder(Whole(q)) == InOrder(Whole(p))
  {
    var n' := BlackSiblingRecolor(p.focus, leftSideDeleted);
    var h := if leftSideDeleted then BlackHeight(p.focus.right) else BlackHeight(p.focus.left);
    BlackSiblingRecolorSound(p.focus, leftSideDeleted);
    assert PathOk(p.path[1..], h + 1 + (if p.path[0].color == Black then 1 else 0), p.path[0].color);
    SamePlugInOrder(n', p.focus, p.path);
  }

  /** Red sibling: after the rotation the node is red with a black sibling. */
  lemma RedSiblingCase<V>(p: Position<V>, leftSideDeleted: bool)
    requires DelInv(p, leftSideDeleted)
    requires !(ColorOf(p.focus.left) == Black && ColorOf(p.focus.right) == Black)
    ensures var q := RedSiblingRotate(p, leftSideDeleted);
      DelInv(q, leftSideDeleted) && DelMeasure(q, leftSideDeleted) < DelMeasure(p, leftSideDeleted)
  {
    var q := RedSiblingRotate(p, leftSideDeleted);
    assert q.path[1..] == p.path;
  }

  /** rebalance_after_delete, ending (as every call does) by painting the root black. */
  function RebalanceAfterDelete<V>(p: Position<V>, leftSideDeleted: bool): (r: Tree<V>)
    requires DelInv(p, leftSideDeleted)
    ensures RedBlack(r)
    ensures InOrder(r) == InOrder(Whole(p))
    decreases DelMeasure(p, leftSideDeleted)
  {
    var n := p.focus;
    var s := if leftSideDeleted then n.right else n.left;
    if ColorOf(n.left) == Black && ColorOf(n.right) == Black then
      if ColorOf(s.left) == Red || ColorOf(s.right) == Red then
        var top := if leftSideDeleted then RedNephewLeft(n) else RedNephewRight(n);
        RedNephewCase(p, leftSideDeleted);
        Paint(Plug(top, p.path), Black)
      else
        var n' := BlackSiblingRecolor(n, leftSideDeleted);
        if |p.path| == 0 then
          BlackSiblingDone(p, leftSideDeleted);
          Paint(n', Black)
        else if n.color == Black then
          BlackSiblingUp(p, leftSideDeleted);
          var r := RebalanceAfterDelete(Up(Position(n', p.path)), p.path[0].WentLeft?);
          PaintBlackSound(r);
          Paint(r, Black)
        else
          BlackSiblingDone(p, leftSideDeleted);
          SamePlugInOrder(Attach(p.path[0].(color := Black), n'), Attach(p.path[0], n'), p.path[1..]);
          Paint(Plug(Attach(p.path[0].(color := Black), n'), p.path[1..]), Black)
    else
      RedSiblingCase(p, leftSideDeleted);
      var r := RebalanceAfterDelete(RedSiblingRotate(p, leftSideDeleted), leftSideDeleted);
      PaintBlackSound(r);
      Paint(r, Black)
  }

  // ---------------------------------------------------------------------
  // Removal

  /** The child that takes the place of a node with at most one child. */
  function OnlyChild<V>(n: Tree<V>): Tree<V>
    requires n.Node?
  {
    if n.left.Nil? then n.right else n.left
  }

  lemma RemoveLinkedSound<V>(q: Position<V>)
    requires q.focus.Node? && (q.focus.left.Nil? || q.focus.right.Nil?)
    requires RedBlack(Whole(q))
    ensures var child' := Paint(OnlyChild(q.focus), Black);
      |q.path| == 0 ==> RedBlack(child')
    ensures var child' := Paint(OnlyChild(q.focus), Black);
      |q.path| > 0 && q.focus.color == Black && ColorOf(OnlyChild(q.focus)) == Black ==>
        DelInv(Up(Position(child', q.path)), q.path[0].WentLeft?)
    ensures var child' := Paint(OnlyChild(q.focus), Black);
      |q.path| > 0 && !(q.focus.color == Black && ColorOf(OnlyChild(q.focus)) == Black) ==>
        RedBlack(Plug(child', q.path))
    ensures InOrder(Plug(Paint(OnlyChild(q.focus), Black), q.path)) == InOrder(Plug(OnlyChild(q.focus), q.path))
  {
    var n := q.focus;
    var child := OnlyChild(n);
    var child' := Paint(child, Black);
    PlugSoundInverse(n, q.path);
    PlugColor(n, q.path);
    SamePlugInOrder(child', child, q.path);
    assert BlackHeight(child) == 1;
    if |q.path| > 0 {
      if n.color == Black && ColorOf(child) == Black {
        assert child.Nil?;
        assert PathOk(q.path[1..], BlackHeight(n) + (if q.path[0].color == Black then 1 else 0), q.path[0].color);
      } else {
        assert BlackHeight(child') == BlackHeight(n);
        PathOkBlack(q.path, BlackHeight(n), ColorOf(n));
        PlugSound(child', q.path);
        PlugColor(child', q.path);
      }
    }
  }

  /** The zero-or-one-child branch of remove_node: the child (painted black)
      takes the node's place, and if the node and the child were both black
      the tree is rebalanced from the parent. */
  function RemoveLinked<V>(q: Position<V>): (r: Tree<V>)
    requires q.focus.Node? && (q.focus.left.Nil? || q.focus.right.Nil?)
    requires RedBlack(Whole(q))
    ensures RedBlack(r)
    ensures InOrder(r) == InOrder(Plug(OnlyChild(q.focus), q.path))
  {
    var n := q.focus;
    var child := OnlyChild(n);
    var childWasBlack := ColorOf(child) == Black;
    var child' := Paint(child, Black);
    RemoveLinkedSound(q);
    if |q.path| == 0 then child'
    else
      var up := Up(Position(child', q.path));
      if n.color == Black && childWasBlack then RebalanceAfterDelete(up, q.path[0].WentLeft?)
      else Whole(up)
  }

  /** Where the copied-from node sits once its entry has been copied into the
      two-child node at p, and what its removal leaves. */
  lemma SuccessorPlace<V>(p: Position<V>, s: Position<V>, f: Frame<V>, q: Position<V>, leftSideLast: bool)
    requires p.focus.Node? && p.focus.left.Node? && p.focus.right.Node? && RedBlack(Whole(p))
    requires leftSideLast ==> (s == FindLeftLeaf(Position(p.focus.right, [])) &&
                               f == WentRight(p.focus.color, p.focus.left, s.focus.key, s.focus.value))
    requires !leftSideLast ==> (s == FindRightLeaf(Position(p.focus.left, [])) &&
                                f == WentLeft(p.focus.color, s.focus.key, s.focus.value, p.focus.right))
    requires q == Position(s.focus, s.path + [f] + p.path)
    ensures RedBlack(Whole(q))
    ensures InOrder(Plug(OnlyChild(q.focus), q.path)) ==
      Before(p.path) + (InOrder(p.focus.left) + InOrder(p.focus.right)) + After(p.path)
  {
    var n := p.focus;
    var child := OnlyChild(s.focus);
    var rest := Plug(child, s.path);
    PathShape(s.focus, child, s.path, f, p.path);
    NewEntrySound(n, Attach(f, Whole(s)), p.path);
    if leftSideLast {
      SpliceLeftmost(n.right, s, child);
    } else {
      SpliceRightmost(n.left, s, child);
    }
    PlugInOrder(Attach(f, rest), p.path);
  }

  lemma PathShape<V>(t: Tree<V>, u: Tree<V>, inner: seq<Frame<V>>, f: Frame<V>, outer: seq<Frame<V>>)
    ensures Plug(t, inner + [f] + outer) == Plug(Attach(f, Plug(t, inner)), outer)
    ensures Plug(u, inner + [f] + outer) == Plug(Attach(f, Plug(u, inner)), outer)
  {
    assert inner + [f] + outer == inner + ([f] + outer);
    assert ([f] + outer)[1..] == outer;
    PlugAppend(t, inner, [f] + outer);
    PlugAppend(u, inner, [f] + outer);
  }

  /** Replacing the leftmost node of a subtree by its only child drops the
      subtree's first entry. */
  lemma SpliceLeftmost<V>(t: Tree<V>, s: Position<V>, child: Tree<V>)
    requires s.focus.Node? && s.focus.left.Nil? && child == OnlyChild(s.focus)
    requires Whole(s) == t && Before(s.path) == []
    ensures InOrder(t) == [Entry(s.focus.key, s.focus.value)] + InOrder(Plug(child, s.path))
  {
    var e := Entry(s.focus.key, s.focus.value);
    PlugInOrder(s.focus, s.path);
    PlugInOrder(child, s.path);
    assert InOrder(s.focus) == [] + [e] + InOrder(child);
    DropFront(Before(s.path), e, InOrder(child), InOrder(child), After(s.path));
  }

  /** Replacing the rightmost node of a subtree by its only child drops the
      subtree's last entry. */
  lemma SpliceRightmost<V>(t: Tree<V>, s: Position<V>, child: Tree<V>)
    requires s.focus.Node? && s.focus.right.Nil? && child == OnlyChild(s.focus)
    requires Whole(s) == t && After(s.path) == []
    ensures InOrder(t) == InOrder(Plug(child, s.path)) + [Entry(s.focus.key, s.focus.value)]
  {
    PlugInOrder(s.focus, s.path);
    PlugInOrder(child, s.path);
    assert InOrder(s.focus) == InOrder(child) + [Entry(s.focus.key, s.focus.value)];
  }

  /** remove_node: with two children, copy the entry of the leftmost node on
      the right (left_side_last set) or of the rightmost node on the left
      (clear) and unlink that node instead; otherwise unlink the node itself.
      Either way exactly the node's entry leaves the in-order sequence and the
      colour rules hold afterwards. */
  function RemoveNode<V>(p: Position<V>, leftSideLast: bool): (r: Tree<V>)
    requires p.focus.Node? && RedBlack(Whole(p))
    ensures RedBlack(r)
    ensures InOrder(r) == Before(p.path) + (InOrder(p.focus.left) + InOrder(p.focus.right)) + After(p.path)
  {
    var n := p.focus;
    if n.left.Node? && n.right.Node? then
      if leftSideLast then
        var s := FindLeftLeaf(Position(n.right, []));
        var f := WentRight(n.color, n.left, s.focus.key, s.focus.value);
        var q := Position(s.focus, s.path + [f] + p.path);
        SuccessorPlace(p, s, f, q, leftSideLast);
        RemoveLinked(q)
      else
        var s := FindRightLeaf(Position(n.left, []));
        var f := WentLeft(n.color, s.focus.key, s.focus.value, n.right);
        var q := Position(s.focus, s.path + [f] + p.path);
        SuccessorPlace(p, s, f, q, leftSideLast);
        RemoveLinked(q)
    else
      PlugInOrder(OnlyChild(n), p.path);
      RemoveLinked(p)
  }

  // ---------------------------------------------------------------------
  // What insert and remove do to the entries

  /** Hanging a new node where the search fell off keeps the order and adds the key. */
  lemma PlaceNew<V>(p: Position<V>, k: int, v: V)
    requires Ordered(Whole(p)) && InRange(p, k) && p.focus.Nil?
    ensures Ordered(Plug(Node(Red, Nil, k, v, Nil), p.path))
    ensures Content(Plug(Node(Red, Nil, k, v, Nil), p.path)) == Content(Whole(p))[k := v]
  {
    var b, a, e := Before(p.path), After(p.path), Entry(k, v);
    var t' := Node(Red, Nil, k, v, Nil);
    PlugInOrder(p.focus, p.path);
    PlugInOrder(t', p.path);
    assert InOrder(t') == [e];
    assert InOrder(Whole(p)) == b + a;
    AddEntry(b, e, a);
  }

  /** A new red leaf below a red-black tree satisfies the fix-up loop's invariant. */
  lemma NewLeafInv<V>(p: Position<V>, k: int, v: V)
    requires RedBlack(Whole(p)) && p.focus.Nil? && |p.path| > 0
    ensures InsertInv(Position(Node(Red, Nil, k, v, Nil), p.path))
  {
    PlugSoundInverse(p.focus, p.path);
    PlugColor(p.focus, p.path);
  }

  /** Overwriting a node's value keeps the order and updates that key only. */
  lemma Overwrite<V>(p: Position<V>, v: V)
    requires Ordered(Whole(p)) && p.focus.Node?
    ensures Ordered(Plug(p.focus.(value := v), p.path))
    ensures Content(Plug(p.focus.(value := v), p.path)) == Content(Whole(p))[p.focus.key := v]
  {
    var f := p.focus;
    var t' := f.(value := v);
    var b, a := Before(p.path) + InOrder(f.left), InOrder(f.right) + After(p.path);
    var e := Entry(f.key, f.value);
    PlugInOrder(f, p.path);
    PlugInOrder(t', p.path);
    Regroup(Before(p.path), InOrder(f.left), [e], InOrder(f.right), After(p.path));
    Regroup(Before(p.path), InOrder(f.left), [Entry(f.key, v)], InOrder(f.right), After(p.path));
    ReplaceEntry(b, e, v, a);
  }

  /** Dropping a node's entry from the in-order sequence keeps the order and drops exactly its key. */
  lemma RemoveAt<V>(p: Position<V>)
    requires Ordered(Whole(p)) && p.focus.Node?
    ensures var s := Before(p.path) + (InOrder(p.focus.left) + InOrder(p.focus.right)) + After(p.path);
      Sorted(s) && AsMap(s) == Content(Whole(p)) - {p.focus.key}
  {
    var f := p.focus;
    var b, a := Before(p.path) + InOrder(f.left), InOrder(f.right) + After(p.path);
    var e := Entry(f.key, f.value);
    PlugInOrder(f, p.path);
    Regroup(Before(p.path), InOrder(f.left), [e], InOrder(f.right), After(p.path));
    Regroup2(Before(p.path), InOrder(f.left), InOrder(f.right), After(p.path));
    DropEntry(b, e, a);
  }

  /** Everything insert needs about overwriting the value of a present key. */
  lemma OverwriteSound<V>(p: Position<V>, v: V)
    requires RedBlack(Whole(p)) && Ordered(Whole(p)) && p.focus.Node?
    ensures var t := Plug(p.focus.(value := v), p.path);
      RedBlack(t) && Ordered(t) && p.focus.key in Content(Whole(p)) &&
      Content(t) == Content(Whole(p))[p.focus.key := v]
  {
    HitAt(p);
    Overwrite(p, v);
    NewEntrySound(p.focus, p.focus.(value := v), p.path);
  }

  /** Everything insert needs about hanging a new red leaf for an absent key. */
  lemma NewLeafSound<V>(p: Position<V>, k: int, v: V)
    requires RedBlack(Whole(p)) && Ordered(Whole(p)) && InRange(p, k) && p.focus.Nil? && |p.path| > 0
    ensures var t := Plug(Node(Red, Nil, k, v, Nil), p.path);
      InsertInv(Position(Node(Red, Nil, k, v, Nil), p.path)) && Ordered(t) && k !in Content(Whole(p)) &&
      Content(t) == Content(Whole(p))[k := v]
  {
    MissAt(p, k);
    PlaceNew(p, k, v);
    NewLeafInv(p, k, v);
  }

  /** Removing a present key from a red-black search tree keeps it one,
      without that key. */
  lemma RemoveKeySound<V>(t: Tree<V>, k: int, leftSideLast: bool)
    requires RedBlack(t) && Ordered(t) && k in Content(t)
    ensures var p := NodeSearch(Position(t, []), k);
      && p.focus.Node? && Whole(p) == t
      && var r := RemoveNode(p, leftSideLast);
         RedBlack(r) && Ordered(r) && Content(r) == Content(t) - {k} && |Content(r)| == |Content(t)| - 1
  {
    var p := NodeSearch(Position(t, []), k);
    SearchLands(Position(t, []), k);
    RemoveAt(p);
    CardRemove(Content(t), k);
  }

  lemma CardRemove<V>(m: map<int, V>, k: int)
    requires k in m
    ensures |m - {k}| == |m| - 1
  {
    var m' := m - {k};
    assert m == m'[k := m[k]];
  }

  // ---------------------------------------------------------------------
  // Debug checkers

  /** debug_verify_black_length: the black length of every path, counting the
      null leaf; None stands for its assertion that both sides agree failing. */
  function VerifyBlackLength<V>(t: Tree<V>): (r: Option<nat>)
    ensures r.Some? <==> Balanced(t)
    ensures r.Some? ==> r.value == BlackHeight(t)
  {
    match t
    case Nil => Some(1)
    case Node(c, l, _, _, rt) =>
      var res := VerifyBlackLength(l);
      var other := VerifyBlackLength(rt);
      if res.None? || other != res then None
      else Some(res.value + (if c == Black then 1 else 0))
  }

  /** The same tree without colours, as a plain search tree. */
  function Uncoloured<V>(t: Tree<V>): (r: BinaryTree.Tree<V>)
    ensures BinaryTree.InOrder(r) == InOrder(t)
  {
    match t
    case Nil => BinaryTree.Nil
    case Node(_, l, k, v, rt) => BinaryTree.Node(Uncoloured(l), k, v, Uncoloured(rt))
  }

  function UncolouredFrame<V>(f: Frame<V>): BinaryTree.Frame<V>
  {
    match f
    case WentLeft(_, k, v, r) => BinaryTree.WentLeft(k, v, Uncoloured(r))
    case WentRight(_, l, k, v) => BinaryTree.WentRight(Uncoloured(l), k, v)
  }

  ghost function UncolouredPath<V>(path: seq<Frame<V>>): (r: seq<BinaryTree.Frame<V>>)
    ensures |r| == |path| && forall i | 0 <= i < |path| :: r[i] == UncolouredFrame(path[i])
  {
    seq(|path|, i requires 0 <= i < |path| => UncolouredFrame(path[i]))
  }

  /** What debug_check_node accepts as written: every node with a missing
      child is on the correct side of its direct parent, the root is black,
      and no red node has a red child. */
  ghost predicate CheckedAsWritten<V>(t: Tree<V>, path: seq<Frame<V>>)
  {
    match t
    case Nil => true
    case Node(c, l, k, v, r) =>
      ((l.Nil? || r.Nil?) ==> |path| == 0 || BinaryTree.SideOk(k, UncolouredFrame(path[0]))) &&
      CheckedAsWritten(l, [WentLeft(c, k, v, r)] + path) &&
      CheckedAsWritten(r, [WentRight(c, l, k, v)] + path) &&
      (|path| == 0 ==> c == Black) &&
      (c == Red ==> ColorOf(l) == Black && ColorOf(r) == Black)
  }

  /** What the check evidently intends: the same, with every node that has a
      missing child on the correct side of every ancestor. */
  ghost predicate CheckedCorrected<V>(t: Tree<V>, path: seq<Frame<V>>)
  {
    match t
    case Nil => true
    case Node(c, l, k, v, r) =>
      ((l.Nil? || r.Nil?) ==> BinaryTree.FitsAll(k, UncolouredPath(path))) &&
      CheckedCorrected(l, [WentLeft(c, k, v, r)] + path) &&
      CheckedCorrected(r, [WentRight(c, l, k, v)] + path) &&
      (|path| == 0 ==> c == Black) &&
      (c == Red ==> ColorOf(l) == Black && ColorOf(r) == Black)
  }

  /** debug_check_node as written: the ancestor walk compares the starting
      node's key only with its direct parent (see the plain search tree's
      check, which has the same walk), then the children are checked, then
      the root colour and the red-red rule. */
  method DebugCheckNode<V>(t: Tree<V>, path: seq<Frame<V>>) returns (ok: bool)
    ensures ok == CheckedAsWritten(t, path)
    decreases t
  {
    if t.Nil? {
      return true;
    }
    if t.left.Nil? || t.right.Nil? {
      var i := 0;
      while i < |path|
        invariant 0 <= i <= |path|
        invariant i > 0 ==> BinaryTree.SideOk(t.key, UncolouredFrame(path[0]))
      {
        var parentHoldsNode := i == 0;
        if parentHoldsNode && !BinaryTree.SideOk(t.key, UncolouredFrame(path[i])) {
          return false;
        }
        i := i + 1;
      }
    }
    if t.left.Node? {
      ok := DebugCheckNode(t.left, [WentLeft(t.color, t.key, t.value, t.right)] + path);
      if !ok {
        return;
      }
    }
    if t.right.Node? {
      ok := DebugCheckNode(t.right, [WentRight(t.color, t.left, t.key, t.value)] + path);
      if !ok {
        return;
      }
    }
    if |path| == 0 && t.color == Red {
      return false;
    }
    if t.color == Red && (ColorOf(t.left) == Red || ColorOf(t.right) == Red) {
      return false;
    }
    return true;
  }

  /** The check as written passes a tree that is not a search tree: 7 sits in
      the left subtree of 5 but only ever meets its parent 3. */
  lemma AsWrittenCheckPassesDisorder()
    ensures var t := Node(Black, Node(Black, Nil, 3, 0, Node(Red, Nil, 7, 0, Nil)), 5, 0, Nil);
      CheckedAsWritten(t, []) && !WeakSorted(InOrder(t))
  {
    var n7 := Node(Red, Nil, 7, 0, Nil);
    var n3 := Node(Black, Nil, 3, 0, n7);
    var t := Node(Black, n3, 5, 0, Nil);
    var up3: seq<Frame<int>> := [WentLeft(Black, 5, 0, Nil)];
    var up7 := [WentRight(Black, Nil, 3, 0)] + up3;
    assert CheckedAsWritten(Nil, [WentLeft(Red, 7, 0, Nil)] + up7) && CheckedAsWritten(Nil, [WentRight(Red, Nil, 7, 0)] + up7);
    assert CheckedAsWritten(n7, up7);
    assert CheckedAsWritten(Nil, [WentLeft(Black, 3, 0, n7)] + up3);
    assert CheckedAsWritten(n3, up3);
    assert [WentLeft(Black, 5, 0, Nil)] + [] == up3;
    assert CheckedAsWritten(Nil, [WentRight(Black, n3, 5, 0)] + []);
    assert InOrder(t) == [Entry(3, 0), Entry(7, 0), Entry(5, 0)];
    assert InOrder(t)[1].key > InOrder(t)[2].key;
  }

  /** debug_check_node comparing each ancestor with the node on the walk. */
  method DebugCheckNodeCorrected<V>(t: Tree<V>, path: seq<Frame<V>>) returns (ok: bool)
    ensures ok == CheckedCorrected(t, path)
    decreases t
  {
    if t.Nil? {
      return true;
    }
    if t.left.Nil? || t.right.Nil? {
      var i := 0;
      while i < |path|
        invariant 0 <= i <= |path|
        invariant forall j | 0 <= j < i :: BinaryTree.SideOk(t.key, UncolouredFrame(path[j]))
      {
        if !BinaryTree.SideOk(t.key, UncolouredFrame(path[i])) {
          return false;
        }
        i := i + 1;
      }
    }
    if t.left.Node? {
      ok := DebugCheckNodeCorrected(t.left, [WentLeft(t.color, t.key, t.value, t.right)] + path);
      if !ok {
        return;
      }
    }
    if t.right.Node? {
      ok := DebugCheckNodeCorrected(t.right, [WentRight(t.color, t.left, t.key, t.value)] + path);
      if !ok {
        return;
      }
    }
    if |path| == 0 && t.color == Red {
      return false;
    }
    if t.color == Red && (ColorOf(t.left) == Red || ColorOf(t.right) == Red) {
      return false;
    }
    return true;
  }

  /** The corrected check is the plain search tree's corrected check plus the two colour rules. */
  lemma {:induction false} CheckedCorrectedSplit<V>(t: Tree<V>, path: seq<Frame<V>>)
    ensures CheckedCorrected(t, path) <==>
      BinaryTree.CheckedCorrected(Uncoloured(t), UncolouredPath(path)) && NoRedRed(t) &&
      (|path| == 0 ==> ColorOf(t) == Black)
    decreases t
  {
    if t.Node? {
      var fl, fr := WentLeft(t.color, t.key, t.value, t.right), WentRight(t.color, t.left, t.key, t.value);
      assert UncolouredPath([fl] + path) == [UncolouredFrame(fl)] + UncolouredPath(path);
      assert UncolouredPath([fr] + path) == [UncolouredFrame(fr)] + UncolouredPath(path);
      CheckedCorrectedSplit(t.left, [fl] + path);
      CheckedCorrectedSplit(t.right, [fr] + path);
    }
  }

  /** The corrected check accepts exactly the trees whose in-order keys never
      decrease, whose root is black and where no red node has a red child. */
  lemma CorrectedCheckIsExact<V>(t: Tree<V>)
    ensures CheckedCorrected(t, []) <==> WeakSorted(InOrder(t)) && NoRedRed(t) && ColorOf(t) == Black
  {
    CheckedCorrectedSplit(t, []);
    assert UncolouredPath<V>([]) == [];
    BinaryTree.CorrectedCheckIsExact(Uncoloured(t));
  }

  /** debug_verify_tree: debug_check_node on the root, then the black-length walk. */
  method DebugVerifyTree<V>(t: Tree<V>) returns (ok: bool)
    ensures ok <==> CheckedAsWritten(t, []) && Balanced(t)
  {
    ok := DebugCheckNode(t, []);
    if ok {
      ok := VerifyBlackLength(t).Some?;
    }
  }

  // ---------------------------------------------------------------------
  // Defects in the node count and in insert

  /** The end of insert as written. When the key was already present new_node
      is still null, and the fix-up loop's first step, find_uncle(new_node),
      fails its assertion that the node is not null (None); otherwise
      number_of_leaves grows by one. */
  function InsertOutcomeAsWritten<V>(t: Tree<V>, count: nat, k: int): (r: Option<nat>)
    ensures Ordered(t) ==> (r.None? <==> k in Content(t))
    ensures r.Some? ==> r.value == count + 1
  {
    if t.Node? && Contains(t, k) then None else Some(count + 1)
  }

  lemma InsertOfPresentKeyFails()
    ensures InsertOutcomeAsWritten(Node(Black, Nil, 1, 0, Nil), 1, 1).None?
  {
  }

  /** number_of_leaves after remove_node as written: the two-child case
      decrements it in the recursive call for the copied-from node and again
      in its own tail. */
  function LeavesAfterRemoveAsWritten<V>(n: Tree<V>, count: int): (r: int)
    requires n.Node?
    ensures r == count - 1 <==> !(n.left.Node? && n.right.Node?)
  {
    if n.left.Node? && n.right.Node? then count - 2 else count - 1
  }

  lemma TwoChildRemovalMiscounts()
    ensures var t := Node(Black, Node(Red, Nil, 1, 0, Nil), 2, 0, Node(Red, Nil, 3, 0, Nil));
      |Content(t)| == 3 && |Content(t) - {2}| == 2 && LeavesAfterRemoveAsWritten(t, 3) == 1
  {
    var t := Node(Black, Node(Red, Nil, 1, 0, Nil), 2, 0, Node(Red, Nil, 3, 0, Nil));
    var s := [Entry(1, 0), Entry(2, 0), Entry(3, 0)];
    assert InOrder(t) == s;
    assert s[..2] == [Entry(1, 0), Entry(2, 0)] && s[..2][..1] == [Entry(1, 0)] && s[..2][..1][..0] == [];
    assert AsMap(s[..2][..1]) == map[1 := 0];
    assert AsMap(s[..2]) == map[1 := 0, 2 := 0];
    assert Content(t) == map[1 := 0, 2 := 0, 3 := 0];
    assert Content(t) - {2} == map[1 := 0, 3 := 0];
  }

  /** clear_tree as written: the nodes go, number_of_leaves stays. */
  function LeavesAfterClearAsWritten(count: nat): (r: nat)
    ensures r == count
  {
    count
  }

  lemma ClearedTreeKeepsCount()
    ensures LeavesAfterClearAsWritten(3) != |Content<int>(Nil)|
  {
  }

  /** insert's walk down from the root: it stops at the node holding k or at
      the node whose missing child k belongs in, which is where node_search
      stops too. */
  method WalkDown<V>(t: Tree<V>, k: int) returns (p: Position<V>)
    requires t.Node? && Ordered(t)
    ensures p.focus.Node? && Whole(p) == t && InRange(p, k)
    ensures p.focus.key == k || (k < p.focus.key && p.focus.left.Nil?) || (p.focus.key < k && p.focus.right.Nil?)
    ensures p == NodeSearch(Position(t, []), k)
  {
    p := Position(t, []);
    while p.focus.key != k && (if k < p.focus.key then p.focus.left.Node? else p.focus.right.Node?)
      invariant p.focus.Node? && Whole(p) == t && InRange(p, k)
      invariant NodeSearch(p, k) == NodeSearch(Position(t, []), k)
      decreases p.focus
    {
      if k < p.focus.key {
        DescendLeft(p, k);
        p := LeftChild(p);
      } else {
        DescendRight(p, k);
        p := RightChild(p);
      }
    }
  }

  // ---------------------------------------------------------------------
  // The tree object

  /** kl_rb_tree: the root, the count num_leaves reports, and the flag saying
      which side the last two-child removal took its replacement from (only
      the constructor writes it, so removal always takes the predecessor). */
  class RbTree<V> {
    var root: Tree<V>
    var numberOfLeaves: nat
    var leftSideLast: bool

    ghost predicate Valid()
      reads this
    {
      RedBlack(root) && Ordered(root) && numberOfLeaves == |Content(root)|
    }

    constructor ()
      ensures Valid() && root == Nil && numberOfLeaves == 0 && !leftSideLast
    {
      root := Nil;
      numberOfLeaves := 0;
      leftSideLast := false;
    }

    /** num_leaves */
    function NumLeaves(): (r: nat)
      reads this
      requires Valid()
      ensures r == |Content(root)|
    {
      numberOfLeaves
    }

    /** get_root_node_key: the root's key, which is one of the tree's keys. */
    method GetRootNodeKey() returns (found: bool, out: int)
      requires Valid()
      ensures found <==> root.Node?
      ensures found ==> out == root.key && out in Content(root)
    {
      if root.Node? {
        HitAt(Position(root, []));
        return true, root.key;
      }
      return false, 0;
    }

    /** clear_tree, with the count reset as well (see LeavesAfterClearAsWritten). */
    method ClearTree()
      modifies this
      ensures Valid() && root == Nil && numberOfLeaves == 0 && leftSideLast == old(leftSideLast)
    {
      root := Nil;
      numberOfLeaves := 0;
    }

    /** insert: an empty tree gets a black root; otherwise walk down, replace
        the value of an equal key, or hang a red leaf where the walk fell off
        and run the fix-up loop. The count grows only for a new key (see
        InsertOutcomeAsWritten). */
    method Insert(k: int, v: V)
      requires Valid()
      modifies this
      ensures Valid()
      ensures Content(root) == old(Content(root))[k := v]
      ensures numberOfLeaves == old(numberOfLeaves) + (if k in old(Content(root)) then 0 else 1)
      ensures leftSideLast == old(leftSideLast)
    {
      if root.Nil? {
        root := Node(Black, Nil, k, v, Nil);
        numberOfLeaves := numberOfLeaves + 1;
        assert InOrder(root) == [Entry(k, v)];
        assert [Entry(k, v)][..0] == [];
        return;
      }
      var p := WalkDown(root, k);
      if p.focus.key == k {
        OverwriteSound(p, v);
        root := Plug(p.focus.(value := v), p.path);
      } else {
        var slot := if k < p.focus.key then LeftChild(p) else RightChild(p);
        if k < p.focus.key {
          DescendLeft(p, k);
        } else {
          DescendRight(p, k);
        }
        NewLeafSound(slot, k, v);
        root := FixAfterInsert(Position(Node(Red, Nil, k, v, Nil), slot.path));
        numberOfLeaves := numberOfLeaves + 1;
      }
    }

    /** remove: the key must be present; its node is removed and the tree
        rebalanced. The count drops by one (see LeavesAfterRemoveAsWritten). */
    method Remove(k: int)
      requires Valid() && k in Content(root)
      modifies this
      ensures Valid()
      ensures Content(root) == old(Content(root)) - {k}
      ensures numberOfLeaves == old(numberOfLeaves) - 1
      ensures leftSideLast == old(leftSideLast)
    {
      var p := NodeSearch(Position(root, []), k);
      RemoveKeySound(root, k, leftSideLast);
      root := RemoveNode(p, leftSideLast);
      numberOfLeaves := numberOfLeaves - 1;
    }
  }
}
