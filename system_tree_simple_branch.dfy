/** A System Tree branch that keeps its children in a name-keyed map
    (system_tree_simple_branch in kernel/system_tree/system_tree_simple_branch.cpp).
    Child branches are held by value: a path "a\b" is resolved by handing "b"
    to the branch stored under "a". */
module SystemTreeSimpleBranch {
  import opened Common
  import opened SystemTreeBranch

  /** A child: a leaf (identified by a number) or a simple branch. */
  datatype Node = Leaf(id: nat) | Branch(children: map<seq<char>, Node>)

  type Children = map<seq<char>, Node>

  /** get_child. */
  function GetChild(children: Children, name: seq<char>): (r: Result<Node>)
    decreases |name|
    ensures SEPARATOR !in name ==> r == (if name in children then Ok(children[name]) else Err(NotFound))
    ensures r.Err? ==> r.code == NotFound
  {
    var (ours, rest) := SplitName(name, false);
    if ours !in children then Err(NotFound)
    else if rest != [] then
      match children[ours]
      case Branch(c) => GetChild(c, rest)
      case Leaf(_) => Err(NotFound)
    else Ok(children[ours])
  }

  /** add_child: the new map, or the reason the child was refused. A null
      child is None. */
  function AddChild(children: Children, name: seq<char>, child: Option<Node>): (r: Result<Children>)
    decreases |name|
    ensures child.None? ==> r == Err(InvalidParam)
    ensures child.Some? && name == [] ==> r == Err(InvalidName)
    ensures child.Some? && name != [] && SEPARATOR !in name ==>
      r == (if name in children then Err(AlreadyExists) else Ok(children[name := child.value]))
  {
    if child.None? then Err(InvalidParam)
    else if name == [] then Err(InvalidName)
    else match FirstIndexOf(name, SEPARATOR)
      case Some(p) =>
        var next := name[..p];
        var cont := name[p + 1..];
        if next !in children then Err(NotFound)
        else (match children[next]
          case Branch(c) =>
            (match AddChild(c, cont, child)
             case Ok(c2) => Ok(children[next := Branch(c2)])
             case Err(e) => Err(e))
          case Leaf(_) => Err(InvalidOp))
      case None =>
        if name in children then Err(AlreadyExists)
        else Ok(children[name := child.value])
  }

  /** A path whose first component names a child branch resolves inside
      that branch. */
  lemma GetThrough(children: Children, name: seq<char>, p: nat, c: Children)
    requires FirstIndexOf(name, SEPARATOR) == Some(p) && p + 1 < |name|
    requires name[..p] in children && children[name[..p]] == Branch(c)
    ensures GetChild(children, name) == GetChild(c, name[p + 1..])
  {
    assert SplitName(name, false) == (name[..p], name[p + 1..]);
  }

  /** A child that was added is found again under the same path. */
  lemma {:induction false} AddThenGet(children: Children, name: seq<char>, child: Node)
    requires AddChild(children, name, Some(child)).Ok?
    ensures GetChild(AddChild(children, name, Some(child)).value, name) == Ok(child)
    decreases |name|
  {
    match FirstIndexOf(name, SEPARATOR)
    case None =>
    case Some(p) =>
      var next := name[..p];
      var cont := name[p + 1..];
      var c := children[next].children;
      var c2 := AddChild(c, cont, Some(child)).value;
      var after := children[next := Branch(c2)];
      assert AddChild(children, name, Some(child)).value == after;
      GetThrough(after, name, p, c2);
      AddThenGet(c, cont, child);
  }

  /** Adding leaves every other direct child where it was. */
  lemma AddKeepsOthers(children: Children, name: seq<char>, child: Node, other: seq<char>)
    requires AddChild(children, name, Some(child)).Ok?
    requires SEPARATOR !in other && other in children
    requires FirstIndexOf(name, SEPARATOR).None? || other != name[..FirstIndexOf(name, SEPARATOR).value]
    ensures other in AddChild(children, name, Some(child)).value
    ensures AddChild(children, name, Some(child)).value[other] == children[other]
  {
  }

  /** delete_child. */
  function DeleteChild(children: Children, name: seq<char>): (r: Result<Children>)
    decreases |name|
    ensures SEPARATOR !in name ==>
      r == (if name in children then Ok(children - {name}) else Err(NotFound))
  {
    match FirstIndexOf(name, SEPARATOR)
    case None =>
      if name in children then Ok(children - {name}) else Err(NotFound)
    case Some(p) =>
      var ours := name[..p];
      var grandchild := name[p + 1..];
      if ours in children && children[ours].Branch? then
        match DeleteChild(children[ours].children, grandchild)
        case Ok(c2) => Ok(children[ours := Branch(c2)])
        case Err(e) => Err(e)
      else Err(NotFound)
  }

  /** After a successful delete the path no longer resolves. */
  lemma {:induction false} DeleteThenGet(children: Children, name: seq<char>)
    requires |name| > 0 && name[|name| - 1] != SEPARATOR
    requires DeleteChild(children, name).Ok?
    ensures GetChild(DeleteChild(children, name).value, name) == Err(NotFound)
    decreases |name|
  {
    match FirstIndexOf(name, SEPARATOR)
    case None =>
    case Some(p) =>
      var ours := name[..p];
      var grandchild := name[p + 1..];
      assert p + 1 < |name|;
      assert grandchild[|grandchild| - 1] == name[|name| - 1];
      var c2 := DeleteChild(children[ours].children, grandchild).value;
      var after := children[ours := Branch(c2)];
      assert DeleteChild(children, name).value == after;
      GetThrough(after, name, p, c2);
      DeleteThenGet(children[ours].children, grandchild);
  }

  /** rename_child. oldSplit and newSplit are the positions of the first
      separator in each name; a rename that reaches into a child branch must
      name the same branch on both sides. Renaming onto an existing name
      replaces that child, as the name map's insert overwrites. */
  function RenameChild(children: Children, oldName: seq<char>, newName: seq<char>): (r: Result<Children>)
    decreases |oldName|
    ensures FirstIndexOf(oldName, SEPARATOR) != FirstIndexOf(newName, SEPARATOR) ==> r == Err(InvalidOp)
    ensures SEPARATOR !in oldName && SEPARATOR !in newName ==>
      r == (if oldName in children then Ok((children - {oldName})[newName := children[oldName]]) else Err(NotFound))
  {
    var oldSplit := FirstIndexOf(oldName, SEPARATOR);
    var newSplit := FirstIndexOf(newName, SEPARATOR);
    if oldSplit.Some? && oldSplit == newSplit then
      var p := oldSplit.value;
      var childBranch := oldName[..p];
      if newName[..p] != childBranch then Err(InvalidOp)
      else if childBranch !in children then Err(NotFound)
      else if children[childBranch].Leaf? then Err(NotFound)
      else
        match RenameChild(children[childBranch].children, oldName[p + 1..], newName[p + 1..])
        case Ok(c2) => Ok(children[childBranch := Branch(c2)])
        case Err(e) => Err(e)
    else if oldSplit != newSplit then Err(InvalidOp)
    else if oldName in children then
      Ok((children - {oldName})[newName := children[oldName]])
    else Err(NotFound)
  }

  /** A direct rename moves the child: the new name resolves to it and,
      unless the names are equal, the old one is gone. */
  lemma RenameMoves(children: Children, oldName: seq<char>, newName: seq<char>)
    requires SEPARATOR !in oldName && SEPARATOR !in newName
    requires oldName in children
    ensures RenameChild(children, oldName, newName).Ok?
    ensures GetChild(RenameChild(children, oldName, newName).value, newName) == Ok(children[oldName])
    ensures oldName != newName ==> GetChild(RenameChild(children, oldName, newName).value, oldName) == Err(NotFound)
  {
  }

  /** A rename across two different child branches is refused. */
  lemma RenameAcrossBranchesRefused(a: seq<char>, b: seq<char>, x: seq<char>, y: seq<char>, children: Children)
    requires SEPARATOR !in a && SEPARATOR !in b && a != b && |a| == |b|
    ensures RenameChild(children, a + [SEPARATOR] + x, b + [SEPARATOR] + y) == Err(InvalidOp)
  {
    var oldName := a + [SEPARATOR] + x;
    var newName := b + [SEPARATOR] + y;
    SplitFromStartUnique(a, x);
    SplitFromStartUnique(b, y);
    assert oldName[..|a|] == a && newName[..|b|] == b;
  }

  /** create_child: a simple branch cannot create leaves itself
      (create_child_here is INVALID_OP), so a request fails here or in the
      child branch it is passed to. */
  function CreateChild(children: Children, name: seq<char>): (r: ErrCode)
    decreases |name|
    ensures r == InvalidOp || r == NotFound
  {
    var (first, second) := SplitName(name, false);
    if second == [] then InvalidOp
    else match GetChild(children, first)
      case Err(e) => e
      case Ok(Branch(c)) => CreateChild(c, second)
      case Ok(Leaf(_)) => InvalidOp
  }

  class SimpleBranch {
    var children: Children

    constructor ()
      ensures children == map[]
    {
      children := map[];
    }

    method Get(name: seq<char>) returns (result: ErrCode, child: Option<Node>)
      ensures GetChild(children, name).Ok? ==> result == NoError && child == Some(GetChild(children, name).value)
      ensures GetChild(children, name).Err? ==> result == GetChild(children, name).code && child.None?
    {
      match GetChild(children, name)
      case Ok(n) => result := NoError; child := Some(n);
      case Err(e) => result := e; child := None;
    }

    method Add(name: seq<char>, child: Option<Node>) returns (result: ErrCode)
      modifies this
      ensures AddChild(old(children), name, child).Ok? ==> result == NoError && children == AddChild(old(children), name, child).value
      ensures AddChild(old(children), name, child).Err? ==> result == AddChild(old(children), name, child).code && children == old(children)
    {
      match AddChild(children, name, child)
      case Ok(c) => result := NoError; children := c;
      case Err(e) => result := e;
    }

    method Rename(oldName: seq<char>, newName: seq<char>) returns (result: ErrCode)
      modifies this
      ensures RenameChild(old(children), oldName, newName).Ok? ==> result == NoError && children == RenameChild(old(children), oldName, newName).value
      ensures RenameChild(old(children), oldName, newName).Err? ==> result == RenameChild(old(children), oldName, newName).code && children == old(children)
    {
      match RenameChild(children, oldName, newName)
      case Ok(c) => result := NoError; children := c;
      case Err(e) => result := e;
    }

    method Delete(name: seq<char>) returns (result: ErrCode)
      modifies this
      ensures DeleteChild(old(children), name).Ok? ==> result == NoError && children == DeleteChild(old(children), name).value
      ensures DeleteChild(old(children), name).Err? ==> result == DeleteChild(old(children), name).code && children == old(children)
    {
      match DeleteChild(children, name)
      case Ok(c) => result := NoError; children := c;
      case Err(e) => result := e;
    }
  }
}
