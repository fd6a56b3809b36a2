/** Path splitting for System Tree branches (ISystemTreeBranch::split_name in
    kernel/include/types/system_tree_branch.h). Paths are delimited by '\'. */
module SystemTreeBranch {
  import opened Common

  const SEPARATOR: char := '\\'

  /** The first position of c in s, as std::string::find gives it. */
  function FirstIndexOf(s: seq<char>, c: char): (r: Option<nat>)
    ensures r.None? <==> c !in s
    ensures r.Some? ==> r.value < |s| && s[r.value] == c && c !in s[..r.value]
  {
    if |s| == 0 then None
    else if s[0] == c then Some(0)
    else match FirstIndexOf(s[1..], c)
      case None => None
      case Some(i) =>
        assert s[..i + 1] == [s[0]] + s[1..][..i];
        Some(i + 1)
  }

  /** The last position of c in s, as std::string::find_last_of gives it. */
  function LastIndexOf(s: seq<char>, c: char): (r: Option<nat>)
    ensures r.None? <==> c !in s
    ensures r.Some? ==> r.value < |s| && s[r.value] == c && c !in s[r.value + 1..]
  {
    if |s| == 0 then None
    else if s[|s| - 1] == c then
      Some(|s| - 1)
    else match LastIndexOf(s[..|s| - 1], c)
      case None =>
        assert s == s[..|s| - 1] + [s[|s| - 1]];
        None
      case Some(i) =>
        assert s[i + 1..] == s[..|s| - 1][i + 1..] + [s[|s| - 1]];
        Some(i)
  }

  /** split_name: the part before the chosen separator and the part after
      it, or the whole name and "" when it has no separator. */
  function SplitName(name: seq<char>, splitFromEnd: bool): (r: (seq<char>, seq<char>))
    ensures SEPARATOR !in name ==> r == (name, [])
    ensures SEPARATOR in name ==> r.0 + [SEPARATOR] + r.1 == name
    ensures !splitFromEnd ==> SEPARATOR !in r.0
    ensures splitFromEnd ==> SEPARATOR !in r.1
  {
    var splitPos := if splitFromEnd then LastIndexOf(name, SEPARATOR) else FirstIndexOf(name, SEPARATOR);
    match splitPos
    case None => (name, [])
    case Some(p) =>
      assert name == name[..p] + [SEPARATOR] + name[p + 1..];
      (name[..p], name[p + 1..])
  }

  /** Splitting from the start is the only way to cut a name at a separator
      with no separator before the cut. */
  lemma SplitFromStartUnique(first: seq<char>, rest: seq<char>)
    requires SEPARATOR !in first
    ensures SplitName(first + [SEPARATOR] + rest, false) == (first, rest)
  {
    var name := first + [SEPARATOR] + rest;
    var p := FirstIndexOf(name, SEPARATOR).value;
    assert forall i :: 0 <= i < |first| ==> name[i] == first[i];
    assert name[|first|] == SEPARATOR;
    assert p == |first|;
    assert name[..|first|] == first && name[|first| + 1..] == rest;
  }

  /** Splitting from the end is the only way to cut a name at a separator
      with no separator after the cut. */
  lemma SplitFromEndUnique(rest: seq<char>, last: seq<char>)
    requires SEPARATOR !in last
    ensures SplitName(rest + [SEPARATOR] + last, true) == (rest, last)
  {
    var name := rest + [SEPARATOR] + last;
    var p := LastIndexOf(name, SEPARATOR).value;
    assert forall i :: |rest| < i < |name| ==> name[i] == last[i - |rest| - 1];
    assert name[|rest|] == SEPARATOR;
    assert p == |rest|;
    assert name[..|rest|] == rest && name[|rest| + 1..] == last;
  }
}
