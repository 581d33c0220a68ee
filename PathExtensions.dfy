/**
 * IPathExtensions: the two `Combine` overloads that join many path parts
 * with `IPath.Combine`. The joining rule itself (rooted parts, separators)
 * belongs to the file-system abstraction and stays uninterpreted: it is the
 * `combine` parameter.
 */
module PathExtensions {
  import opened Wrappers

  /** `IPath.Combine(a, b)`, whatever rule the file system uses. */
  type Combiner = (string, string) -> string

  /** Left fold of `combine` over `parts`, starting from `root`. */
  function FoldCombine(combine: Combiner, root: string, parts: seq<string>): string
    decreases |parts|
  {
    if parts == [] then root else FoldCombine(combine, combine(root, parts[0]), parts[1..])
  }

  /** Folding over two pieces is folding over the first, then over the second from there. */
  lemma {:induction false} FoldCombineAppend(combine: Combiner, root: string, a: seq<string>, b: seq<string>)
    ensures FoldCombine(combine, root, a + b) == FoldCombine(combine, FoldCombine(combine, root, a), b)
    decreases |a|
  {
    if a == [] {
      assert a + b == b;
    } else {
      assert (a + b)[0] == a[0];
      assert (a + b)[1..] == a[1..] + b;
      FoldCombineAppend(combine, combine(root, a[0]), a[1..], b);
    }
  }

  /** Each further part is combined onto the result for the parts before it. */
  lemma FoldCombineLast(combine: Combiner, root: string, parts: seq<string>, last: string)
    ensures FoldCombine(combine, root, parts + [last]) == combine(FoldCombine(combine, root, parts), last)
  {
    FoldCombineAppend(combine, root, parts, [last]);
    assert [last][1..] == [];
  }

  /**
   * `Combine(this IPath path, string root, params string[] paths)`.
   * A null `paths` array is `None`.
   */
  method Combine(combine: Combiner, root: string, paths: Option<seq<string>>) returns (r: string)
    ensures paths == None || paths == Some([]) ==> r == root
    ensures paths.Some? ==> r == FoldCombine(combine, root, paths.value)
    ensures paths.Some? && |paths.value| == 1 ==> r == combine(root, paths.value[0])
  {
    if paths.None? || |paths.value| == 0 {
      return root;
    }
    var parts := paths.value;
    r := root;
    for i := 0 to |parts|
      invariant FoldCombine(combine, r, parts[i..]) == FoldCombine(combine, root, parts)
    {
      assert parts[i..][1..] == parts[i + 1..];
      r := combine(r, parts[i]);
    }
    assert parts[|parts|..] == [];
  }

  /**
   * `Combine(this IPath path, IEnumerable<string> paths)`: the first part is
   * the starting point and every further part is combined onto it; an empty
   * sequence gives null (`None`).
   */
  method CombineAll(combine: Combiner, paths: seq<string>) returns (r: Option<string>)
    ensures paths == [] ==> r == None
    ensures paths != [] ==> r == Some(FoldCombine(combine, paths[0], paths[1..]))
    ensures |paths| == 1 ==> r == Some(paths[0])
  {
    if |paths| == 0 {
      return None;
    }
    var ret := paths[0];
    var i := 1;
    while i < |paths|
      invariant 1 <= i <= |paths|
      invariant FoldCombine(combine, ret, paths[i..]) == FoldCombine(combine, paths[0], paths[1..])
    {
      assert paths[i..][1..] == paths[i + 1..];
      ret := combine(ret, paths[i]);
      i := i + 1;
    }
    assert paths[|paths|..] == [];
    r := Some(ret);
  }

  /**
   * The enumerable overload over `[first] + rest` gives what the `params`
   * overload gives for root `first` and parts `rest`.
   */
  method CombineAllIsCombine(combine: Combiner, first: string, rest: seq<string>)
    returns (viaEnumerable: Option<string>, viaParams: string)
    ensures viaEnumerable == Some(viaParams)
  {
    viaEnumerable := CombineAll(combine, [first] + rest);
    assert ([first] + rest)[1..] == rest;
    viaParams := Combine(combine, first, Some(rest));
  }
}
