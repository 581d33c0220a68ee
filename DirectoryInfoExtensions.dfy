/**
 * IDirectoryInfoExtensions: copying a directory (its files, and with
 * `recursive` its whole tree) to a destination that must not exist yet, and
 * handles for a file or subdirectory by name.
 */
module DirectoryInfoExtensions {
  import opened Wrappers
  import opened FileSystem

  // ----- what a copy produces -----

  /** Where the entry `q`, at or below `src`, lands when `src` is copied to `dst`. */
  function Rebase(src: Path, dst: Path, q: Path): Path
    requires src <= q
  {
    dst + q[|src|..]
  }

  /** The source entry that the entry `p`, at or below `dst`, is a copy of. */
  function Origin(src: Path, dst: Path, p: Path): Path
    requires dst <= p
  {
    src + p[|dst|..]
  }

  lemma RebaseOrigin(src: Path, dst: Path, q: Path, p: Path)
    ensures src <= q ==> Origin(src, dst, Rebase(src, dst, q)) == q
    ensures dst <= p ==> Rebase(src, dst, Origin(src, dst, p)) == p
  {
    if src <= q {
      assert Rebase(src, dst, q)[|dst|..] == q[|src|..];
      assert q == src + q[|src|..];
    }
    if dst <= p {
      assert Origin(src, dst, p)[|src|..] == p[|dst|..];
      assert p == dst + p[|dst|..];
    }
  }

  lemma RebaseOriginAll(src: Path, dst: Path)
    ensures forall q | src <= q :: dst <= Rebase(src, dst, q) && Origin(src, dst, Rebase(src, dst, q)) == q
    ensures forall p | dst <= p :: src <= Origin(src, dst, p) && Rebase(src, dst, Origin(src, dst, p)) == p
  {
    forall q | src <= q
      ensures dst <= Rebase(src, dst, q) && Origin(src, dst, Rebase(src, dst, q)) == q
    {
      RebaseOrigin(src, dst, q, []);
    }
    forall p | dst <= p
      ensures src <= Origin(src, dst, p) && Rebase(src, dst, Origin(src, dst, p)) == p
    {
      RebaseOrigin(src, dst, [], p);
    }
  }

  /**
   * The source entries a copy of `src` reproduces: `src` itself and, below
   * it, everything when `recursive`, otherwise only the files directly inside.
   */
  ghost predicate Copies(n: Nodes, src: Path, q: Path, recursive: bool) {
    && q in n
    && src <= q
    && (recursive || q == src || (|q| == |src| + 1 && n[q].File?))
  }

  /** The places below `dst` of the copies of the entries `Copies` selects. */
  ghost function MirrorKeys(n: Nodes, src: Path, dst: Path, recursive: bool): (keys: set<Path>)
    ensures forall p :: p in keys <==> dst <= p && Copies(n, src, Origin(src, dst, p), recursive)
  {
    RebaseOriginAll(src, dst);
    set q | q in n.Keys && Copies(n, src, q, recursive) :: Rebase(src, dst, q)
  }

  /** The copies, at their places below `dst`, of the entries `Copies` selects. */
  ghost function Mirror(n: Nodes, src: Path, dst: Path, recursive: bool): (m: Nodes)
    ensures forall p :: p in m <==> dst <= p && Copies(n, src, Origin(src, dst, p), recursive)
    ensures forall p | p in m :: dst <= p && Origin(src, dst, p) in n && m[p] == n[Origin(src, dst, p)]
  {
    map p | p in MirrorKeys(n, src, dst, recursive) :: n[Origin(src, dst, p)]
  }

  /** The disk after a successful copy of `src` to `dst`. */
  ghost function Copied(n: Nodes, src: Path, dst: Path, recursive: bool): Nodes {
    WithDirectory(n, dst) + Mirror(n, src, dst, recursive)
  }

  /** What `CopyTo` does to the disk, or what it throws, checks in the order the code makes them. */
  ghost function CopyToResult(n: Nodes, src: Path, dst: Path, recursive: bool): Result<Nodes, Error> {
    if !IsDirectory(n, src) then Failure(SourceDirectoryNotFound(src))
    else if IsDirectory(n, dst) then Failure(DirectoryAlreadyExists(dst))
    else if !CanCreateDirectory(n, dst) then Failure(PathInUse(dst))
    else Success(Copied(n, src, dst, recursive))
  }

  // ----- properties of a successful copy -----

  /** The situation in which `CopyTo` gets past its checks. */
  ghost predicate CopyAllowed(n: Nodes, src: Path, dst: Path, recursive: bool) {
    && WellFormed(n)
    && IsDirectory(n, src)
    && !IsDirectory(n, dst)
    && CanCreateDirectory(n, dst)
    && (recursive ==> !(src < dst))
  }

  /** The destination does not exist, nor anything below it; it does not contain the source. */
  lemma DestinationIsNew(n: Nodes, src: Path, dst: Path, recursive: bool, p: Path)
    requires CopyAllowed(n, src, dst, recursive)
    ensures dst !in n && !(dst <= src)
    ensures dst <= p ==> p !in n
  {
    assert !IsFile(n, dst[..|dst|]);
    assert dst[..|dst|] == dst;
    if dst <= src {
      if dst == src {
      } else {
        AncestorIsDirectory(n, dst, src);
      }
    }
    if dst < p {
      NothingBelow(n, dst, p);
    } else if dst == p {
      assert p !in n;
    }
  }

  /** Entries that existed before the copy are still there, unchanged; the source tree among them. */
  lemma CopyKeepsExistingEntries(n: Nodes, src: Path, dst: Path, recursive: bool, p: Path)
    requires CopyAllowed(n, src, dst, recursive) && p in n
    ensures p in Copied(n, src, dst, recursive) && Copied(n, src, dst, recursive)[p] == n[p]
  {
    DestinationIsNew(n, src, dst, recursive, p);
  }

  /** Everything the copy adds lies at or below the destination, or is an ancestor directory of it. */
  lemma CopyAddsOnlyAroundDestination(n: Nodes, src: Path, dst: Path, recursive: bool, p: Path)
    requires CopyAllowed(n, src, dst, recursive)
    requires p in Copied(n, src, dst, recursive) && p !in n
    ensures dst <= p || (p < dst && Copied(n, src, dst, recursive)[p] == Dir)
  {
  }

  /** The destination exists as a directory after the copy. */
  lemma CopyCreatesDestination(n: Nodes, src: Path, dst: Path, recursive: bool)
    requires CopyAllowed(n, src, dst, recursive)
    ensures IsDirectory(Copied(n, src, dst, recursive), dst)
  {
    assert Origin(src, dst, dst) == src;
  }

  /** What the disk holds at `p` after a copy, below the destination and elsewhere. */
  lemma CopiedAt(n: Nodes, src: Path, dst: Path, recursive: bool, p: Path)
    requires CopyAllowed(n, src, dst, recursive)
    ensures dst <= p ==>
      && (p in Copied(n, src, dst, recursive) <==> Copies(n, src, Origin(src, dst, p), recursive))
      && (p in Copied(n, src, dst, recursive) ==> Copied(n, src, dst, recursive)[p] == n[Origin(src, dst, p)])
    ensures !(dst <= p) ==>
      && (p in Copied(n, src, dst, recursive) <==> p in n || p < dst)
      && (p in n ==> Copied(n, src, dst, recursive)[p] == n[p])
      && (p !in n && p < dst ==> Copied(n, src, dst, recursive)[p] == Dir)
  {
    DestinationIsNew(n, src, dst, recursive, p);
    if dst == p {
      assert Origin(src, dst, p) == src;
    }
  }

  /**
   * A recursive copy reproduces the source tree at the destination: the same
   * directory and file names, the same file contents, and nothing else.
   */
  lemma RecursiveCopyMirrorsTree(n: Nodes, src: Path, dst: Path, q: Path)
    requires CopyAllowed(n, src, dst, true) && src <= q
    ensures Rebase(src, dst, q) in Copied(n, src, dst, true) <==> q in n
    ensures q in n ==> Copied(n, src, dst, true)[Rebase(src, dst, q)] == n[q]
  {
    RebaseOrigin(src, dst, q, []);
    CopiedAt(n, src, dst, true, Rebase(src, dst, q));
  }

  /** Everything at or below the destination after a recursive copy is the copy of an entry of the source tree. */
  lemma RecursiveCopyAddsNothingElse(n: Nodes, src: Path, dst: Path, p: Path)
    requires CopyAllowed(n, src, dst, true) && dst <= p && p in Copied(n, src, dst, true)
    ensures src <= Origin(src, dst, p) && Origin(src, dst, p) in n
    ensures Copied(n, src, dst, true)[p] == n[Origin(src, dst, p)]
  {
    CopiedAt(n, src, dst, true, p);
  }

  /**
   * A non-recursive copy puts exactly the files directly inside the source,
   * with their contents, into the destination, and no subdirectories.
   */
  lemma NonRecursiveCopyTakesFilesOnly(n: Nodes, src: Path, dst: Path, name: string, p: Path)
    requires CopyAllowed(n, src, dst, false)
    ensures IsFile(Copied(n, src, dst, false), dst + [name]) <==> IsFile(n, src + [name])
    ensures IsFile(n, src + [name]) ==> Copied(n, src, dst, false)[dst + [name]] == n[src + [name]]
    ensures dst < p && p in Copied(n, src, dst, false) ==>
      |p| == |dst| + 1 && IsFile(Copied(n, src, dst, false), p)
  {
    var c := Copied(n, src, dst, false);
    var d := dst + [name];
    DestinationIsNew(n, src, dst, false, d);
    assert Origin(src, dst, d) == src + [name];
    if dst < p {
      DestinationIsNew(n, src, dst, false, p);
      if p in c {
        RebaseOrigin(src, dst, [], p);
      }
    }
  }

  /** The parent of an entry below `dst` is the copy of the parent of the entry's origin. */
  lemma OriginParent(src: Path, dst: Path, p: Path)
    requires dst < p
    ensures dst <= Parent(p) && Origin(src, dst, Parent(p)) == Parent(Origin(src, dst, p))
    ensures src < Origin(src, dst, p)
  {
    assert Parent(p)[..|dst|] == p[..|dst|];
    assert Origin(src, dst, Parent(p)) == Parent(Origin(src, dst, p)) by {
      assert Parent(p)[|dst|..] == p[|dst|..][..|p| - |dst| - 1];
    }
  }

  /** The disk stays well formed. */
  lemma CopiedWellFormed(n: Nodes, src: Path, dst: Path, recursive: bool)
    requires CopyAllowed(n, src, dst, recursive)
    ensures WellFormed(Copied(n, src, dst, recursive))
  {
    var c := Copied(n, src, dst, recursive);
    DestinationIsNew(n, src, dst, recursive, dst);
    CopiedAt(n, src, dst, recursive, []);
    forall p | p in c && p != []
      ensures IsDirectory(c, Parent(p))
    {
      var pp := Parent(p);
      CopiedAt(n, src, dst, recursive, p);
      CopiedAt(n, src, dst, recursive, pp);
      if dst < p {
        OriginParent(src, dst, p);
        var q := Origin(src, dst, p);
        assert IsDirectory(n, Parent(q));
        assert !recursive ==> Parent(q) == src;
      } else if dst == p {
        assert pp < dst;
        assert pp == dst[..|pp|];
      } else if p < dst {
        assert pp < dst;
        assert pp == dst[..|pp|];
      } else {
        assert IsDirectory(n, pp);
        assert !(dst <= pp);
      }
    }
  }

  // ----- the copy, step by step -----

  /** All the entries at or below `p`: what a copy of `p` has left to visit. */
  ghost function Subtree(n: Nodes, p: Path): set<Path> {
    set q | q in n && p <= q
  }

  /** Two disks with the same entries, holding the same at each, are the same disk. */
  lemma SameNodes(a: Nodes, b: Nodes)
    requires forall p :: (p in a <==> p in b) && (p in a ==> a[p] == b[p])
    ensures a == b
  {
    assert a.Keys == b.Keys;
  }

  /** Adding one more name after some already added. */
  lemma AddOne(before: set<string>, done: set<string>, name: string, next: set<string>)
    requires next == done + {name}
    ensures before + done + {name} == before + next
  {
  }

  /** A proper subset has fewer elements. */
  lemma ProperSubsetSmaller<T>(a: set<T>, b: set<T>)
    requires a < b
    ensures |a| < |b|
  {
    var d := b - a;
    assert b == a + d;
    assert a * d == {};
    assert d != {};
  }

  /** Two prefixes of the same path are prefixes of one another. */
  lemma PrefixesComparable(a: Path, b: Path, p: Path)
    requires a <= p && b <= p
    ensures a <= b || b < a
  {
    if |a| <= |b| {
      assert a == b[..|a|];
    } else {
      assert b == a[..|b|];
    }
  }

  ghost function BelowKeys(n: Nodes, src: Path, dst: Path, names: set<string>): (keys: set<Path>)
    ensures forall p :: p in keys <==> dst < p && p[|dst|] in names && Origin(src, dst, p) in n
  {
    RebaseOriginAll(src, dst);
    assert forall q | src < q :: Rebase(src, dst, q)[|dst|] == q[|src|];
    assert forall p | dst < p :: src < Origin(src, dst, p) && Origin(src, dst, p)[|src|] == p[|dst|];
    set q | q in n.Keys && src < q && q[|src|] in names :: Rebase(src, dst, q)
  }

  /**
   * The copies below `dst` of the entries strictly below `src` whose name
   * directly inside `src` is one of `names`: what copying those children of
   * `src` into `dst` adds.
   */
  ghost function Below(n: Nodes, src: Path, dst: Path, names: set<string>): (m: Nodes)
    ensures forall p :: p in m <==> dst < p && p[|dst|] in names && Origin(src, dst, p) in n
    ensures forall p | p in m :: dst < p && Origin(src, dst, p) in n && m[p] == n[Origin(src, dst, p)]
  {
    map p | p in BelowKeys(n, src, dst, names) :: n[Origin(src, dst, p)]
  }

  /** A path strictly below `dst` lies below the child of `dst` that it names. */
  lemma ChildOf(dst: Path, name: string, p: Path)
    requires dst < p
    ensures p[|dst|] == name ==> dst + [name] <= p
  {
    if p[|dst|] == name {
      assert p[..|dst| + 1] == dst + [name];
    }
  }

  /** Adding the same name to two paths keeps them unrelated by prefix. */
  lemma ChildPrefix(src: Path, dst: Path, name: string)
    ensures src + [name] <= dst + [name] ==> src <= dst
    ensures dst < src + [name] ==> dst <= src
  {
    if src + [name] <= dst + [name] {
      assert |src| <= |dst|;
      assert src == (dst + [name])[..|src|] == dst[..|src|];
    }
    if dst < src + [name] {
      assert dst == (src + [name])[..|dst|] == src[..|dst|];
    }
  }

  /** The entries below `dst + [name]` copy those below `src + [name]`. */
  lemma OriginChild(src: Path, dst: Path, name: string, p: Path)
    requires dst + [name] <= p
    ensures dst < p && p[|dst|] == name
    ensures Origin(src + [name], dst + [name], p) == Origin(src, dst, p)
  {
    assert p[..|dst|] == (dst + [name])[..|dst|];
    assert p[|dst|] == (dst + [name])[|dst|];
    assert p[|dst|..] == [name] + p[|dst| + 1..];
  }

  /** The state a copy reaches once `dst` exists, before anything is copied into it. */
  lemma CreatedDestination(n: Nodes, src: Path, dst: Path, recursive: bool, p: Path)
    requires CopyAllowed(n, src, dst, recursive)
    ensures WellFormed(WithDirectory(n, dst)) && IsDirectory(WithDirectory(n, dst), dst)
    ensures p <= dst ==> IsDirectory(WithDirectory(n, dst), p)
    ensures dst < p ==> p !in WithDirectory(n, dst)
    ensures p in WithDirectory(n, dst) && p !in n ==> p <= dst
    ensures !(dst <= src)
    ensures recursive && src <= p ==> (p in WithDirectory(n, dst) <==> p in n)
  {
    WithDirectoryWellFormed(n, dst);
    DestinationIsNew(n, src, dst, recursive, p);
    if p <= dst {
      assert p == dst[..|p|];
    }
    if recursive && src <= p && p <= dst {
      PrefixesComparable(src, dst, dst);
    }
  }

  /** In a recursive copy, nothing at or below the source is at or below the destination. */
  lemma SourceOutsideDestination(n: Nodes, src: Path, dst: Path, q: Path)
    requires CopyAllowed(n, src, dst, true) && src <= q
    ensures !(dst <= q)
  {
    DestinationIsNew(n, src, dst, true, q);
    if dst <= q {
      PrefixesComparable(src, dst, q);
    }
  }

  /** An entry of the disk during the copy, where `names` holds what was copied into `dst` so far. */
  lemma DuringCopy(n: Nodes, src: Path, dst: Path, recursive: bool, names: set<string>, p: Path)
    requires CopyAllowed(n, src, dst, recursive)
    ensures var n1 := WithDirectory(n, dst);
      && (!(dst < p) ==> (p in n1 + Below(n1, src, dst, names) <==> p in n1))
      && (p in n1 && !(dst < p) ==> (n1 + Below(n1, src, dst, names))[p] == n1[p])
  {
  }

  /**
   * Before the subdirectory `name` of `src` is copied, with the subdirectories
   * `done` already copied, the recursive copy of `src + [name]` to
   * `dst + [name]` gets past its checks.
   */
  lemma DirectoryStepAllowed(n: Nodes, src: Path, dst: Path, done: set<string>, name: string)
    requires CopyAllowed(n, src, dst, true)
    requires IsDirectory(WithDirectory(n, dst), src + [name]) && name !in done
    requires WellFormed(WithDirectory(n, dst) + Below(WithDirectory(n, dst), src, dst, done))
    ensures var cur := WithDirectory(n, dst) + Below(WithDirectory(n, dst), src, dst, done);
      CopyAllowed(cur, src + [name], dst + [name], true)
  {
    var n1 := WithDirectory(n, dst);
    var cur := n1 + Below(n1, src, dst, done);
    var s', d' := src + [name], dst + [name];
    CreatedDestination(n, src, dst, true, s');
    CreatedDestination(n, src, dst, true, d');
    DuringCopy(n, src, dst, true, done, s');
    assert IsDirectory(cur, s');
    ChildPrefix(src, dst, name);
    assert d' !in cur by {
      assert d'[|dst|] == name;
    }
    forall i | 0 <= i <= |d'|
      ensures !IsFile(cur, d'[..i])
    {
      if i <= |dst| {
        assert d'[..i] <= dst;
        CreatedDestination(n, src, dst, true, d'[..i]);
        DuringCopy(n, src, dst, true, done, d'[..i]);
      } else {
        assert d'[..i] == d';
      }
    }
  }

  /** A recursive copy of a subdirectory has less left to visit than the copy that makes it. */
  lemma DirectoryStepShrinks(n: Nodes, src: Path, dst: Path, done: set<string>, name: string)
    requires CopyAllowed(n, src, dst, true)
    ensures var cur := WithDirectory(n, dst) + Below(WithDirectory(n, dst), src, dst, done);
      |Subtree(cur, src + [name])| < |Subtree(n, src)|
  {
    var n1 := WithDirectory(n, dst);
    var cur := n1 + Below(n1, src, dst, done);
    var s' := src + [name];
    forall q | q in Subtree(cur, s')
      ensures q in Subtree(n, src)
    {
      CreatedDestination(n, src, dst, true, q);
      if dst < q {
        PrefixesComparable(s', dst, q);
      }
      DuringCopy(n, src, dst, true, done, q);
    }
    assert src !in Subtree(cur, s');
    ProperSubsetSmaller(Subtree(cur, s'), Subtree(n, src));
  }

  /** `DirectoryStepResult` at one path. */
  lemma DirectoryStepAt(n: Nodes, src: Path, dst: Path, done: set<string>, name: string, p: Path)
    requires CopyAllowed(n, src, dst, true)
    requires IsDirectory(WithDirectory(n, dst), src + [name]) && name !in done
    requires CopyAllowed(WithDirectory(n, dst) + Below(WithDirectory(n, dst), src, dst, done), src + [name], dst + [name], true)
    ensures var n1 := WithDirectory(n, dst);
      var lhs := Copied(n1 + Below(n1, src, dst, done), src + [name], dst + [name], true);
      var rhs := n1 + Below(n1, src, dst, done + {name});
      (p in lhs <==> p in rhs) && (p in lhs ==> lhs[p] == rhs[p])
  {
    if dst + [name] <= p {
      DirectoryStepInside(n, src, dst, done, name, p);
    } else {
      DirectoryStepOutside(n, src, dst, done, name, p);
    }
  }

  /** `DirectoryStepAt` inside the destination of the recursive call. */
  lemma DirectoryStepInside(n: Nodes, src: Path, dst: Path, done: set<string>, name: string, p: Path)
    requires CopyAllowed(n, src, dst, true)
    requires IsDirectory(WithDirectory(n, dst), src + [name]) && name !in done
    requires CopyAllowed(WithDirectory(n, dst) + Below(WithDirectory(n, dst), src, dst, done), src + [name], dst + [name], true)
    requires dst + [name] <= p
    ensures var n1 := WithDirectory(n, dst);
      var lhs := Copied(n1 + Below(n1, src, dst, done), src + [name], dst + [name], true);
      var rhs := n1 + Below(n1, src, dst, done + {name});
      (p in lhs <==> p in rhs) && (p in lhs ==> lhs[p] == rhs[p])
  {
    var n1 := WithDirectory(n, dst);
    var cur := n1 + Below(n1, src, dst, done);
    var s', d' := src + [name], dst + [name];
    CopiedAt(cur, s', d', true, p);
    CreatedDestination(n, src, dst, true, p);
    OriginChild(src, dst, name, p);
    var q := Origin(src, dst, p);
    assert s' <= q;
    SourceOutsideDestination(n, src, dst, q);
    DuringCopy(n, src, dst, true, done, q);
    assert p !in n1;
    assert p in Copied(cur, s', d', true) <==> q in n1;
  }

  /** `DirectoryStepAt` outside the destination of the recursive call. */
  lemma DirectoryStepOutside(n: Nodes, src: Path, dst: Path, done: set<string>, name: string, p: Path)
    requires CopyAllowed(n, src, dst, true)
    requires IsDirectory(WithDirectory(n, dst), src + [name]) && name !in done
    requires CopyAllowed(WithDirectory(n, dst) + Below(WithDirectory(n, dst), src, dst, done), src + [name], dst + [name], true)
    requires !(dst + [name] <= p)
    ensures var n1 := WithDirectory(n, dst);
      var lhs := Copied(n1 + Below(n1, src, dst, done), src + [name], dst + [name], true);
      var rhs := n1 + Below(n1, src, dst, done + {name});
      (p in lhs <==> p in rhs) && (p in lhs ==> lhs[p] == rhs[p])
  {
    var n1 := WithDirectory(n, dst);
    var cur := n1 + Below(n1, src, dst, done);
    CopiedAt(cur, src + [name], dst + [name], true, p);
    CreatedDestination(n, src, dst, true, p);
    if dst < p {
      ChildOf(dst, name, p);
      assert !(p < dst + [name]);
    } else {
      DuringCopy(n, src, dst, true, done, p);
      DuringCopy(n, src, dst, true, done + {name}, p);
    }
  }

  /**
   * The recursive copy of the subdirectory `name` adds exactly the copies of
   * the entries below `src + [name]`.
   */
  lemma DirectoryStepResult(n: Nodes, src: Path, dst: Path, done: set<string>, name: string)
    requires CopyAllowed(n, src, dst, true)
    requires IsDirectory(WithDirectory(n, dst), src + [name]) && name !in done
    requires WellFormed(WithDirectory(n, dst) + Below(WithDirectory(n, dst), src, dst, done))
    ensures var n1 := WithDirectory(n, dst);
      Copied(n1 + Below(n1, src, dst, done), src + [name], dst + [name], true)
        == n1 + Below(n1, src, dst, done + {name})
  {
    var n1 := WithDirectory(n, dst);
    var cur := n1 + Below(n1, src, dst, done);
    var s', d' := src + [name], dst + [name];
    var lhs := Copied(cur, s', d', true);
    var rhs := n1 + Below(n1, src, dst, done + {name});
    DirectoryStepAllowed(n, src, dst, done, name);
    forall p
      ensures (p in lhs <==> p in rhs) && (p in lhs ==> lhs[p] == rhs[p])
    {
      DirectoryStepAt(n, src, dst, done, name, p);
    }
  }

  /**
   * One turn of the directory loop: the recursive call may be made, it is
   * on a smaller tree, and it leaves the disk with one more subdirectory copied.
   */
  lemma DirectoryStep(n: Nodes, src: Path, dst: Path, dirs: seq<string>, i: nat)
    requires CopyAllowed(n, src, dst, true)
    requires Distinct(dirs) && Elements(dirs) == DirectoryNames(WithDirectory(n, dst), src) && i < |dirs|
    requires WellFormed(WithDirectory(n, dst) + Below(WithDirectory(n, dst), src, dst, Elements(dirs[..i])))
    ensures !(src + [dirs[i]] < dst + [dirs[i]])
    ensures var n1 := WithDirectory(n, dst);
      var cur := n1 + Below(n1, src, dst, Elements(dirs[..i]));
      && |Subtree(cur, src + [dirs[i]])| < |Subtree(n, src)|
      && CopyToResult(cur, src + [dirs[i]], dst + [dirs[i]], true)
           == Success(n1 + Below(n1, src, dst, Elements(dirs[..i + 1])))
  {
    var n1 := WithDirectory(n, dst);
    var name, done := dirs[i], Elements(dirs[..i]);
    var cur := n1 + Below(n1, src, dst, done);
    NextElement(dirs, i);
    ElementsMembership(dirs, name);
    DirectoryStepAllowed(n, src, dst, done, name);
    DirectoryStepShrinks(n, src, dst, done, name);
    DirectoryStepResult(n, src, dst, done, name);
    ChildPrefix(src, dst, name);
    assert CopyAllowed(cur, src + [name], dst + [name], true);
  }

  /** Before the file loop, `src` is still a directory and no file is copied yet. */
  lemma FilesStart(n: Nodes, src: Path, dst: Path, recursive: bool, dirs: set<string>)
    requires CopyAllowed(n, src, dst, recursive)
    ensures var n1 := WithDirectory(n, dst);
      IsDirectory(n1 + Below(n1, src, dst, dirs), src) && dirs + Elements([]) == dirs
  {
    CreatedDestination(n, src, dst, recursive, src);
    DuringCopy(n, src, dst, recursive, dirs, src);
  }

  /**
   * One turn of the file loop: the file `name` found by the enumeration
   * copies cleanly, and the disk then has one more file copied.
   */
  lemma FileStepIn(n: Nodes, src: Path, dst: Path, recursive: bool, dirs: set<string>,
                   files: seq<string>, i: nat)
    requires CopyAllowed(n, src, dst, recursive)
    requires dirs == if recursive then DirectoryNames(WithDirectory(n, dst), src) else {}
    requires var n1 := WithDirectory(n, dst);
      Distinct(files) && Elements(files) == FileNames(n1 + Below(n1, src, dst, dirs), src) && i < |files|
    ensures var n1 := WithDirectory(n, dst);
      CopyFileResult(n1 + Below(n1, src, dst, dirs + Elements(files[..i])), src + [files[i]], dst + [files[i]])
        == Success(n1 + Below(n1, src, dst, dirs + Elements(files[..i + 1])))
  {
    var n1 := WithDirectory(n, dst);
    var name, done := files[i], Elements(files[..i]);
    NextElement(files, i);
    ElementsMembership(files, name);
    FilesUnaffected(n, src, dst, recursive, dirs);
    assert IsFile(n1, src + [name]) by {
      assert name in FileNames(n1, src);
    }
    assert name !in dirs by {
      assert !IsDirectory(n1, src + [name]);
    }
    FileStep(n, src, dst, recursive, dirs + done, name);
    AddOne(dirs, done, name, Elements(files[..i + 1]));
  }

  /**
   * Once the whole listing is copied, the subdirectories copied first and
   * the files copied after them are all the names `CopyTo` visits.
   */
  lemma FilesVisited(n: Nodes, src: Path, dst: Path, recursive: bool, dirs: set<string>, files: seq<string>)
    requires CopyAllowed(n, src, dst, recursive)
    requires dirs == if recursive then DirectoryNames(WithDirectory(n, dst), src) else {}
    requires var n1 := WithDirectory(n, dst);
      Elements(files) == FileNames(n1 + Below(n1, src, dst, dirs), src)
    ensures var n1 := WithDirectory(n, dst);
      n1 + Below(n1, src, dst, dirs + Elements(files[..|files|]))
        == n1 + Below(n1, src, dst, Visited(n1, src, recursive))
  {
    FilesUnaffected(n, src, dst, recursive, dirs);
    assert files[..|files|] == files;
    assert dirs + Elements(files) == Visited(WithDirectory(n, dst), src, recursive);
  }

  /** Copying the subdirectories does not change which files lie directly inside `src`. */
  lemma FilesUnaffected(n: Nodes, src: Path, dst: Path, recursive: bool, dirs: set<string>)
    requires CopyAllowed(n, src, dst, recursive)
    ensures var n1 := WithDirectory(n, dst);
      FileNames(n1 + Below(n1, src, dst, dirs), src) == FileNames(n1, src)
  {
    var n1 := WithDirectory(n, dst);
    CreatedDestination(n, src, dst, recursive, src);
    forall name
      ensures IsFile(n1 + Below(n1, src, dst, dirs), src + [name]) <==> IsFile(n1, src + [name])
    {
      ChildPrefix(src, dst, name);
      DuringCopy(n, src, dst, recursive, dirs, src + [name]);
    }
  }

  /** `FileStep` at one path. */
  lemma FileStepAt(n: Nodes, src: Path, dst: Path, recursive: bool, copied: set<string>, name: string, p: Path)
    requires CopyAllowed(n, src, dst, recursive)
    requires IsFile(WithDirectory(n, dst), src + [name]) && name !in copied
    ensures var n1 := WithDirectory(n, dst);
      var cur := n1 + Below(n1, src, dst, copied);
      var lhs := cur[dst + [name] := n1[src + [name]]];
      var rhs := n1 + Below(n1, src, dst, copied + {name});
      (p in lhs <==> p in rhs) && (p in lhs ==> lhs[p] == rhs[p])
  {
    var n1 := WithDirectory(n, dst);
    var s', d' := src + [name], dst + [name];
    CreatedDestination(n, src, dst, recursive, p);
    if dst < p && p[|dst|] == name && Origin(src, dst, p) in n1 {
      var q := Origin(src, dst, p);
      assert s' <= q by {
        assert q[..|s'|] == src + [p[|dst|]];
      }
      if s' < q {
        NothingBelow(n1, s', q);
      }
      assert p == d' by {
        assert p[|dst|..] == q[|src|..];
      }
    }
  }

  /**
   * Before the file `name` of `src` is copied, with the names `copied`
   * already copied, `File.Copy` from `src + [name]` to `dst + [name]`
   * succeeds and adds the copy of that one file.
   */
  lemma FileStep(n: Nodes, src: Path, dst: Path, recursive: bool, copied: set<string>, name: string)
    requires CopyAllowed(n, src, dst, recursive)
    requires IsFile(WithDirectory(n, dst), src + [name]) && name !in copied
    ensures var n1 := WithDirectory(n, dst);
      CopyFileResult(n1 + Below(n1, src, dst, copied), src + [name], dst + [name])
        == Success(n1 + Below(n1, src, dst, copied + {name}))
  {
    var n1 := WithDirectory(n, dst);
    var cur := n1 + Below(n1, src, dst, copied);
    var s', d' := src + [name], dst + [name];
    CreatedDestination(n, src, dst, recursive, s');
    CreatedDestination(n, src, dst, recursive, d');
    CreatedDestination(n, src, dst, recursive, dst);
    ChildPrefix(src, dst, name);
    DuringCopy(n, src, dst, recursive, copied, s');
    DuringCopy(n, src, dst, recursive, copied, dst);
    assert IsFile(cur, s');
    assert d' !in cur by {
      assert d'[|dst|] == name;
    }
    assert Parent(d') == dst;
    var lhs := cur[d' := n1[s']];
    var rhs := n1 + Below(n1, src, dst, copied + {name});
    forall p
      ensures (p in lhs <==> p in rhs) && (p in lhs ==> lhs[p] == rhs[p])
    {
      FileStepAt(n, src, dst, recursive, copied, name, p);
    }
    SameNodes(lhs, rhs);
  }

  /** The names directly inside `src` that a copy visits: its files, and with `recursive` its subdirectories. */
  ghost function Visited(n: Nodes, src: Path, recursive: bool): set<string> {
    (if recursive then DirectoryNames(n, src) else {}) + FileNames(n, src)
  }

  /** Below the destination, the copies of the visited names are what `Copies` selects. */
  lemma CopyFinishedBelow(n: Nodes, src: Path, dst: Path, recursive: bool, p: Path)
    requires CopyAllowed(n, src, dst, recursive) && dst < p
    ensures var n1 := WithDirectory(n, dst);
      && (p in Below(n1, src, dst, Visited(n1, src, recursive)) <==> Copies(n, src, Origin(src, dst, p), recursive))
      && (Origin(src, dst, p) in n ==> n1[Origin(src, dst, p)] == n[Origin(src, dst, p)])
  {
    var n1 := WithDirectory(n, dst);
    OriginParent(src, dst, p);
    var q := Origin(src, dst, p);
    var c := src + [p[|dst|]];
    assert c <= q by {
      assert q[..|c|] == c;
    }
    CreatedDestination(n, src, dst, recursive, q);
    CreatedDestination(n, src, dst, recursive, c);
    if q in n1 && c < q {
      AncestorIsDirectory(n1, c, q);
    }
    if !recursive && q in n && |q| == |src| + 1 {
      assert q == c;
    }
  }

  /** `CopyFinished` at one path. */
  lemma CopyFinishedAt(n: Nodes, src: Path, dst: Path, recursive: bool, p: Path)
    requires CopyAllowed(n, src, dst, recursive)
    ensures var n1 := WithDirectory(n, dst);
      var lhs := n1 + Below(n1, src, dst, Visited(n1, src, recursive));
      var rhs := Copied(n, src, dst, recursive);
      (p in lhs <==> p in rhs) && (p in lhs ==> lhs[p] == rhs[p])
  {
    CopiedAt(n, src, dst, recursive, p);
    CreatedDestination(n, src, dst, recursive, p);
    if dst < p {
      CopyFinishedBelow(n, src, dst, recursive, p);
    } else if p == dst {
      assert Origin(src, dst, p) == src;
    }
  }

  /**
   * Once every visited name has been copied, the disk is the one
   * `CopyToResult` promises.
   */
  lemma CopyFinished(n: Nodes, src: Path, dst: Path, recursive: bool)
    requires CopyAllowed(n, src, dst, recursive)
    ensures var n1 := WithDirectory(n, dst);
      n1 + Below(n1, src, dst, Visited(n1, src, recursive)) == Copied(n, src, dst, recursive)
  {
    var n1 := WithDirectory(n, dst);
    forall p
      ensures var lhs := n1 + Below(n1, src, dst, Visited(n1, src, recursive));
        (p in lhs <==> p in Copied(n, src, dst, recursive))
        && (p in lhs ==> lhs[p] == Copied(n, src, dst, recursive)[p])
    {
      CopyFinishedAt(n, src, dst, recursive, p);
    }
    SameNodes(n1 + Below(n1, src, dst, Visited(n1, src, recursive)), Copied(n, src, dst, recursive));
  }

  /** Before anything is copied into `dst`, the disk is the one `CreateDirectory` left. */
  lemma NothingCopiedYet(n: Nodes, src: Path, dst: Path)
    ensures n + Below(n, src, dst, {}) == n
  {
    SameNodes(n + Below(n, src, dst, {}), n);
  }

  // ----- the extension methods -----

  /**
   * `CopyTo(this IDirectoryInfo info, IDirectoryInfo destDirectory, bool recursive)`:
   * copies the directory `info` to `destDirectory`, which must not exist yet.
   * The subdirectories, when `recursive`, and then the files are visited in
   * whatever order the enumerations produce; the resulting disk does not
   * depend on it.
   */
  method CopyTo(info: FileSystemInfo, destDirectory: FileSystemInfo, recursive: bool)
    returns (r: Result<FileSystemInfo, Error>)
    requires info.fs == destDirectory.fs && info.fs.Valid()
    requires info.kind == DirectoryKind && destDirectory.kind == DirectoryKind
    requires recursive && info.path < destDirectory.path ==>
      CopyToResult(info.fs.nodes, info.path, destDirectory.path, true).Failure?
    modifies info.fs, info, destDirectory
    ensures info.fs.Valid()
    ensures info.fs.currentDirectory == old(info.fs.currentDirectory) && info.fs.tempPath == old(info.fs.tempPath)
    ensures var res := CopyToResult(old(info.fs.nodes), info.path, destDirectory.path, recursive);
      && (res.Failure? ==> r == Failure(res.error) && info.fs.nodes == old(info.fs.nodes))
      && (res.Success? ==> r == Success(destDirectory) && info.fs.nodes == res.value && destDirectory.cache == Some(true))
    ensures info.cache == Some(IsDirectory(old(info.fs.nodes), info.path))
    ensures IsDirectory(old(info.fs.nodes), info.path) && CopyToResult(old(info.fs.nodes), info.path, destDirectory.path, recursive).Failure? ==>
      destDirectory.cache == Some(IsDirectory(old(info.fs.nodes), destDirectory.path))
    ensures !IsDirectory(old(info.fs.nodes), info.path) && info != destDirectory ==>
      destDirectory.cache == old(destDirectory.cache)
    decreases |Subtree(info.fs.nodes, info.path)|, 1
  {
    var fs := info.fs;
    ghost var n := fs.nodes;
    var src, dst := info.path, destDirectory.path;
    info.Refresh();
    var sourceExists := info.GetExists();
    if !sourceExists {
      return Failure(SourceDirectoryNotFound(src));
    }
    destDirectory.Refresh();
    var destinationExists := destDirectory.GetExists();
    if destinationExists {
      return Failure(DirectoryAlreadyExists(dst));
    }
    var created := fs.CreateDirectory(dst);
    if created.Fail? {
      return Failure(created.error);
    }
    ghost var n1 := fs.nodes;
    NothingCopiedYet(n1, src, dst);
    ghost var dirs: set<string> := {};
    if recursive {
      CopySubdirectories(fs, src, dst, n);
      dirs := DirectoryNames(n1, src);
    }
    CopyFiles(fs, src, dst, recursive, n, dirs);
    CopyFinished(n, src, dst, recursive);
    CopyCreatesDestination(n, src, dst, recursive);
    destDirectory.Refresh();
    r := Success(destDirectory);
  }

  /**
   * The first loop of `CopyTo`: each subdirectory of `src` is copied,
   * recursively, to the entry of the same name in `dst`. `n` is the disk
   * before `dst` was created.
   */
  method CopySubdirectories(fs: FileSystem, src: Path, dst: Path, ghost n: Nodes)
    requires fs.Valid() && CopyAllowed(n, src, dst, true) && fs.nodes == WithDirectory(n, dst)
    modifies fs
    ensures fs.Valid() && fs.currentDirectory == old(fs.currentDirectory) && fs.tempPath == old(fs.tempPath)
    ensures var n1 := WithDirectory(n, dst);
      fs.nodes == n1 + Below(n1, src, dst, DirectoryNames(n1, src))
    decreases |Subtree(n, src)|, 0
  {
    ghost var n1 := fs.nodes;
    NothingCopiedYet(n1, src, dst);
    var dirs := fs.EnumerateDirectories(src);
    for i := 0 to |dirs|
      invariant fs.Valid() && fs.currentDirectory == old(fs.currentDirectory) && fs.tempPath == old(fs.tempPath)
      invariant fs.nodes == n1 + Below(n1, src, dst, Elements(dirs[..i]))
    {
      var directoryInfo := new FileSystemInfo(fs, src + [dirs[i]], DirectoryKind);
      var newDestDirectory := new FileSystemInfo(fs, dst + [dirs[i]], DirectoryKind);
      DirectoryStep(n, src, dst, dirs, i);
      var _ := CopyTo(directoryInfo, newDestDirectory, true);
    }
    assert dirs[..|dirs|] == dirs;
  }

  /**
   * The second loop of `CopyTo`: each file directly inside `src` is copied
   * with `File.Copy` to the entry of the same name in `dst`, after the
   * subdirectories `dirs` were.
   */
  method CopyFiles(fs: FileSystem, src: Path, dst: Path, recursive: bool, ghost n: Nodes, ghost dirs: set<string>)
    requires fs.Valid() && CopyAllowed(n, src, dst, recursive)
    requires dirs == if recursive then DirectoryNames(WithDirectory(n, dst), src) else {}
    requires fs.nodes == WithDirectory(n, dst) + Below(WithDirectory(n, dst), src, dst, dirs)
    modifies fs
    ensures fs.Valid() && fs.currentDirectory == old(fs.currentDirectory) && fs.tempPath == old(fs.tempPath)
    ensures var n1 := WithDirectory(n, dst);
      fs.nodes == n1 + Below(n1, src, dst, Visited(n1, src, recursive))
  {
    ghost var n1 := WithDirectory(n, dst);
    FilesStart(n, src, dst, recursive, dirs);
    var files := fs.EnumerateFiles(src);
    for i := 0 to |files|
      invariant fs.Valid() && fs.currentDirectory == old(fs.currentDirectory) && fs.tempPath == old(fs.tempPath)
      invariant fs.nodes == n1 + Below(n1, src, dst, dirs + Elements(files[..i]))
    {
      FileStepIn(n, src, dst, recursive, dirs, files, i);
      var _ := fs.CopyFile(src + [files[i]], dst + [files[i]]);
    }
    FilesVisited(n, src, dst, recursive, dirs, files);
  }

  /**
   * `CopyTo(this IDirectoryInfo info, string destDirectoryName, bool recursive)`:
   * the same copy, to a handle made for the destination path.
   */
  method CopyToPath(info: FileSystemInfo, destDirectoryName: Path, recursive: bool)
    returns (r: Result<FileSystemInfo, Error>)
    requires info.fs.Valid() && info.kind == DirectoryKind
    requires recursive && info.path < destDirectoryName ==>
      CopyToResult(info.fs.nodes, info.path, destDirectoryName, true).Failure?
    modifies info.fs, info
    ensures info.fs.Valid()
    ensures info.fs.currentDirectory == old(info.fs.currentDirectory) && info.fs.tempPath == old(info.fs.tempPath)
    ensures var res := CopyToResult(old(info.fs.nodes), info.path, destDirectoryName, recursive);
      && (res.Failure? ==> r == Failure(res.error) && info.fs.nodes == old(info.fs.nodes))
      && (res.Success? ==> && r.Success? && fresh(r.value) && info.fs.nodes == res.value
                           && r.value.fs == info.fs && r.value.path == destDirectoryName
                           && r.value.kind == DirectoryKind && r.value.cache == Some(true))
    ensures info.cache == Some(IsDirectory(old(info.fs.nodes), info.path))
  {
    var dest := new FileSystemInfo(info.fs, destDirectoryName, DirectoryKind);
    r := CopyTo(info, dest, recursive);
  }

  /** `File(this IDirectoryInfo info, string name)`: a file handle for the entry `name` inside `info`. */
  method File(info: FileSystemInfo, name: string) returns (f: FileSystemInfo)
    ensures fresh(f) && f.fs == info.fs && f.path == info.path + [name] && f.kind == FileKind
    ensures f.cache == None && (f.Exists() <==> IsFile(info.fs.nodes, info.path + [name]))
  {
    f := new FileSystemInfo(info.fs, info.path + [name], FileKind);
  }

  /** `SubDirectory(this IDirectoryInfo info, string name)`: a directory handle for the entry `name` inside `info`. */
  method SubDirectory(info: FileSystemInfo, name: string) returns (d: FileSystemInfo)
    ensures fresh(d) && d.fs == info.fs && d.path == info.path + [name] && d.kind == DirectoryKind
    ensures d.cache == None && (d.Exists() <==> IsDirectory(info.fs.nodes, info.path + [name]))
  {
    d := new FileSystemInfo(info.fs, info.path + [name], DirectoryKind);
  }
}
