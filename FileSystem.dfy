/**
 * The file-system abstraction the extension methods are written against
 * (`IFileSystem`, `IDirectoryInfo`, `IFileInfo`). Its implementation is not
 * part of this model; the operations below follow the documented .NET
 * behaviour of the calls the extensions make.
 *
 * A path is the sequence of its segments. `Path.Combine(dir, name)` for the
 * simple entry name of a child is `dir + [name]`. A file's contents are its
 * lines of text.
 */
module FileSystem {
  import opened Wrappers

  type Path = seq<string>

  datatype Node = Dir | File(lines: seq<string>)

  /** What is on disk: every existing entry and what it is. */
  type Nodes = map<Path, Node>

  /** `IDirectoryInfo` or `IFileInfo`: decides what `Exists` and `Delete()` mean for a handle. */
  datatype Kind = DirectoryKind | FileKind

  /** The exceptions the modelled code throws or lets through. */
  datatype Error =
    | SourceDirectoryNotFound(path: Path) // DirectoryNotFoundException "Source directory not found: '<path>'"
    | DirectoryAlreadyExists(path: Path)  // IOException "The directory '<path>' already exists."
    | CannotOverwrite(path: Path)         // IOException naming a file that must not be overwritten
    | DirectoryNotFound(path: Path)       // DirectoryNotFoundException from the file system
    | FileNotFound(path: Path)            // FileNotFoundException
    | PathInUse(path: Path)               // IOException: an entry is already at the path
    | DirectoryNotEmpty(path: Path)       // IOException from a non-recursive directory delete
    | AccessDenied(path: Path)            // UnauthorizedAccessException
    | ArgumentNull(paramName: string)     // ArgumentNullException
    | ArgumentError(message: string, paramName: string, data: map<string, Path>) // ArgumentException
    | InvalidOperation                    // InvalidOperationException
    | NullReference                       // NullReferenceException

  function Parent(p: Path): Path
    requires p != []
  {
    p[..|p| - 1]
  }

  predicate IsDirectory(n: Nodes, p: Path) {
    p in n && n[p].Dir?
  }

  predicate IsFile(n: Nodes, p: Path) {
    p in n && n[p].File?
  }

  /** `Exists` of a handle of the given kind, read from the disk. */
  predicate ExistsAs(n: Nodes, p: Path, kind: Kind) {
    if kind == DirectoryKind then IsDirectory(n, p) else IsFile(n, p)
  }

  /** The root is a directory and every other entry lies in a directory. */
  ghost predicate WellFormed(n: Nodes) {
    && IsDirectory(n, [])
    && forall p {:trigger Parent(p)} | p in n && p != [] :: IsDirectory(n, Parent(p))
  }

  /** Every proper ancestor of an existing entry is an existing directory. */
  lemma {:induction false} AncestorIsDirectory(n: Nodes, p: Path, q: Path)
    requires WellFormed(n) && q in n && p < q
    ensures IsDirectory(n, p)
    decreases |q|
  {
    var r := Parent(q);
    if p != r {
      assert p < r by {
        assert |p| < |r|;
        assert r[..|p|] == q[..|p|];
      }
      AncestorIsDirectory(n, p, r);
    }
  }

  /** Nothing lies below an entry that does not exist or is a file. */
  lemma NothingBelow(n: Nodes, p: Path, q: Path)
    requires WellFormed(n) && !IsDirectory(n, p) && p < q
    ensures q !in n
  {
    if q in n {
      AncestorIsDirectory(n, p, q);
    }
  }

  /** Whether some entry lies below `p`. */
  predicate HasEntriesBelow(n: Nodes, p: Path) {
    exists q | q in n :: p < q
  }

  // ----- Directory.CreateDirectory -----

  /** `p` and all its ancestors. */
  function Prefixes(p: Path): (r: set<Path>)
    ensures forall q :: q in r <==> q <= p
  {
    var r := set i | 0 <= i <= |p| :: p[..i];
    assert forall q | q <= p :: q == p[..|q|];
    r
  }

  /** No prefix of `p` is a file, so that the directory `p` can be created. */
  predicate CanCreateDirectory(n: Nodes, p: Path) {
    forall i | 0 <= i <= |p| :: !IsFile(n, p[..i])
  }

  /** The disk after `p` and every missing ancestor of it became directories. */
  function WithDirectory(n: Nodes, p: Path): (r: Nodes)
    ensures forall q :: q in r <==> q in n || q <= p
    ensures forall q | q in n :: r[q] == n[q]
    ensures forall q | q in r && q !in n :: r[q] == Dir
  {
    map q | q in n.Keys + Prefixes(p) :: if q in n then n[q] else Dir
  }

  lemma WithDirectoryWellFormed(n: Nodes, p: Path)
    requires WellFormed(n) && CanCreateDirectory(n, p)
    ensures WellFormed(WithDirectory(n, p)) && IsDirectory(WithDirectory(n, p), p)
  {
    var r := WithDirectory(n, p);
    forall q | q <= p
      ensures IsDirectory(r, q)
    {
      assert q == p[..|q|];
    }
    forall q | q in r && q != []
      ensures IsDirectory(r, Parent(q))
    {
      if q in n {
        assert IsDirectory(n, Parent(q));
      } else {
        assert Parent(q) <= p;
      }
    }
  }

  // ----- deletion -----

  /** The disk without `p` and everything below it. */
  function WithoutTree(n: Nodes, p: Path): (r: Nodes)
    ensures forall q :: q in r <==> q in n && !(p <= q)
    ensures forall q | q in r :: r[q] == n[q]
  {
    map q | q in n && !(p <= q) :: n[q]
  }

  lemma WithoutTreeWellFormed(n: Nodes, p: Path)
    requires WellFormed(n) && p != []
    ensures WellFormed(WithoutTree(n, p))
  {
    var r := WithoutTree(n, p);
    forall q | q in r && q != []
      ensures IsDirectory(r, Parent(q))
    {
      assert IsDirectory(n, Parent(q));
    }
  }

  /** `IFileInfo.Delete()`: deleting a missing file is not an error. */
  function DeleteFileResult(n: Nodes, p: Path): Result<Nodes, Error> {
    if IsDirectory(n, p) then Failure(AccessDenied(p))
    else if p == [] || !IsDirectory(n, Parent(p)) then Failure(DirectoryNotFound(p))
    else if IsFile(n, p) then Success(WithoutTree(n, p))
    else Success(n)
  }

  /** `IDirectoryInfo.Delete(recursive)`. */
  function DeleteDirectoryResult(n: Nodes, p: Path, recursive: bool): Result<Nodes, Error> {
    if !IsDirectory(n, p) then Failure(DirectoryNotFound(p))
    else if p == [] then Failure(AccessDenied(p))
    else if !recursive && HasEntriesBelow(n, p) then Failure(DirectoryNotEmpty(p))
    else Success(WithoutTree(n, p))
  }

  // ----- files -----

  /** A file may be opened for writing at `p`: it is not a directory and its parent is one. */
  predicate CanWriteFile(n: Nodes, p: Path) {
    !IsDirectory(n, p) && p != [] && IsDirectory(n, Parent(p))
  }

  function WriteFailure(n: Nodes, p: Path): Error {
    if IsDirectory(n, p) then AccessDenied(p) else DirectoryNotFound(p)
  }

  /** The disk with `node` written at a path whose parent is a directory. */
  lemma WriteWellFormed(n: Nodes, p: Path, node: Node)
    requires WellFormed(n) && CanWriteFile(n, p) && (node.Dir? ==> !IsFile(n, p))
    ensures WellFormed(n[p := node])
  {
    forall q | q in n[p := node] && q != []
      ensures IsDirectory(n[p := node], Parent(q))
    {
      if q != p {
        assert IsDirectory(n, Parent(q));
        if Parent(q) == p {
          NothingBelow(n, p, q);
        }
      }
    }
  }

  /** Reading the file `p` line by line: its lines, or why it cannot be opened. */
  function ReadLinesResult(n: Nodes, p: Path): Result<seq<string>, Error> {
    if IsFile(n, p) then Success(n[p].lines)
    else if IsDirectory(n, p) then Failure(AccessDenied(p))
    else if p == [] || !IsDirectory(n, Parent(p)) then Failure(DirectoryNotFound(p))
    else Failure(FileNotFound(p))
  }

  /** `File.Copy(from, to)` without overwriting. */
  function CopyFileResult(n: Nodes, from: Path, to: Path): Result<Nodes, Error> {
    if !IsFile(n, from) then Failure(FileNotFound(from))
    else if to in n then Failure(PathInUse(to))
    else if to == [] || !IsDirectory(n, Parent(to)) then Failure(DirectoryNotFound(to))
    else Success(n[to := n[from]])
  }

  /** The entry names directly inside `p` that are directories. */
  function DirectoryNames(n: Nodes, p: Path): (r: set<string>)
    ensures forall name :: name in r <==> IsDirectory(n, p + [name])
  {
    var r := set q | q in n && |q| == |p| + 1 && p <= q && n[q].Dir? :: q[|p|];
    assert forall q | |q| == |p| + 1 && p <= q :: q == p + [q[|p|]];
    assert forall name :: (p + [name])[|p|] == name;
    r
  }

  /** The entry names directly inside `p` that are files. */
  function FileNames(n: Nodes, p: Path): (r: set<string>)
    ensures forall name :: name in r <==> IsFile(n, p + [name])
  {
    var r := set q | q in n && |q| == |p| + 1 && p <= q && n[q].File? :: q[|p|];
    assert forall q | |q| == |p| + 1 && p <= q :: q == p + [q[|p|]];
    assert forall name :: (p + [name])[|p|] == name;
    r
  }

  /** No name occurs twice. */
  ghost predicate Distinct(s: seq<string>) {
    forall i, j | 0 <= i < j < |s| :: s[i] != s[j]
  }

  /** The names of a listing, as a set. */
  ghost function Elements(s: seq<string>): set<string> {
    if s == [] then {} else Elements(s[..|s| - 1]) + {s[|s| - 1]}
  }

  lemma {:induction false} ElementsMembership(s: seq<string>, x: string)
    ensures x in Elements(s) <==> x in s
    decreases |s|
  {
    if s != [] {
      ElementsMembership(s[..|s| - 1], x);
      assert s == s[..|s| - 1] + [s[|s| - 1]];
    }
  }

  /** Listing one name more adds it to the set of names; it was not there yet if the listing is distinct. */
  lemma NextElement(s: seq<string>, i: nat)
    requires i < |s| && Distinct(s)
    ensures Elements(s[..i + 1]) == Elements(s[..i]) + {s[i]}
    ensures s[i] !in Elements(s[..i])
  {
    assert s[..i + 1][..i] == s[..i];
    ElementsMembership(s[..i], s[i]);
  }

  /** The names of a set, listed once each in some order, as `Directory.EnumerateFileSystemEntries` does. */
  method Listing(names: set<string>) returns (s: seq<string>)
    ensures Distinct(s) && Elements(s) == names
  {
    s := [];
    var rest := names;
    while rest != {}
      invariant Distinct(s) && Elements(s) + rest == names && Elements(s) !! rest
      decreases |rest|
    {
      var x :| x in rest;
      ElementsMembership(s, x);
      assert (s + [x])[..|s|] == s;
      s := s + [x];
      rest := rest - {x};
    }
  }

  /** The disk, as reached through `IFileSystem`. */
  class FileSystem {
    var nodes: Nodes
    /** `Directory.GetCurrentDirectory()`. */
    var currentDirectory: Path
    /** `Path.GetTempPath()`. */
    var tempPath: Path

    ghost predicate Valid()
      reads this
    {
      WellFormed(nodes)
    }

    /** `Directory.CreateDirectory(p)`: creates `p` and its missing ancestors. */
    method CreateDirectory(p: Path) returns (o: Outcome<Error>)
      requires Valid()
      modifies this
      ensures Valid() && unchanged(this`currentDirectory, this`tempPath)
      ensures o == if CanCreateDirectory(old(nodes), p) then Pass else Fail(PathInUse(p))
      ensures nodes == if o.Pass? then WithDirectory(old(nodes), p) else old(nodes)
      ensures o.Pass? ==> IsDirectory(nodes, p)
    {
      if CanCreateDirectory(nodes, p) {
        WithDirectoryWellFormed(nodes, p);
        nodes := WithDirectory(nodes, p);
        o := Pass;
      } else {
        o := Fail(PathInUse(p));
      }
    }

    method Delete(p: Path, kind: Kind, recursive: bool) returns (o: Outcome<Error>)
      requires Valid()
      modifies this
      ensures Valid() && unchanged(this`currentDirectory, this`tempPath)
      ensures var res := if kind == DirectoryKind then DeleteDirectoryResult(old(nodes), p, recursive)
                         else DeleteFileResult(old(nodes), p);
              && (res.Failure? ==> o == Fail(res.error) && nodes == old(nodes))
              && (res.Success? ==> o == Pass && nodes == res.value)
    {
      var res := if kind == DirectoryKind then DeleteDirectoryResult(nodes, p, recursive) else DeleteFileResult(nodes, p);
      if res.Failure? {
        o := Fail(res.error);
      } else {
        WithoutTreeWellFormed(nodes, p);
        nodes := res.value;
        o := Pass;
      }
    }

    /** `File.Copy(from, to)`: fails when `to` exists. */
    method CopyFile(from: Path, to: Path) returns (o: Outcome<Error>)
      requires Valid()
      modifies this
      ensures Valid() && unchanged(this`currentDirectory, this`tempPath)
      ensures var res := CopyFileResult(old(nodes), from, to);
              && (res.Failure? ==> o == Fail(res.error) && nodes == old(nodes))
              && (res.Success? ==> o == Pass && nodes == res.value)
    {
      var res := CopyFileResult(nodes, from, to);
      if res.Failure? {
        o := Fail(res.error);
      } else {
        WriteWellFormed(nodes, to, nodes[from]);
        nodes := res.value;
        o := Pass;
      }
    }

    /** Opening a stream with `FileMode.Create`: creates the file or truncates it. */
    method OpenCreate(p: Path) returns (o: Outcome<Error>)
      requires Valid()
      modifies this
      ensures Valid() && unchanged(this`currentDirectory, this`tempPath)
      ensures o == if CanWriteFile(old(nodes), p) then Pass else Fail(WriteFailure(old(nodes), p))
      ensures nodes == if o.Pass? then old(nodes)[p := File([])] else old(nodes)
    {
      if CanWriteFile(nodes, p) {
        WriteWellFormed(nodes, p, File([]));
        nodes := nodes[p := File([])];
        o := Pass;
      } else {
        o := Fail(WriteFailure(nodes, p));
      }
    }

    /** `File.AppendText(p)`: opens the file for appending, creating it when missing. */
    method OpenAppend(p: Path) returns (o: Outcome<Error>)
      requires Valid()
      modifies this
      ensures Valid() && unchanged(this`currentDirectory, this`tempPath)
      ensures o == if CanWriteFile(old(nodes), p) then Pass else Fail(WriteFailure(old(nodes), p))
      ensures nodes == if o.Pass? && !IsFile(old(nodes), p) then old(nodes)[p := File([])] else old(nodes)
    {
      if CanWriteFile(nodes, p) {
        if !IsFile(nodes, p) {
          WriteWellFormed(nodes, p, File([]));
          nodes := nodes[p := File([])];
        }
        o := Pass;
      } else {
        o := Fail(WriteFailure(nodes, p));
      }
    }

    /** `StreamWriter.WriteLine(line)` on a stream open on the file `p`. */
    method WriteLine(p: Path, line: string)
      requires Valid() && IsFile(nodes, p)
      modifies this
      ensures Valid() && unchanged(this`currentDirectory, this`tempPath)
      ensures nodes == old(nodes)[p := File(old(nodes)[p].lines + [line])]
    {
      WriteWellFormed(nodes, p, File(nodes[p].lines + [line]));
      nodes := nodes[p := File(nodes[p].lines + [line])];
    }

    /** `IFileInfo.OpenRead()` with a `StreamReader`: the lines the reader will return. */
    method OpenRead(p: Path) returns (r: Result<seq<string>, Error>)
      ensures r == ReadLinesResult(nodes, p)
    {
      if IsFile(nodes, p) {
        r := Success(nodes[p].lines);
      } else if IsDirectory(nodes, p) {
        r := Failure(AccessDenied(p));
      } else if p == [] || !IsDirectory(nodes, Parent(p)) {
        r := Failure(DirectoryNotFound(p));
      } else {
        r := Failure(FileNotFound(p));
      }
    }

    /** `EnumerateDirectories()` of the existing directory `p`: the names, in no particular order. */
    method EnumerateDirectories(p: Path) returns (names: seq<string>)
      requires IsDirectory(nodes, p)
      ensures Distinct(names) && Elements(names) == DirectoryNames(nodes, p)
    {
      names := Listing(DirectoryNames(nodes, p));
    }

    /** `EnumerateFiles()` of the existing directory `p`: the names, in no particular order. */
    method EnumerateFiles(p: Path) returns (names: seq<string>)
      requires IsDirectory(nodes, p)
      ensures Distinct(names) && Elements(names) == FileNames(nodes, p)
    {
      names := Listing(FileNames(nodes, p));
    }
  }

  /**
   * An `IDirectoryInfo` (kind `DirectoryKind`) or `IFileInfo` (kind
   * `FileKind`): a path on a file system and the attributes cached from the
   * disk. The cache is filled the first time `Exists` is read and afterwards
   * only `Refresh` brings it up to date.
   */
  class FileSystemInfo {
    const fs: FileSystem
    const path: Path
    const kind: Kind
    /** The cached answer of `Exists`; `None` until it is first read. */
    var cache: Option<bool>

    /** `DirectoryInfo.New(path)` / `FileInfo.New(path)`: nothing is read from the disk yet. */
    constructor (fs: FileSystem, path: Path, kind: Kind)
      ensures this.fs == fs && this.path == path && this.kind == kind && cache == None
    {
      this.fs := fs;
      this.path := path;
      this.kind := kind;
      cache := None;
    }

    /** What reading `Exists` now answers. */
    function Exists(): bool
      reads this, fs
    {
      if cache.Some? then cache.value else ExistsAs(fs.nodes, path, kind)
    }

    /** Reading `Exists`: the first read fills the cache from the disk. */
    method GetExists() returns (b: bool)
      modifies this
      ensures b == old(Exists()) && cache == Some(b)
    {
      if cache.None? {
        cache := Some(ExistsAs(fs.nodes, path, kind));
      }
      b := cache.value;
    }

    /** `Refresh()`: reloads the cache from the disk. */
    method Refresh()
      modifies this
      ensures cache == Some(ExistsAs(fs.nodes, path, kind))
    {
      cache := Some(ExistsAs(fs.nodes, path, kind));
    }

    /** `Delete()`: a file, or an empty directory. The cache is left as it was. */
    method Delete() returns (o: Outcome<Error>)
      requires fs.Valid()
      modifies fs
      ensures fs.Valid() && unchanged(fs`currentDirectory, fs`tempPath)
      ensures var res := if kind == DirectoryKind then DeleteDirectoryResult(old(fs.nodes), path, false)
                         else DeleteFileResult(old(fs.nodes), path);
              && (res.Failure? ==> o == Fail(res.error) && fs.nodes == old(fs.nodes))
              && (res.Success? ==> o == Pass && fs.nodes == res.value)
    {
      o := fs.Delete(path, kind, false);
    }

    /** `IDirectoryInfo.Delete(recursive: true)`. The cache is left as it was. */
    method DeleteRecursive() returns (o: Outcome<Error>)
      requires fs.Valid() && kind == DirectoryKind
      modifies fs
      ensures fs.Valid() && unchanged(fs`currentDirectory, fs`tempPath)
      ensures var res := DeleteDirectoryResult(old(fs.nodes), path, true);
              && (res.Failure? ==> o == Fail(res.error) && fs.nodes == old(fs.nodes))
              && (res.Success? ==> o == Pass && fs.nodes == res.value)
    {
      o := fs.Delete(path, kind, true);
    }

    /** `IDirectoryInfo.Create()`. The cache is left as it was. */
    method Create() returns (o: Outcome<Error>)
      requires fs.Valid() && kind == DirectoryKind
      modifies fs
      ensures fs.Valid() && unchanged(fs`currentDirectory, fs`tempPath)
      ensures o == if CanCreateDirectory(old(fs.nodes), path) then Pass else Fail(PathInUse(path))
      ensures fs.nodes == if o.Pass? then WithDirectory(old(fs.nodes), path) else old(fs.nodes)
      ensures o.Pass? ==> IsDirectory(fs.nodes, path)
    {
      o := fs.CreateDirectory(path);
    }
  }
}
