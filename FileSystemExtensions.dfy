/**
 * `IFileSystemExtensions`: the current directory as a handle, and the
 * creation of a directory that is deleted again, with everything in it,
 * when its `DisposableDirectory` is disposed.
 */
module FileSystemExtensions {
  import opened Wrappers
  import opened FileSystem
  import opened Disposable

  /**
   * What `CreateDisposableDirectory(path, out directoryInfo)` does to the
   * disk, or what it throws: an existing directory is refused with an
   * `ArgumentException` for the parameter `path` that carries the path in
   * its data rather than its message; otherwise the directory is created
   * with its missing ancestors, which fails when a file is in the way.
   */
  function CreateDisposableDirectoryResult(n: Nodes, path: Path): Result<Nodes, Error> {
    if IsDirectory(n, path) then Failure(ArgumentError("Directory already exists", "path", map["path" := path]))
    else if !CanCreateDirectory(n, path) then Failure(PathInUse(path))
    else Success(WithDirectory(n, path))
  }

  /**
   * The directory is refused exactly when it already exists; when it is
   * created, it exists afterwards, nothing that was on disk changes, and the
   * only entries added are the directory and its missing ancestors.
   */
  lemma CreateDisposableDirectoryOutcome(n: Nodes, path: Path)
    requires WellFormed(n)
    ensures (CreateDisposableDirectoryResult(n, path).Failure?
               && CreateDisposableDirectoryResult(n, path).error.ArgumentError?) <==> IsDirectory(n, path)
    ensures IsDirectory(n, path) ==>
              CreateDisposableDirectoryResult(n, path).error.data == map["path" := path]
    ensures var r := CreateDisposableDirectoryResult(n, path);
      r.Success? ==>
        && WellFormed(r.value) && IsDirectory(r.value, path) && path !in n
        && (forall q | q in n :: q in r.value && r.value[q] == n[q])
        && (forall q | q in r.value && q !in n :: q <= path)
  {
    var r := CreateDisposableDirectoryResult(n, path);
    if r.Success? {
      WithDirectoryWellFormed(n, path);
      assert !IsFile(n, path[..|path|]);
    }
  }

  /**
   * Disposing the directory right after creating it deletes it again: the
   * disk is as it was, except for ancestors that had to be created on the
   * way, which stay; when the parent existed, the disk is exactly as before.
   */
  lemma CreateThenDisposeRestores(n: Nodes, path: Path)
    requires WellFormed(n) && path != [] && CreateDisposableDirectoryResult(n, path).Success?
    ensures var m := CreateDisposableDirectoryResult(n, path).value;
      var d := DeletionResult(RecursiveDelete, DirectoryKind, m, path);
      && d.Success?
      && (forall q :: q in d.value <==> q in n || q < path)
      && (forall q | q in n :: d.value[q] == n[q])
      && (IsDirectory(n, Parent(path)) ==> d.value == n)
  {
    var m := CreateDisposableDirectoryResult(n, path).value;
    CreateDisposableDirectoryOutcome(n, path);
    var d := DeletionResult(RecursiveDelete, DirectoryKind, m, path);
    assert d == Success(WithoutTree(m, path));
    forall q | q in n
      ensures !(path <= q)
    {
      if path < q {
        NothingBelow(n, path, q);
      } else {
        assert q != path;
      }
    }
    if IsDirectory(n, Parent(path)) {
      forall q | q < path
        ensures q in n
      {
        if q != Parent(path) {
          assert q < Parent(path) by {
            assert q == path[..|q|];
          }
          AncestorIsDirectory(n, q, Parent(path));
        }
      }
      assert forall q :: q in d.value <==> q in n;
    }
  }

  /** `CurrentDirectory()`: a fresh directory handle on `Directory.GetCurrentDirectory()`. */
  method CurrentDirectory(fs: FileSystem) returns (directoryInfo: FileSystemInfo)
    ensures fresh(directoryInfo)
    ensures directoryInfo.fs == fs && directoryInfo.path == fs.currentDirectory && directoryInfo.kind == DirectoryKind
    ensures directoryInfo.cache == None && (directoryInfo.Exists() <==> IsDirectory(fs.nodes, fs.currentDirectory))
  {
    directoryInfo := new FileSystemInfo(fs, fs.currentDirectory, DirectoryKind);
  }

  /**
   * `CreateDisposableDirectory(path, out directoryInfo)`. `directoryInfo` is
   * the handle on `path` in every outcome; its `Exists` was read before the
   * creation and refreshed after it.
   */
  method CreateDisposableDirectoryAt(fs: FileSystem, path: Path)
    returns (r: Result<DisposableFileSystemInfo, Error>, directoryInfo: FileSystemInfo)
    requires fs.Valid()
    modifies fs
    ensures fs.Valid() && unchanged(fs`currentDirectory, fs`tempPath)
    ensures fresh(directoryInfo) && directoryInfo.fs == fs && directoryInfo.path == path && directoryInfo.kind == DirectoryKind
    ensures var res := CreateDisposableDirectoryResult(old(fs.nodes), path);
      && (res.Failure? ==>
            && r == Failure(res.error) && fs.nodes == old(fs.nodes)
            && directoryInfo.cache == Some(IsDirectory(old(fs.nodes), path)))
      && (res.Success? ==>
            && r.Success? && fresh(r.value) && r.value.Valid()
            && r.value.fileSystemInfo == directoryInfo && r.value.deletion == RecursiveDelete && !r.value.isDisposed
            && fs.nodes == res.value && directoryInfo.cache == Some(true))
  {
    directoryInfo := new FileSystemInfo(fs, path, DirectoryKind);
    var alreadyExists := directoryInfo.GetExists();
    if alreadyExists {
      r := Failure(ArgumentError("Directory already exists", "path", map["path" := path]));
      return;
    }
    var o := directoryInfo.Create();
    if o.Fail? {
      r := Failure(o.error);
      return;
    }
    directoryInfo.Refresh();
    r := NewDisposableDirectory(directoryInfo);
  }

  /**
   * `CreateDisposableDirectory(out directoryInfo)`: the directory named
   * `randomFileName` (`Path.GetRandomFileName()`, a parameter here) in
   * `Path.GetTempPath()`.
   */
  method CreateDisposableDirectory(fs: FileSystem, randomFileName: string)
    returns (r: Result<DisposableFileSystemInfo, Error>, directoryInfo: FileSystemInfo)
    requires fs.Valid()
    modifies fs
    ensures fs.Valid() && unchanged(fs`currentDirectory, fs`tempPath)
    ensures fresh(directoryInfo) && directoryInfo.path == fs.tempPath + [randomFileName]
    ensures directoryInfo.fs == fs && directoryInfo.kind == DirectoryKind
    ensures var res := CreateDisposableDirectoryResult(old(fs.nodes), fs.tempPath + [randomFileName]);
      && (res.Failure? ==>
            && r == Failure(res.error) && fs.nodes == old(fs.nodes)
            && directoryInfo.cache == Some(IsDirectory(old(fs.nodes), directoryInfo.path)))
      && (res.Success? ==>
            && r.Success? && fresh(r.value) && r.value.Valid()
            && r.value.fileSystemInfo == directoryInfo && r.value.deletion == RecursiveDelete && !r.value.isDisposed
            && fs.nodes == res.value && directoryInfo.cache == Some(true))
  {
    var path := fs.tempPath + [randomFileName];
    r, directoryInfo := CreateDisposableDirectoryAt(fs, path);
  }
}
