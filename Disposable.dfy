/**
 * `DisposableFileSystemInfo<T>` and its subclasses `DisposableDirectory` and
 * `DisposableFile`: a wrapper that deletes the wrapped file-system entry the
 * first time it is disposed. The subclasses differ only in the deletion step,
 * which is the `deletion` field here: `DisposableDirectory` deletes
 * recursively, `DisposableFile` and the base class call the plain `Delete()`.
 */
module Disposable {
  import opened Wrappers
  import opened FileSystem

  /** Which `DeleteFileSystemInfo` runs. */
  datatype Deletion =
    | PlainDelete      // the base class: `fileSystemInfo.Delete()`
    | RecursiveDelete  // the `DisposableDirectory` override: `fileSystemInfo.Delete(recursive: true)`

  /** What `DeleteFileSystemInfo` does to the disk for the entry `p` of the given kind, or what it throws. */
  function DeletionResult(deletion: Deletion, kind: Kind, n: Nodes, p: Path): Result<Nodes, Error> {
    match deletion
    case PlainDelete =>
      if kind == DirectoryKind then DeleteDirectoryResult(n, p, false) else DeleteFileResult(n, p)
    case RecursiveDelete =>
      DeleteDirectoryResult(n, p, true)
  }

  /**
   * A deletion that completes leaves nothing at or below `p`, and every
   * other entry as it was; afterwards the handle's `Exists` reads false.
   */
  lemma DeletionRemovesTree(deletion: Deletion, kind: Kind, n: Nodes, p: Path)
    requires WellFormed(n) && DeletionResult(deletion, kind, n, p).Success?
    ensures var m := DeletionResult(deletion, kind, n, p).value;
      && WellFormed(m)
      && (forall q :: q in m <==> q in n && !(p <= q))
      && (forall q | q in m :: m[q] == n[q])
      && !ExistsAs(m, p, kind)
  {
    if deletion == PlainDelete && kind == FileKind && !IsFile(n, p) {
      assert !IsDirectory(n, p) && p !in n;
      forall q | p <= q
        ensures q !in n
      {
        if p < q {
          NothingBelow(n, p, q);
        } else {
          assert |q| == |p| && q == p;
        }
      }
    } else {
      WithoutTreeWellFormed(n, p);
    }
  }

  /** The recursive deletion removes an existing directory other than the root, whatever it contains. */
  lemma RecursiveDeletionSucceeds(n: Nodes, p: Path)
    requires IsDirectory(n, p) && p != []
    ensures DeletionResult(RecursiveDelete, DirectoryKind, n, p) == Success(WithoutTree(n, p))
  {
  }

  /** The plain deletion of a directory fails when something lies below it. */
  lemma PlainDeletionNeedsEmptyDirectory(n: Nodes, p: Path, q: Path)
    requires IsDirectory(n, p) && p != [] && p < q && q in n
    ensures DeletionResult(PlainDelete, DirectoryKind, n, p) == Failure(DirectoryNotEmpty(p))
  {
    assert HasEntriesBelow(n, p);
  }

  /** Deleting a file that is already gone is not an error and changes nothing. */
  lemma MissingFileDeletion(n: Nodes, p: Path)
    requires WellFormed(n) && p !in n && p != [] && IsDirectory(n, Parent(p))
    ensures DeletionResult(PlainDelete, FileKind, n, p) == Success(n)
  {
  }

  class DisposableFileSystemInfo {
    /** The wrapped `IFileSystemInfo` (`protected T fileSystemInfo`). */
    const fileSystemInfo: FileSystemInfo
    const deletion: Deletion
    var isDisposed: bool

    /** Only a directory is deleted recursively. */
    ghost predicate Valid() {
      deletion == RecursiveDelete ==> fileSystemInfo.kind == DirectoryKind
    }

    /** The constructor body once the null check has passed: the handle is refreshed. */
    constructor (fileSystemInfo: FileSystemInfo, deletion: Deletion)
      requires deletion == RecursiveDelete ==> fileSystemInfo.kind == DirectoryKind
      modifies fileSystemInfo
      ensures Valid() && this.fileSystemInfo == fileSystemInfo && this.deletion == deletion && !isDisposed
      ensures fileSystemInfo.cache == Some(ExistsAs(fileSystemInfo.fs.nodes, fileSystemInfo.path, fileSystemInfo.kind))
    {
      this.fileSystemInfo := fileSystemInfo;
      this.deletion := deletion;
      isDisposed := false;
      new;
      fileSystemInfo.Refresh();
    }

    /** `DeleteFileSystemInfo()`: the plain `Delete()`, or the recursive one of `DisposableDirectory`. */
    method DeleteFileSystemInfo() returns (o: Outcome<Error>)
      requires Valid() && fileSystemInfo.fs.Valid()
      modifies fileSystemInfo.fs
      ensures fileSystemInfo.fs.Valid()
      ensures unchanged(fileSystemInfo.fs`currentDirectory, fileSystemInfo.fs`tempPath)
      ensures var res := DeletionResult(deletion, fileSystemInfo.kind, old(fileSystemInfo.fs.nodes), fileSystemInfo.path);
        && (res.Failure? ==> o == Fail(res.error) && fileSystemInfo.fs.nodes == old(fileSystemInfo.fs.nodes))
        && (res.Success? ==> o == Pass && fileSystemInfo.fs.nodes == res.value)
    {
      if deletion == RecursiveDelete {
        o := fileSystemInfo.DeleteRecursive();
      } else {
        o := fileSystemInfo.Delete();
      }
    }

    /**
     * `Dispose(bool disposing)`. The first call with `disposing` deletes the
     * entry and refreshes the handle; if the deletion throws, the object
     * stays undisposed and the exception propagates. A call from a finalizer
     * (`!disposing`) only marks the object disposed. Once disposed, nothing
     * happens.
     */
    method DisposeCore(disposing: bool) returns (o: Outcome<Error>)
      requires Valid() && fileSystemInfo.fs.Valid()
      modifies this, fileSystemInfo, fileSystemInfo.fs
      ensures fileSystemInfo.fs.Valid()
      ensures unchanged(fileSystemInfo.fs`currentDirectory, fileSystemInfo.fs`tempPath)
      ensures old(isDisposed) || !disposing ==>
        && o == Pass && isDisposed
        && fileSystemInfo.fs.nodes == old(fileSystemInfo.fs.nodes)
        && fileSystemInfo.cache == old(fileSystemInfo.cache)
      ensures !old(isDisposed) && disposing ==>
        var res := DeletionResult(deletion, fileSystemInfo.kind, old(fileSystemInfo.fs.nodes), fileSystemInfo.path);
        && (res.Failure? ==> && o == Fail(res.error) && !isDisposed
                             && fileSystemInfo.fs.nodes == old(fileSystemInfo.fs.nodes)
                             && fileSystemInfo.cache == old(fileSystemInfo.cache))
        && (res.Success? ==> && o == Pass && isDisposed
                             && fileSystemInfo.fs.nodes == res.value
                             && fileSystemInfo.cache == Some(false))
    {
      if !isDisposed {
        if disposing {
          ghost var n := fileSystemInfo.fs.nodes;
          o := DeleteFileSystemInfo();
          if o.Fail? {
            return;
          }
          DeletionRemovesTree(deletion, fileSystemInfo.kind, n, fileSystemInfo.path);
          fileSystemInfo.Refresh();
        }
        isDisposed := true;
      }
      o := Pass;
    }

    /** `Dispose()`: `Dispose(disposing: true)`. */
    method Dispose() returns (o: Outcome<Error>)
      requires Valid() && fileSystemInfo.fs.Valid()
      modifies this, fileSystemInfo, fileSystemInfo.fs
      ensures fileSystemInfo.fs.Valid()
      ensures unchanged(fileSystemInfo.fs`currentDirectory, fileSystemInfo.fs`tempPath)
      ensures old(isDisposed) ==>
        && o == Pass && isDisposed
        && fileSystemInfo.fs.nodes == old(fileSystemInfo.fs.nodes)
        && fileSystemInfo.cache == old(fileSystemInfo.cache)
      ensures !old(isDisposed) ==>
        var res := DeletionResult(deletion, fileSystemInfo.kind, old(fileSystemInfo.fs.nodes), fileSystemInfo.path);
        && (res.Failure? ==> && o == Fail(res.error) && !isDisposed
                             && fileSystemInfo.fs.nodes == old(fileSystemInfo.fs.nodes)
                             && fileSystemInfo.cache == old(fileSystemInfo.cache))
        && (res.Success? ==> && o == Pass && isDisposed
                             && fileSystemInfo.fs.nodes == res.value
                             && fileSystemInfo.cache == Some(false))
    {
      o := DisposeCore(true);
    }
  }

  /** `new DisposableFileSystemInfo<T>(fileSystemInfo)`: `null` throws `ArgumentNullException`. */
  method NewDisposableFileSystemInfo(fileSystemInfo: FileSystemInfo?) returns (r: Result<DisposableFileSystemInfo, Error>)
    modifies fileSystemInfo
    ensures fileSystemInfo == null ==> r == Failure(ArgumentNull("fileSystemInfo"))
    ensures fileSystemInfo != null ==>
      && r.Success? && fresh(r.value) && r.value.Valid()
      && r.value.fileSystemInfo == fileSystemInfo && r.value.deletion == PlainDelete && !r.value.isDisposed
      && fileSystemInfo.cache == Some(ExistsAs(fileSystemInfo.fs.nodes, fileSystemInfo.path, fileSystemInfo.kind))
  {
    if fileSystemInfo == null {
      return Failure(ArgumentNull("fileSystemInfo"));
    }
    var d := new DisposableFileSystemInfo(fileSystemInfo, PlainDelete);
    r := Success(d);
  }

  /** `new DisposableDirectory(directoryInfo)`: the base constructor, with the recursive deletion. */
  method NewDisposableDirectory(directoryInfo: FileSystemInfo?) returns (r: Result<DisposableFileSystemInfo, Error>)
    requires directoryInfo != null ==> directoryInfo.kind == DirectoryKind
    modifies directoryInfo
    ensures directoryInfo == null ==> r == Failure(ArgumentNull("fileSystemInfo"))
    ensures directoryInfo != null ==>
      && r.Success? && fresh(r.value) && r.value.Valid()
      && r.value.fileSystemInfo == directoryInfo && r.value.deletion == RecursiveDelete && !r.value.isDisposed
      && directoryInfo.cache == Some(IsDirectory(directoryInfo.fs.nodes, directoryInfo.path))
  {
    if directoryInfo == null {
      return Failure(ArgumentNull("fileSystemInfo"));
    }
    var d := new DisposableFileSystemInfo(directoryInfo, RecursiveDelete);
    r := Success(d);
  }

  /** `new DisposableFile(fileInfo)`: the base constructor, keeping the plain deletion. */
  method NewDisposableFile(fileInfo: FileSystemInfo?) returns (r: Result<DisposableFileSystemInfo, Error>)
    requires fileInfo != null ==> fileInfo.kind == FileKind
    modifies fileInfo
    ensures fileInfo == null ==> r == Failure(ArgumentNull("fileSystemInfo"))
    ensures fileInfo != null ==>
      && r.Success? && fresh(r.value) && r.value.Valid()
      && r.value.fileSystemInfo == fileInfo && r.value.deletion == PlainDelete && !r.value.isDisposed
      && fileInfo.cache == Some(IsFile(fileInfo.fs.nodes, fileInfo.path))
  {
    if fileInfo == null {
      return Failure(ArgumentNull("fileSystemInfo"));
    }
    var d := new DisposableFileSystemInfo(fileInfo, PlainDelete);
    r := Success(d);
  }
}
