/**
 * `IFileInfoExtensions`: the existence guard, and writing a file's lines
 * through a stream. Every write goes through the handle's file system; the
 * guards read the handle's cached `Exists`, not the disk.
 */
module FileInfoExtensions {
  import opened Wrappers
  import opened FileSystem
  import opened LineEnumeration

  /** `System.IO.FileMode`. */
  datatype FileMode = CreateNew | Create | Open | OpenOrCreate | Truncate | Append

  /** The lines of the file `p`; a missing file reads as empty. */
  function Contents(n: Nodes, p: Path): seq<string> {
    if IsFile(n, p) then n[p].lines else []
  }

  /**
   * What `WriteLines(lines, overwrite)` does to the disk, or what it throws,
   * when the handle's `Exists` answers `fileExists`: the overwrite guard first,
   * then opening the stream in `FileMode.Create`, which replaces the contents.
   */
  function WriteLinesResult(fileExists: bool, overwrite: bool, n: Nodes, p: Path, lines: seq<string>): Result<Nodes, Error> {
    if !overwrite && fileExists then Failure(CannotOverwrite(p))
    else if !CanWriteFile(n, p) then Failure(WriteFailure(n, p))
    else Success(n[p := File(lines)])
  }

  /** What `AppendLines(lines)` does to the disk, or what it throws. */
  function AppendLinesResult(n: Nodes, p: Path, lines: seq<string>): Result<Nodes, Error> {
    if !CanWriteFile(n, p) then Failure(WriteFailure(n, p))
    else Success(n[p := File(Contents(n, p) + lines)])
  }

  /** The write is refused by the guard exactly when overwriting is off and the handle says the file exists. */
  lemma WriteRefusedIff(fileExists: bool, overwrite: bool, n: Nodes, p: Path, lines: seq<string>)
    ensures WriteLinesResult(fileExists, overwrite, n, p, lines) == Failure(CannotOverwrite(p))
            <==> !overwrite && fileExists
  {
    if !overwrite && fileExists {
    } else if CanWriteFile(n, p) {
    } else {
      assert WriteFailure(n, p) != CannotOverwrite(p);
    }
  }

  /**
   * A permitted write leaves a well-formed disk on which the file holds
   * exactly the given lines, prior contents discarded, and nothing else changed.
   */
  lemma WriteThenRead(fileExists: bool, overwrite: bool, n: Nodes, p: Path, lines: seq<string>)
    requires WellFormed(n) && WriteLinesResult(fileExists, overwrite, n, p, lines).Success?
    ensures var m := WriteLinesResult(fileExists, overwrite, n, p, lines).value;
      && WellFormed(m)
      && ReadLinesResult(m, p) == Success(lines)
      && m.Keys == n.Keys + {p}
      && (forall q | q in n && q != p :: m[q] == n[q])
  {
    WriteWellFormed(n, p, File(lines));
  }

  /** The stream opens whenever the guard lets the write through and the parent directory exists. */
  lemma WritePermitted(fileExists: bool, overwrite: bool, n: Nodes, p: Path, lines: seq<string>)
    requires (overwrite || !fileExists) && CanWriteFile(n, p)
    ensures WriteLinesResult(fileExists, overwrite, n, p, lines) == Success(n[p := File(lines)])
  {
  }

  /**
   * The guard trusts the cached `Exists`: a handle that last saw no file
   * lets a write without `overwrite` replace a file created since.
   */
  lemma StaleCacheOverwrites(n: Nodes, p: Path, lines: seq<string>)
    requires WellFormed(n) && IsFile(n, p) && p != []
    ensures WriteLinesResult(false, false, n, p, lines) == Success(n[p := File(lines)])
  {
    assert IsDirectory(n, Parent(p));
  }

  /** An append keeps the existing lines and adds the new ones at the end, in order. */
  lemma AppendThenRead(n: Nodes, p: Path, lines: seq<string>)
    requires WellFormed(n) && AppendLinesResult(n, p, lines).Success?
    ensures var m := AppendLinesResult(n, p, lines).value;
      && WellFormed(m)
      && ReadLinesResult(m, p) == Success(Contents(n, p) + lines)
      && m.Keys == n.Keys + {p}
      && (forall q | q in n && q != p :: m[q] == n[q])
  {
    WriteWellFormed(n, p, File(Contents(n, p) + lines));
  }

  /** Two appends are one append of both batches. */
  lemma AppendTwice(n: Nodes, p: Path, a: seq<string>, b: seq<string>)
    requires AppendLinesResult(n, p, a).Success?
    ensures AppendLinesResult(AppendLinesResult(n, p, a).value, p, b) == AppendLinesResult(n, p, a + b)
  {
    var m := AppendLinesResult(n, p, a).value;
    assert CanWriteFile(m, p) && IsFile(m, p);
    assert Contents(m, p) + b == Contents(n, p) + (a + b);
    assert m[p := File(Contents(m, p) + b)] == n[p := File(Contents(n, p) + (a + b))];
  }

  /** Writing `a` and then appending `b` writes `a + b`. */
  lemma WriteThenAppend(fileExists: bool, overwrite: bool, n: Nodes, p: Path, a: seq<string>, b: seq<string>)
    requires WriteLinesResult(fileExists, overwrite, n, p, a).Success?
    ensures AppendLinesResult(WriteLinesResult(fileExists, overwrite, n, p, a).value, p, b)
            == WriteLinesResult(fileExists, overwrite, n, p, a + b)
  {
    var m := WriteLinesResult(fileExists, overwrite, n, p, a).value;
    assert CanWriteFile(m, p) && IsFile(m, p);
    assert m[p := File(Contents(m, p) + b)] == n[p := File(a + b)];
  }

  /** Truncating is writing no lines with `overwrite` on. */
  lemma TruncateIsEmptyWrite(fileExists: bool, n: Nodes, p: Path)
    requires WellFormed(n) && CanWriteFile(n, p)
    ensures WriteLinesResult(fileExists, true, n, p, []) == Success(n[p := File([])])
    ensures ReadLinesResult(n[p := File([])], p) == Success([])
  {
  }

  /** `ThrowIfNotFound()`: reads `Exists` and throws `FileNotFoundException` naming the file when it is false. */
  method ThrowIfNotFound(file: FileSystemInfo) returns (o: Outcome<Error>)
    requires file.kind == FileKind
    modifies file
    ensures o.Pass? <==> old(file.Exists())
    ensures o.Fail? ==> o.error == FileNotFound(file.path)
    ensures file.cache == Some(old(file.Exists()))
  {
    var fileExists := file.GetExists();
    if !fileExists {
      return Fail(FileNotFound(file.path));
    }
    o := Pass;
  }

  /**
   * `GetWriteFileMode(info, overwrite)`: refuses an existing file unless
   * `overwrite` is set, and otherwise opens in `FileMode.Create`. With
   * `overwrite` set, `Exists` is not read, so the cache stays as it was.
   */
  method GetWriteFileMode(info: FileSystemInfo, overwrite: bool) returns (r: Result<FileMode, Error>)
    requires info.kind == FileKind
    modifies info
    ensures r.Failure? <==> !overwrite && old(info.Exists())
    ensures r.Failure? ==> r.error == CannotOverwrite(info.path)
    ensures r.Success? ==> r.value == Create
    ensures info.cache == if overwrite then old(info.cache) else Some(old(info.Exists()))
  {
    if !overwrite {
      var fileExists := info.GetExists();
      if fileExists {
        return Failure(CannotOverwrite(info.path));
      }
    }
    r := Success(Create);
  }

  /** `Truncate()`: opens and closes a stream in `FileMode.Create`, leaving the file empty; returns the same handle. */
  method TruncateFile(file: FileSystemInfo) returns (r: Result<FileSystemInfo, Error>)
    requires file.fs.Valid() && file.kind == FileKind
    modifies file.fs
    ensures file.fs.Valid() && unchanged(file.fs`currentDirectory, file.fs`tempPath)
    ensures var res := WriteLinesResult(false, true, old(file.fs.nodes), file.path, []);
      && (res.Failure? ==> r == Failure(res.error) && file.fs.nodes == old(file.fs.nodes))
      && (res.Success? ==> r == Success(file) && file.fs.nodes == res.value)
  {
    var o := file.fs.OpenCreate(file.path);
    if o.Fail? {
      return Failure(o.error);
    }
    r := Success(file);
  }

  /**
   * `WriteLines(lines, overwrite)`: the guard, then a stream in the mode it
   * chose and one `WriteLine` per line.
   */
  method WriteLines(file: FileSystemInfo, lines: seq<string>, overwrite: bool) returns (o: Outcome<Error>)
    requires file.fs.Valid() && file.kind == FileKind
    modifies file, file.fs
    ensures file.fs.Valid() && unchanged(file.fs`currentDirectory, file.fs`tempPath)
    ensures var res := WriteLinesResult(old(file.Exists()), overwrite, old(file.fs.nodes), file.path, lines);
      && (res.Failure? ==> o == Fail(res.error) && file.fs.nodes == old(file.fs.nodes))
      && (res.Success? ==> o == Pass && file.fs.nodes == res.value)
    ensures file.cache == if overwrite then old(file.cache) else Some(old(file.Exists()))
  {
    var mode := GetWriteFileMode(file, overwrite);
    if mode.Failure? {
      return Fail(mode.error);
    }
    var openResult := file.fs.OpenCreate(file.path);
    if openResult.Fail? {
      return Fail(openResult.error);
    }
    ghost var n1 := file.fs.nodes;
    for i := 0 to |lines|
      invariant file.fs.Valid() && unchanged(file.fs`currentDirectory, file.fs`tempPath)
      invariant file.fs.nodes == n1[file.path := File(lines[..i])]
      invariant file.cache == if overwrite then old(file.cache) else Some(old(file.Exists()))
    {
      assert lines[..i + 1] == lines[..i] + [lines[i]];
      file.fs.WriteLine(file.path, lines[i]);
    }
    assert lines[..|lines|] == lines;
    o := Pass;
  }

  /** `WriteLines(lines, encoding, overwrite)`: the same as `WriteLines(lines, overwrite)`; the encoding is not modelled. */
  method WriteLinesEncoded(file: FileSystemInfo, lines: seq<string>, encoding: string, overwrite: bool) returns (o: Outcome<Error>)
    requires file.fs.Valid() && file.kind == FileKind
    modifies file, file.fs
    ensures file.fs.Valid() && unchanged(file.fs`currentDirectory, file.fs`tempPath)
    ensures var res := WriteLinesResult(old(file.Exists()), overwrite, old(file.fs.nodes), file.path, lines);
      && (res.Failure? ==> o == Fail(res.error) && file.fs.nodes == old(file.fs.nodes))
      && (res.Success? ==> o == Pass && file.fs.nodes == res.value)
    ensures file.cache == if overwrite then old(file.cache) else Some(old(file.Exists()))
  {
    o := WriteLines(file, lines, overwrite);
  }

  /** `AppendLines(lines)`: `AppendText()` and one `WriteLine` per line. */
  method AppendLines(file: FileSystemInfo, lines: seq<string>) returns (o: Outcome<Error>)
    requires file.fs.Valid() && file.kind == FileKind
    modifies file.fs
    ensures file.fs.Valid() && unchanged(file.fs`currentDirectory, file.fs`tempPath)
    ensures var res := AppendLinesResult(old(file.fs.nodes), file.path, lines);
      && (res.Failure? ==> o == Fail(res.error) && file.fs.nodes == old(file.fs.nodes))
      && (res.Success? ==> o == Pass && file.fs.nodes == res.value)
  {
    ghost var n0 := file.fs.nodes;
    var openResult := file.fs.OpenAppend(file.path);
    if openResult.Fail? {
      return Fail(openResult.error);
    }
    ghost var n1 := file.fs.nodes;
    ghost var before := Contents(n0, file.path);
    assert n1 == n0[file.path := File(before)];
    assert before + lines[..0] == before;
    for i := 0 to |lines|
      invariant file.fs.Valid() && unchanged(file.fs`currentDirectory, file.fs`tempPath)
      invariant file.fs.nodes == n0[file.path := File(before + lines[..i])]
    {
      assert before + lines[..i + 1] == before + lines[..i] + [lines[i]];
      file.fs.WriteLine(file.path, lines[i]);
    }
    assert lines[..|lines|] == lines;
    o := Pass;
  }

  /** `EnumerateLines()` and `EnumerateLines(encoding)`: a line enumerable on the file; nothing is opened yet. */
  method EnumerateLines(file: FileSystemInfo) returns (e: LineEnumerable)
    requires file.kind == FileKind
    ensures fresh(e) && e.file == file
  {
    e := new LineEnumerable(file);
  }
}
