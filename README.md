# System.IO.Abstractions.Extensions in Dafny

This project models the extension methods of `System.IO.Abstractions.Extensions`. They are helpers
layered over the `IFileSystem` abstraction:

- copying a directory tree (`IDirectoryInfoExtensions.CopyTo`);
- handles for a child file or subdirectory;
- `DisposableFileSystemInfo`, `DisposableDirectory` and `DisposableFile`, which delete what they wrap
  on `Dispose`;
- creating a disposable directory, and the current directory (`IFileSystemExtensions`);
- joining many path parts (`IPathExtensions.Combine`);
- the existence and overwrite guards, truncating, writing and appending lines (`IFileInfoExtensions`);
- the line enumerator (`LineEnumerable`, `LineEnumerator`).

The file system the extensions call into is modelled in `FileSystem.dfy`:

- A path is the sequence of its segments.
- The disk is a map from paths to `Dir` or `File(lines)`. It is well formed when the root is a
  directory and every other entry lies in a directory.
- `FileSystem` is the class whose `nodes` the operations update in place. They are `CreateDirectory`
  with ancestors, plain and recursive `Delete`, `File.Copy` without overwrite, create-or-truncate,
  append, `WriteLine`, `OpenRead`, and the enumerations.
- `FileSystemInfo` is an `IDirectoryInfo` or `IFileInfo` handle. It has a cached `Exists` that is
  filled on first read and, by the model's assumption, brought up to date only by `Refresh`.

These provider operations follow the documented .NET behaviour. They are the model's assumptions about
code that is not part of this project.

Exceptions become `Result` or `Outcome` values carrying an `Error`. The error names the exception and
the path or parameter it reports.

Module by module:

- **`PathExtensions`**: both `Combine` overloads. They are loops proved against a left fold of an
  uninterpreted `IPath.Combine`.
- **`DirectoryInfoExtensions`**:
  - `CopyTo` and its two loops are proved against `CopyToResult`. That is the disk the copy must
    leave: the destination's missing ancestors created, plus a mirror of the source (all of it when
    recursive, else its files).
  - Lemmas state what that disk contains.
  - The recursion is proved to terminate on the size of the source tree.
- **`Disposable`**: the disposable wrapper as one class with a deletion strategy, plus one factory per
  C# constructor.
- **`FileSystemExtensions`**: `CurrentDirectory` and both `CreateDisposableDirectory` overloads.
- **`FileInfoExtensions`**: the guards, `Truncate`, `WriteLines` and `AppendLines`. They are proved
  against `WriteLinesResult` and `AppendLinesResult`, with round-trip lemmas through `ReadLinesResult`.
- **`LineEnumeration`**: the enumerable and the enumerator as classes. The enumerator is a cursor over
  the lines the reader returns.

One behaviour of the code is worth knowing. `GetWriteFileMode` trusts the handle's cached `Exists`. A
handle that last saw no file therefore lets `WriteLines(lines, overwrite: false)` replace a file created
since then (`FileInfoExtensions.StaleCacheOverwrites`).

## Model

| member | source | states |
|---|---|---|
| PathExtensions.Combine | src/System.IO.Abstractions.Extensions/IPathExtensions.cs:7-16 | a null or empty `paths` returns `root`; otherwise the result is the left fold of `IPath.Combine` over `paths` from `root`; one part gives `IPath.Combine(root, part)` |
| PathExtensions.CombineAll | src/System.IO.Abstractions.Extensions/IPathExtensions.cs:18-32 | an empty sequence gives null; otherwise the fold from the first element over the rest; a single element is returned as it is |
| PathExtensions.CombineAllIsCombine | src/System.IO.Abstractions.Extensions/IPathExtensions.cs:18-32 | the enumerable overload over `[x] + rest` equals the `params` overload with root `x` and parts `rest` |
| PathExtensions.FoldCombineAppend | src/System.IO.Abstractions.Extensions/IPathExtensions.cs:12-13 | combining `a + b` onto a root is combining `b` onto the result for `a` |
| PathExtensions.FoldCombineLast | src/System.IO.Abstractions.Extensions/IPathExtensions.cs:12-13 | each further part is combined onto the result for the parts before it |
| DirectoryInfoExtensions.CopyTo | src/System.IO.Abstractions.Extensions/IDirectoryInfoExtensions.cs:25-59 | a missing source gives `SourceDirectoryNotFound`, checked before the destination; an existing destination gives `DirectoryAlreadyExists`; both leave the disk unchanged; otherwise the disk becomes `CopyToResult`'s and the refreshed destination handle is returned with `Exists` true; the source handle was refreshed; once the source was found, a refused copy leaves the destination handle refreshed (`Exists` true after `DirectoryAlreadyExists`, false when a file is in the way); a missing source leaves the destination handle untouched |
| DirectoryInfoExtensions.CopySubdirectories | src/System.IO.Abstractions.Extensions/IDirectoryInfoExtensions.cs:42-49 | after the loop every subdirectory of the source has been copied recursively to the entry of the same name in the destination, whatever the enumeration order |
| DirectoryInfoExtensions.CopyFiles | src/System.IO.Abstractions.Extensions/IDirectoryInfoExtensions.cs:51-55 | after the loop every file directly inside the source has been copied to the entry of the same name in the destination, so all visited names are copied |
| DirectoryInfoExtensions.DirectoryStep | src/System.IO.Abstractions.Extensions/IDirectoryInfoExtensions.cs:44-47 | the recursive `CopyTo` on a subdirectory passes its checks, runs on a strictly smaller tree, and adds exactly that subdirectory's copy |
| DirectoryInfoExtensions.CopyFinished | src/System.IO.Abstractions.Extensions/IDirectoryInfoExtensions.cs:40-55 | the destination created, plus the copies of all visited names, is the disk `CopyToResult` promises |
| DirectoryInfoExtensions.CopyToPath | src/System.IO.Abstractions.Extensions/IDirectoryInfoExtensions.cs:12-16 | the same outcomes as `CopyTo`, for a fresh handle on the destination path that exists afterwards; the source handle is left refreshed, its `Exists` telling whether the source existed when the copy started |
| DirectoryInfoExtensions.DestinationIsNew | src/System.IO.Abstractions.Extensions/IDirectoryInfoExtensions.cs:33-40 | once the checks pass, nothing exists at or below the destination and it is not an ancestor of the source |
| DirectoryInfoExtensions.CopyKeepsExistingEntries | src/System.IO.Abstractions.Extensions/IDirectoryInfoExtensions.cs:39-55 | every entry that existed before the copy, the source tree included, is still there and unchanged |
| DirectoryInfoExtensions.CopyAddsOnlyAroundDestination | src/System.IO.Abstractions.Extensions/IDirectoryInfoExtensions.cs:39-55 | every new entry lies at or below the destination, or is a directory created as an ancestor of it |
| DirectoryInfoExtensions.CopyCreatesDestination | src/System.IO.Abstractions.Extensions/IDirectoryInfoExtensions.cs:40 | after the copy the destination exists as a directory |
| DirectoryInfoExtensions.CopiedAt | src/System.IO.Abstractions.Extensions/IDirectoryInfoExtensions.cs:39-55 | below the destination, the disk holds exactly the copies of the selected source entries; elsewhere the old disk, plus ancestor directories |
| DirectoryInfoExtensions.RecursiveCopyMirrorsTree | src/System.IO.Abstractions.Extensions/IDirectoryInfoExtensions.cs:42-55 | after a recursive copy, each entry of the source tree has a copy at the same relative place below the destination, with the same kind and file contents, and nothing else is there |
| DirectoryInfoExtensions.RecursiveCopyAddsNothingElse | src/System.IO.Abstractions.Extensions/IDirectoryInfoExtensions.cs:42-55 | everything at or below the destination after a recursive copy is the copy of an entry of the source tree |
| DirectoryInfoExtensions.NonRecursiveCopyTakesFilesOnly | src/System.IO.Abstractions.Extensions/IDirectoryInfoExtensions.cs:51-55 | after a non-recursive copy the destination holds a file `name` exactly when the source does, with the same contents, and nothing below it but those files |
| DirectoryInfoExtensions.CopiedWellFormed | src/System.IO.Abstractions.Extensions/IDirectoryInfoExtensions.cs:39-55 | the disk stays well formed after a copy |
| DirectoryInfoExtensions.File | src/System.IO.Abstractions.Extensions/IDirectoryInfoExtensions.cs:67-70 | a fresh file handle on `Combine(info.FullName, name)`; nothing on disk changes; its `Exists` answers whether that file exists |
| DirectoryInfoExtensions.SubDirectory | src/System.IO.Abstractions.Extensions/IDirectoryInfoExtensions.cs:78-81 | a fresh directory handle on `Combine(info.FullName, name)`; nothing on disk changes; its `Exists` answers whether that directory exists |
| Disposable.DeletionRemovesTree | src/System.IO.Abstractions.Extensions/DisposableFileSystemInfo.cs:73-76 | a deletion that completes leaves a well-formed disk with nothing at or below the entry and every other entry unchanged, so the refreshed `Exists` is false |
| Disposable.RecursiveDeletionSucceeds | src/System.IO.Abstractions.Extensions/DisposableDirectory.cs:21-24 | the recursive deletion removes an existing directory other than the root, whatever it contains |
| Disposable.PlainDeletionNeedsEmptyDirectory | src/System.IO.Abstractions.Extensions/DisposableFileSystemInfo.cs:73-76 | the plain `Delete()` of a directory with something below it throws "directory not empty" |
| Disposable.MissingFileDeletion | src/System.IO.Abstractions.Extensions/DisposableFileSystemInfo.cs:73-76 | deleting a file that is already gone, in an existing directory, is not an error and changes nothing |
| Disposable.DisposableFileSystemInfo.constructor | src/System.IO.Abstractions.Extensions/DisposableFileSystemInfo.cs:23-30 | the object is not disposed, and the wrapped handle is refreshed so its `Exists` matches the disk |
| Disposable.DisposableFileSystemInfo.DeleteFileSystemInfo | src/System.IO.Abstractions.Extensions/DisposableFileSystemInfo.cs:73-76 | the plain `Delete()`, or the recursive one for a `DisposableDirectory`; on an exception the disk is unchanged |
| Disposable.DisposableFileSystemInfo.DisposeCore | src/System.IO.Abstractions.Extensions/DisposableFileSystemInfo.cs:40-55 | once disposed, or from a finalizer, nothing is deleted or refreshed and the object ends disposed; the first `Dispose(true)` deletes, refreshes (`Exists` false) and marks disposed; if the deletion throws, it stays undisposed and nothing changes |
| Disposable.DisposableFileSystemInfo.Dispose | src/System.IO.Abstractions.Extensions/DisposableFileSystemInfo.cs:58-64 | `Dispose(true)`: the first successful call deletes and leaves `Exists` false; later calls do nothing and do not throw |
| Disposable.NewDisposableFileSystemInfo | src/System.IO.Abstractions.Extensions/DisposableFileSystemInfo.cs:23-30 | null throws `ArgumentNullException` for `fileSystemInfo`; otherwise a fresh undisposed wrapper with the plain deletion and a refreshed handle |
| Disposable.NewDisposableDirectory | src/System.IO.Abstractions.Extensions/DisposableDirectory.cs:16-18 | null throws `ArgumentNullException`; otherwise a fresh undisposed wrapper that deletes recursively, the directory handle refreshed |
| Disposable.NewDisposableFile | src/System.IO.Abstractions.Extensions/DisposableFile.cs:16-18 | null throws `ArgumentNullException`; otherwise a fresh undisposed wrapper with the inherited plain deletion, the file handle refreshed |
| FileSystemExtensions.CurrentDirectory | src/System.IO.Abstractions.Extensions/IFileSystemExtensions.cs:10-13 | a fresh directory handle on `Directory.GetCurrentDirectory()`; nothing on disk changes |
| FileSystemExtensions.CreateDisposableDirectoryAt | src/System.IO.Abstractions.Extensions/IFileSystemExtensions.cs:54-76 | an existing directory throws `ArgumentException` for `path` with the path in its data and creates nothing; otherwise the directory is created, the out handle is refreshed (`Exists` true), and the returned `DisposableDirectory` wraps that same handle |
| FileSystemExtensions.CreateDisposableDirectory | src/System.IO.Abstractions.Extensions/IFileSystemExtensions.cs:27-34 | the same, for the random name in the temp path, so the directory lies directly inside the temp path |
| FileSystemExtensions.CreateDisposableDirectoryOutcome | src/System.IO.Abstractions.Extensions/IFileSystemExtensions.cs:58-69 | the `ArgumentException` is thrown exactly when the directory already exists, with `Data["path"] == path`; a created directory exists and was not there before, and nothing else changes but missing ancestors |
| FileSystemExtensions.CreateThenDisposeRestores | src/System.IO.Abstractions.Extensions/IFileSystemExtensions.cs:69-75 | disposing the returned directory right away deletes it; only ancestors created on the way remain, and the disk is exactly as before when the parent existed |
| FileInfoExtensions.ThrowIfNotFound | src/System.IO.Abstractions.Extensions/IFileInfoExtensions.cs:15-19 | throws `FileNotFoundException` naming the file exactly when the handle's `Exists` is false |
| FileInfoExtensions.GetWriteFileMode | src/System.IO.Abstractions.Extensions/IFileInfoExtensions.cs:182-191 | throws the cannot-overwrite `IOException` exactly when `overwrite` is off and `Exists` is true; otherwise returns `FileMode.Create`; with `overwrite` on, `Exists` is not read |
| FileInfoExtensions.TruncateFile | src/System.IO.Abstractions.Extensions/IFileInfoExtensions.cs:60-68 | the file exists afterwards and is empty, and the same handle is returned; a directory or a missing parent throws and changes nothing |
| FileInfoExtensions.WriteLines | src/System.IO.Abstractions.Extensions/IFileInfoExtensions.cs:78-86 | a refused overwrite fails before any stream opens and changes nothing; otherwise the file holds exactly `lines` in order, prior contents discarded |
| FileInfoExtensions.WriteLinesEncoded | src/System.IO.Abstractions.Extensions/IFileInfoExtensions.cs:98-106 | the same outcomes as `WriteLines` |
| FileInfoExtensions.AppendLines | src/System.IO.Abstractions.Extensions/IFileInfoExtensions.cs:113-120 | the file keeps its lines and gets `lines` added at the end in order; a missing file is created first |
| FileInfoExtensions.EnumerateLines | src/System.IO.Abstractions.Extensions/IFileInfoExtensions.cs:26-41 | a fresh line enumerable on the file; nothing is opened |
| FileInfoExtensions.WriteRefusedIff | src/System.IO.Abstractions.Extensions/IFileInfoExtensions.cs:184-187 | a write fails with the cannot-overwrite error exactly when `overwrite` is off and the handle says the file exists |
| FileInfoExtensions.WritePermitted | src/System.IO.Abstractions.Extensions/IFileInfoExtensions.cs:78-86 | when the guard lets it through and the parent directory exists, the write succeeds with exactly `lines` |
| FileInfoExtensions.WriteThenRead | src/System.IO.Abstractions.Extensions/IFileInfoExtensions.cs:78-86 | after a write, reading the file gives back exactly `lines`; the disk stays well formed and no other entry changes |
| FileInfoExtensions.StaleCacheOverwrites | src/System.IO.Abstractions.Extensions/IFileInfoExtensions.cs:184 | with a cached `Exists` of false, a write without `overwrite` replaces an existing file |
| FileInfoExtensions.TruncateIsEmptyWrite | src/System.IO.Abstractions.Extensions/IFileInfoExtensions.cs:60-68 | truncating is writing no lines; the file reads back empty |
| FileInfoExtensions.AppendThenRead | src/System.IO.Abstractions.Extensions/IFileInfoExtensions.cs:113-120 | after an append, reading gives the old lines followed by the new; the disk stays well formed and no other entry changes |
| FileInfoExtensions.AppendTwice | src/System.IO.Abstractions.Extensions/IFileInfoExtensions.cs:113-120 | appending `a` and then `b` is appending `a + b` |
| FileInfoExtensions.WriteThenAppend | src/System.IO.Abstractions.Extensions/IFileInfoExtensions.cs:113-120 | writing `a` and then appending `b` is writing `a + b` |
| LineEnumeration.LineEnumerator.constructor | src/System.IO.Abstractions.Extensions/LineEnumerator.cs:29-35 | a reader open at the first line; `Current` is null and nothing has been read |
| LineEnumeration.LineEnumerator.Current | src/System.IO.Abstractions.Extensions/LineEnumerator.cs:37 | the line the last `MoveNext` read, which is the last line produced; null before the first `MoveNext` and after the end |
| LineEnumeration.LineEnumerator.MoveNext | src/System.IO.Abstractions.Extensions/LineEnumerator.cs:49-53 | returns true exactly when another line was read, and `Current` is then that line; the lines produced so far are the file's first lines in order, each once; at the end it returns false, `Current` becomes null, and all lines have been produced; after `Dispose` it throws `NullReferenceException` |
| LineEnumeration.LineEnumerator.Reset | src/System.IO.Abstractions.Extensions/LineEnumerator.cs:55-58 | always throws `InvalidOperationException` |
| LineEnumeration.LineEnumerator.Dispose | src/System.IO.Abstractions.Extensions/LineEnumerator.cs:41-47 | releases the reader; may be called any number of times; the cursor and `Current` stay as they were |
| LineEnumeration.LineEnumerable.constructor | src/System.IO.Abstractions.Extensions/LineEnumerator.cs:12-16 | keeps the file |
| LineEnumeration.LineEnumerable.GetEnumerator | src/System.IO.Abstractions.Extensions/LineEnumerator.cs:18-20 | each call opens a fresh enumerator at the first line of the file's current lines, so enumerating again restarts; a directory or missing file throws what `OpenRead` throws |

## Left out

- The asynchronous variants (`IFileInfoAsyncExtensions`, `AsyncLineEnumerator`) are not modelled. Their point is asynchronous I/O and cancellation.
- The one-call wrappers of `IFileInfoExtensions` are not modelled: `OpenFileStream`, `AppendAllLines`, `AppendAllText`, `ReadAll*`, `WriteAll*`, `GetFileNameWithoutExtension` and `ChangeExtension` (which discards its result). Each only forwards to the file system.
- Exception message texts come from `StringResources`, which is not part of this model. An error carries the exception kind and the path it names, not the wording.
- `Path.Combine` for a child name is `dir + [name]`. Separators, rooted names and case sensitivity are not modelled. `CopyTo` calls the static `Path.Combine` for files and `fileSystem.Path.Combine` for directories; both are the same operation here.
- `Path.GetTempPath()` and `Directory.GetCurrentDirectory()` are fields of the file system. `Path.GetRandomFileName()` is a parameter.
- Encodings and `StreamReader` line splitting are not modelled. A file is its sequence of lines, and the `encoding` arguments have no effect.
- FileInfoExtensions.WriteThenRead, FileInfoExtensions.AppendThenRead, FileInfoExtensions.AppendTwice, FileInfoExtensions.WriteThenAppend, FileInfoExtensions.AppendLines: a file is a sequence of lines, each assumed newline-terminated and free of line breaks. A file whose text does not end in a newline is not represented: appending to one joins the first new line onto its last line, which the model does not show. A written line containing `\n` or `\r` reads back as several lines, which the model does not show either.
- FileInfoExtensions.WriteLines, FileInfoExtensions.WriteLinesEncoded, FileInfoExtensions.AppendLines: `lines` is a sequence, so `null` is not represented. The C# code opens the stream first, which can create the file (and, for `WriteLines`, truncates it), and then throws `NullReferenceException` at the `foreach`; nullable annotations make that a caller error.
- Enumeration order is arbitrary. The listings are distinct sequences whose names are the directory's entries.
- DirectoryInfoExtensions.CopyTo: a recursive copy into the source's own subtree keeps recursing into the copy it is making. On a file system with a path-length limit it ends with a path-too-long or I/O exception; on one without a limit it does not end. The model admits such a call only when one of the checks refuses it first (a missing source, an existing destination, a file in the way), which the code ends cleanly with an exception.
- DirectoryInfoExtensions.CopyTo: the copy is one step as far as other actors are concerned. Races between the existence checks and the creation are not modelled, as with every check-then-act in the library.
- Disposable.DisposableFileSystemInfo.Dispose: `GC.SuppressFinalize` is a runtime concern and is left out. `Dispose(false)` is reachable as `DisposeCore(false)`.
- Disposable: the generic class and its two subclasses are one class whose `deletion` field is the overridden `DeleteFileSystemInfo`. A constructor's null check is a factory method returning `ArgumentNullException`.
- `CreateDisposableFile` is not part of this model. Its source is not among the modelled files.
- LineEnumeration.LineEnumerator: the reader takes the file's lines when it is opened. Changes to the file made while the enumerator is open are not modelled.
- The model assumes a handle's `Exists` cache is filled on first read and updated only by `Refresh`. Current .NET also resets it in `FileInfo`/`DirectoryInfo` `Create()` and `Delete()`. Every modelled path calls `Refresh` after those calls, so no modelled outcome depends on the difference. Other `FileSystemInfo` attributes are not modelled.
- DirectoryInfoExtensions.CopyTo: the model requires both handles to be on one file system. The C# overload accepts a `destDirectory` from any `IFileSystem`. The source then checks the destination's existence on the destination's own file system, but creates the directory and copies the files through the source's file system, and refreshes `destDirectory` on its own file system. A copy between two file systems therefore writes into the source's file system and can return a handle whose `Exists` is false. Both callers inside the library pass a handle from the source's file system.
- PathExtensions.CombineAll: takes a sequence, so a null `paths` is not represented. The C# enumerable overload throws `NullReferenceException` when it calls `paths.GetEnumerator()` on null.
