/**
 * `LineEnumerable` and `LineEnumerator`: enumerating a file's lines through
 * a reader opened when the enumerator is created. The reader is a cursor
 * over the lines the file held when it was opened.
 */
module LineEnumeration {
  import opened Wrappers
  import opened FileSystem

  class LineEnumerator {
    /** The lines the reader returns, in order. */
    const lines: seq<string>
    /** How many lines the reader has returned. */
    var position: nat
    /** `_current`; `None` stands for `null`. */
    var current: Option<string>
    /** Whether `_reader` and `_stream` are still set, that is, `Dispose` has not run. */
    var open: bool
    /** The lines `MoveNext` has produced so far. */
    ghost var yielded: seq<string>

    /**
     * The lines produced so far are the file's first `position` lines;
     * `Current` is the last of them, or `null` before the first `MoveNext`
     * and after the end was reached.
     */
    ghost predicate Valid()
      reads this
    {
      && position <= |lines|
      && yielded == lines[..position]
      && (current.Some? ==> 0 < position && current.value == lines[position - 1])
      && (current.None? ==> position == 0 || position == |lines|)
    }

    /** The constructor once `file.OpenRead()` has succeeded with these lines. */
    constructor (lines: seq<string>)
      ensures Valid() && this.lines == lines && position == 0 && current == None && open && yielded == []
    {
      this.lines := lines;
      position := 0;
      current := None;
      open := true;
      yielded := [];
    }

    /** `Current`: the line the last `MoveNext` read. */
    function Current(): (c: Option<string>)
      requires Valid()
      reads this
      ensures c.Some? ==> 0 < position <= |lines| && c.value == lines[position - 1] && c.value == yielded[|yielded| - 1]
      ensures c.None? ==> yielded == [] || yielded == lines
    {
      current
    }

    /**
     * `MoveNext()`: reads the next line into `Current` and answers whether
     * there was one; at the end `Current` becomes `null`. A disposed
     * enumerator has no reader, and the call throws.
     */
    method MoveNext() returns (r: Result<bool, Error>)
      requires Valid()
      modifies this
      ensures Valid() && open == old(open)
      ensures !open ==> r == Failure(NullReference) && position == old(position) && current == old(current)
      ensures open ==> r.Success? && (r.value <==> old(position) < |lines|)
      ensures open && r.value ==>
        && current == Some(lines[old(position)]) && position == old(position) + 1
        && yielded == old(yielded) + [lines[old(position)]]
      ensures open && !r.value ==> current == None && yielded == lines
    {
      if !open {
        return Failure(NullReference);
      }
      if position < |lines| {
        current := Some(lines[position]);
        yielded := yielded + [lines[position]];
        assert lines[..position + 1] == lines[..position] + [lines[position]];
        position := position + 1;
        r := Success(true);
      } else {
        current := None;
        assert lines[..position] == lines;
        r := Success(false);
      }
    }

    /** `Reset()`: not supported. */
    method Reset() returns (o: Outcome<Error>)
      ensures o == Fail(InvalidOperation)
    {
      o := Fail(InvalidOperation);
    }

    /** `Dispose()`: releases the reader and the stream; calling it again does nothing more. */
    method Dispose()
      modifies this
      ensures !open
      ensures position == old(position) && current == old(current) && yielded == old(yielded)
    {
      open := false;
    }
  }

  class LineEnumerable {
    /** An `IFileInfo`. */
    const file: FileSystemInfo

    /** `new LineEnumerable(file, encoding)`; the encoding is not modelled. */
    constructor (file: FileSystemInfo)
      requires file.kind == FileKind
      ensures this.file == file
    {
      this.file := file;
    }

    /**
     * `GetEnumerator()`, both overloads: a new enumerator at the first line
     * of the file as it is now, or the exception `OpenRead()` throws.
     */
    method GetEnumerator() returns (r: Result<LineEnumerator, Error>)
      ensures var read := ReadLinesResult(file.fs.nodes, file.path);
        && (read.Failure? ==> r == Failure(read.error))
        && (read.Success? ==>
              && r.Success? && fresh(r.value) && r.value.Valid()
              && r.value.lines == read.value && r.value.position == 0
              && r.value.current == None && r.value.open)
    {
      var read := file.fs.OpenRead(file.path);
      if read.Failure? {
        return Failure(read.error);
      }
      var e := new LineEnumerator(read.value);
      r := Success(e);
    }
  }
}
