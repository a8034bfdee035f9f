/** `tasks-vinyl`: files flowing through tasks. The path and mime filters
    (tasks-vinyl/src/filters/path.rs, tasks-vinyl/src/filters/mime.rs), the
    future that runs a task on each file of a stream, and `write_to`, which
    drains such a stream into a destination (tasks-vinyl/src/traits.rs). A
    file's content is opaque here; it is carried along unchanged. */
module Vinyl {
  import opened Wrappers
  import opened Rejections

  datatype Mime = Mime(top: string, sub: string)

  datatype File = File(path: string, mime: Mime, content: seq<int>)

  /** The crate's errors: an I/O error, known by its text, and a mime
      mismatch. */
  datatype Error = IoError(text: string) | InvalidMimeType(expected: Mime)

  /** What a filter task answers: the file back with its extract, or a
      rejection handing the file back. */
  type Filtered<X> = Outcome<(File, X), File, Error>

  /** `path::get`: the file, untouched, with its path extracted. */
  function GetPath(f: File): (r: Filtered<string>)
    ensures r.Ok? && r.value.0 == f && r.value.1 == f.path
  {
    Ok((f, f.path))
  }

  /** `path::match_exact`: equal paths pass; any other file is rejected
      without a cause. */
  function MatchExact(path: string, f: File): (r: Filtered<()>)
    ensures r.Ok? <==> f.path == path
    ensures r.Ok? ==> r.value.0 == f
    ensures r.Fail? ==> r.error == Reject(f, None)
  {
    if f.path == path then Ok((f, ())) else Fail(Reject(f, None))
  }

  /** A file always matches the path `get` extracts from it. */
  lemma GetThenMatchExact(f: File)
    ensures MatchExact(GetPath(f).value.1, f) == Ok((f, ()))
  {
  }

  /** The extension `match_ext` compares with: the one configured, with a
      leading '.' added when it has none. */
  function DotExt(ext: string): (r: string)
    ensures |r| > 0 && r[0] == '.'
    ensures r[1..] == (if |ext| > 0 && ext[0] == '.' then ext[1..] else ext)
  {
    if |ext| > 0 && ext[0] == '.' then ext else "." + ext
  }

  /** Configuring "js" or ".js" is the same. */
  lemma DotExtIdempotent(ext: string)
    ensures DotExt(DotExt(ext)) == DotExt(ext)
    ensures DotExt("." + ext) == DotExt(ext) || (|ext| > 0 && ext[0] == '.')
  {
  }

  /** `path::match_ext`, given what `Path::ext` finds in a path (the
      `pathutils` crate): a path without extension, or with another one, is
      rejected without a cause; the file is handed back unchanged either
      way. */
  function MatchExt(ext: string, extOf: string -> Option<string>, f: File): (r: Filtered<()>)
    ensures r.Ok? <==> extOf(f.path) == Some(DotExt(ext))
    ensures r.Ok? ==> r.value.0 == f
    ensures r.Fail? ==> r.error == Reject(f, None)
  {
    match extOf(f.path)
    case None => Fail(Reject(f, None))
    case Some(found) => if found != DotExt(ext) then Fail(Reject(f, None)) else Ok((f, ()))
  }

  /** `mime::match_exact`: an equal mime passes; a mismatch is rejected
      with an `InvalidMimeType` whose `expected` field holds the file's own
      mime, not the one asked for. */
  function MatchMime(m: Mime, f: File): (r: Filtered<()>)
    ensures r.Ok? <==> f.mime == m
    ensures r.Ok? ==> r.value.0 == f
    ensures r.Fail? ==> r.error == Reject(f, Some(InvalidMimeType(f.mime)))
  {
    if f.mime == m then Ok((f, ())) else Fail(Reject(f, Some(InvalidMimeType(f.mime))))
  }

  /** `mime::match_type`: only the top-level type is compared; a mismatch
      is rejected without a cause. */
  function MatchType(top: string, f: File): (r: Filtered<()>)
    ensures r.Ok? <==> f.mime.top == top
    ensures r.Ok? ==> r.value.0 == f
    ensures r.Fail? ==> r.error == Reject(f, None)
  {
    if f.mime.top == top then Ok((f, ())) else Fail(Reject(f, None))
  }

  /** `mime::get`: the file, untouched, with its mime extracted. */
  function GetMime(f: File): (r: Filtered<Mime>)
    ensures r.Ok? && r.value.0 == f && r.value.1 == f.mime
  {
    Ok((f, f.mime))
  }

  /** A file an exact mime passes also passes that mime's top-level type;
      the converse fails only on the subtype. */
  lemma MimeFiltersAgree(m: Mime, f: File)
    ensures MatchMime(m, f).Ok? ==> MatchType(m.top, f).Ok?
    ensures MatchType(m.top, f).Ok? && !MatchMime(m, f).Ok? ==> f.mime.sub != m.sub
  {
  }

  /** `PipeFuture::poll`: the stream's item first; its error is the
      answer and the task does not run. Otherwise the task runs on the
      file: its output and its hard error pass through, a rejection with a
      cause answers that cause, and a rejection without one panics. */
  function PipeRun<O>(item: Result<File, Error>, task: File -> Outcome<O, File, Error>): (r: Run<Result<O, Error>>)
    ensures item.Fail? ==> r == Done(Fail(item.error))
    ensures r.Panic? <==> item.Ok? && task(item.value).Fail? && task(item.value).error.Reject? && task(item.value).error.cause.None?
    ensures item.Ok? && task(item.value).Ok? ==> r == Done(Ok(task(item.value).value))
    ensures r.Done? && r.value.Fail? ==> item.Fail? || Source(task(item.value).error) == Some(r.value.error)
  {
    match item
    case Fail(e) => Done(Fail(e))
    case Ok(f) =>
      match task(f)
      case Ok(o) => Done(Ok(o))
      case Fail(rej) =>
        if rej.Err? then Done(Fail(rej.error))
        else if rej.cause.Some? then Done(Fail(rej.cause.value))
        else Panic("reject")
  }

  /** An item that is already an error never reaches the task: any two
      tasks give the same answer. */
  lemma SourceErrorSkipsTask<O>(e: Error, t1: File -> Outcome<O, File, Error>, t2: File -> Outcome<O, File, Error>)
    ensures PipeRun(Fail(e), t1) == PipeRun(Fail(e), t2)
  {
  }

  /** A path filter in a pipe panics on every file it does not match,
      since it rejects without a cause; a mime filter turns the mismatch
      into an error instead. */
  lemma CauselessFilterPanics(path: string, m: Mime, f: File)
    ensures f.path != path ==> PipeRun(Ok(f), (g: File) => MatchExact(path, g)).Panic?
    ensures f.mime != m ==> PipeRun(Ok(f), (g: File) => MatchMime(m, g)) == Done(Fail(InvalidMimeType(f.mime)))
  {
  }

  /** `Pipe::poll_next`: each item of the stream becomes a future running
      a clone of the task on it, in order. The stream goes on past an
      error: every item has its own answer. */
  function Pipe<O>(items: seq<Result<File, Error>>, task: File -> Outcome<O, File, Error>): (r: seq<Run<Result<O, Error>>>)
    ensures |r| == |items|
    ensures forall i | 0 <= i < |items| :: r[i] == PipeRun(items[i], task)
    ensures forall i | 0 <= i < |items| && items[i].Fail? :: r[i] == Done(Fail(items[i].error))
    ensures forall i | 0 <= i < |items| ::
              r[i].Panic? <==> items[i].Ok? && task(items[i].value).Fail? && task(items[i].value).error.Reject? && task(items[i].value).error.cause.None?
  {
    seq(|items|, i requires 0 <= i < |items| => PipeRun(items[i], task))
  }

  /** Piping a stream through `path::match_exact` panics on exactly the
      files with another path; errors of the stream come through as they
      are, and matching files as the filter's output. */
  lemma PathPipePanics(items: seq<Result<File, Error>>, path: string)
    ensures var r := Pipe(items, (g: File) => MatchExact(path, g));
            forall i | 0 <= i < |items| ::
              (r[i].Panic? <==> items[i].Ok? && items[i].value.path != path)
              && (items[i].Ok? && items[i].value.path == path ==> r[i] == Done(Ok((items[i].value, ()))))
  {
  }

  /** The reference reading of `write_to`: the count of files written,
      or the first error, of an item or of a write, in stream order. */
  function Drain(items: seq<Result<File, Error>>, write: File -> Result<(), Error>): Result<nat, Error>
    decreases |items|
  {
    if items == [] then Ok(0)
    else if items[0].Fail? then Fail(items[0].error)
    else if write(items[0].value).Fail? then Fail(write(items[0].value).error)
    else match Drain(items[1..], write)
      case Ok(n) => Ok(n + 1)
      case Fail(e) => Fail(e)
  }

  /** Every item is a file and every write succeeds. */
  predicate AllWritten(items: seq<Result<File, Error>>, write: File -> Result<(), Error>) {
    forall i | 0 <= i < |items| :: items[i].Ok? && write(items[i].value).Ok?
  }

  /** `write_to`: the items in order, each awaited and written; the first
      failure ends it with that error, and otherwise the number of files
      written is the answer. The files handed to the destination are
      returned alongside. */
  method WriteTo(items: seq<Result<File, Error>>, write: File -> Result<(), Error>) returns (r: Result<nat, Error>, written: seq<File>)
    ensures r == Drain(items, write)
    ensures r.Ok? <==> AllWritten(items, write)
    ensures r.Ok? ==> r.value == |items| == |written|
    ensures |written| <= |items| && forall i | 0 <= i < |written| :: items[i] == Ok(written[i])
    ensures r.Fail? ==>
              |written| < |items| && AllWritten(items[..|written|], write)
              && (items[|written|].Fail? || write(items[|written|].value).Fail?)
  {
    var count := 0;
    written := [];
    while count < |items|
      invariant count == |written| <= |items|
      invariant forall i | 0 <= i < count :: items[i] == Ok(written[i])
      invariant AllWritten(items[..count], write)
      invariant Drain(items, write) == AddCount(Drain(items[count..], write), count)
    {
      var next := items[count];
      if next.Fail? {
        DrainAllWritten(items, write);
        return Fail(next.error), written;
      }
      var w := write(next.value);
      if w.Fail? {
        DrainAllWritten(items, write);
        return Fail(w.error), written;
      }
      assert items[count..][1..] == items[count + 1..];
      assert items[..count + 1] == items[..count] + [items[count]];
      written := written + [next.value];
      count := count + 1;
    }
    assert items[count..] == [];
    assert items[..count] == items;
    DrainAllWritten(items, write);
    r := Ok(count);
  }

  /** The count shifted by the files before a suffix; errors unchanged. */
  function AddCount(d: Result<nat, Error>, k: nat): Result<nat, Error> {
    match d
    case Ok(n) => Ok(n + k)
    case Fail(e) => Fail(e)
  }

  /** Draining succeeds exactly when every item is written, and counts
      them all. */
  lemma {:induction false} DrainAllWritten(items: seq<Result<File, Error>>, write: File -> Result<(), Error>)
    ensures Drain(items, write).Ok? <==> AllWritten(items, write)
    ensures Drain(items, write).Ok? ==> Drain(items, write).value == |items|
    decreases |items|
  {
    if items != [] {
      DrainAllWritten(items[1..], write);
      assert AllWritten(items, write) <==> items[0].Ok? && write(items[0].value).Ok? && AllWritten(items[1..], write) by {
        if items[0].Ok? && write(items[0].value).Ok? && AllWritten(items[1..], write) {
          forall i | 0 <= i < |items| ensures items[i].Ok? && write(items[i].value).Ok? {
            if i > 0 { assert items[i] == items[1..][i - 1]; }
          }
        }
      }
    }
  }
}
