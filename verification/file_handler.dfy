/** The static-file handler (tasks-http/src/handlers/file.rs): conditional
    request headers, the byte range served, the response built around it,
    how failures to open a file are reported, and how the body is streamed.
    Dates are whole seconds, as HTTP dates are; the file system is given by
    what it answers. */
module FileHandler {
  import opened Wrappers
  import Decimal
  import Http
  import CoreTasks

  /** One end of a range, as the `headers` crate's `Range::iter` yields
      it. */
  datatype Bound = Unbounded | Included(n: nat) | Excluded(n: nat)

  /** The ranges of a Range header, in the order they were listed. */
  type Ranges = seq<(Bound, Bound)>

  /** A half-open span [start, end) of the file. */
  datatype Span = Span(start: nat, end: nat)

  datatype IfRange = DateTag(date: nat) | EntityTag(tag: string)

  /** `FileOptions`: the four conditional headers, each optional. */
  datatype Options = Options(ifModifiedSince: Option<nat>, ifUnmodifiedSince: Option<nat>,
                             ifRange: Option<IfRange>, range: Option<Ranges>)

  /** The first byte a start bound names. */
  function StartOf(b: Bound): nat {
    match b
    case Unbounded => 0
    case Included(s) => s
    case Excluded(s) => s + 1
  }

  /** One past the last byte an end bound names: a last-byte position is
      inclusive. */
  function EndOf(b: Bound, maxLen: nat): nat {
    match b
    case Unbounded => maxLen
    case Included(s) => s + 1
    case Excluded(s) => s
  }

  /** `bytes_range` as written: no Range header, or one without any range,
      is the whole file; otherwise only the first range counts, and it is
      unsatisfiable unless it is non-empty and inside the file. */
  function BytesRange(range: Option<Ranges>, maxLen: nat): (r: Result<Span, ()>)
    ensures range.None? || range.value == [] ==> r == Ok(Span(0, maxLen))
    ensures r.Ok? ==> r.value.start < r.value.end <= maxLen || r.value == Span(0, maxLen)
    ensures range.Some? && range.value != [] ==>
              (r.Ok? <==> StartOf(range.value[0].0) < EndOf(range.value[0].1, maxLen) <= maxLen)
    ensures range.Some? && range.value != [] && r.Ok? ==>
              r.value == Span(StartOf(range.value[0].0), EndOf(range.value[0].1, maxLen))
  {
    match range
    case None => Ok(Span(0, maxLen))
    case Some(rs) =>
      if rs == [] then Ok(Span(0, maxLen))
      else
        var start := StartOf(rs[0].0);
        var end := EndOf(rs[0].1, maxLen);
        if start < end && end <= maxLen then Ok(Span(start, end)) else Fail(())
  }

  /** Only the first range of a multi-range header is served; the others
      are ignored, satisfiable or not. */
  lemma FirstRangeOnly(first: (Bound, Bound), rest: Ranges, others: Ranges, maxLen: nat)
    ensures BytesRange(Some([first] + rest), maxLen) == BytesRange(Some([first] + others), maxLen)
    ensures BytesRange(Some([first] + rest), maxLen) == BytesRange(Some([first]), maxLen)
  {
  }

  /** "bytes=a-b" with a <= b inside the file serves bytes a to b, both
      included, and nothing else. */
  lemma InclusiveRange(a: nat, b: nat, maxLen: nat)
    requires a <= b < maxLen
    ensures BytesRange(Some([(Included(a), Included(b))]), maxLen) == Ok(Span(a, b + 1))
  {
  }

  /** A suffix range "bytes=-n" reaches `bytes_range` as (Unbounded,
      Included(n)), and the code reads it as "bytes=0-n": the first n + 1
      bytes, not the last n. */
  lemma SuffixServesPrefix(n: nat, maxLen: nat)
    requires n < maxLen
    ensures BytesRange(Some([(Unbounded, Included(n))]), maxLen) == Ok(Span(0, n + 1))
  {
  }

  /** For a 1000-byte file, "bytes=-500" serves bytes 0 to 500, where the
      last 500 bytes, 500 to 999, were asked for. */
  lemma SuffixCounterexample()
    ensures BytesRange(Some([(Unbounded, Included(500))]), 1000) == Ok(Span(0, 501))
    ensures RangeOf(Some([(Unbounded, Included(500))]), 1000) == Ok(Span(500, 1000))
  {
  }

  /** The byte range section 2.1 of RFC 7233 asks for: a suffix range
      names the last n bytes (all of them when the file is shorter) and is
      unsatisfiable when n is 0 or the file is empty; every other range is
      read as `bytes_range` reads it. */
  function RangeOf(range: Option<Ranges>, maxLen: nat): (r: Result<Span, ()>)
    ensures r.Ok? ==> r.value.start < r.value.end <= maxLen || r.value == Span(0, maxLen)
    ensures range.Some? && range.value != [] && range.value[0].0.Unbounded? && range.value[0].1.Included? ==>
              (r.Ok? <==> range.value[0].1.n > 0 && maxLen > 0)
    ensures range.Some? && range.value != [] && range.value[0].0.Unbounded? && range.value[0].1.Included? && r.Ok? ==>
              r.value.end == maxLen && r.value.end - r.value.start == Min(range.value[0].1.n, maxLen)
  {
    match range
    case Some(rs) =>
      if rs != [] && rs[0].0.Unbounded? && rs[0].1.Included? then
        var n := rs[0].1.n;
        if n == 0 || maxLen == 0 then Fail(())
        else Ok(Span(maxLen - Min(n, maxLen), maxLen))
      else BytesRange(range, maxLen)
    case None => BytesRange(range, maxLen)
  }

  function Min(a: nat, b: nat): nat {
    if a < b then a else b
  }

  /** The corrected reading differs from the written one only on suffix
      ranges. */
  lemma RangeOfAgreesOffSuffix(range: Option<Ranges>, maxLen: nat)
    requires range.None? || range.value == [] || !range.value[0].0.Unbounded? || !range.value[0].1.Included?
    ensures RangeOf(range, maxLen) == BytesRange(range, maxLen)
  {
  }

  /** What the conditional headers decide: an answer without body, or a
      body of the given range (None: the whole file). */
  datatype Cond = NoBody(resp: Http.Response) | WithBody(range: Option<Ranges>)

  /** `Response::with(Body::empty())` with the given status. */
  function EmptyWithStatus(code: nat): (r: Http.Response)
    ensures r.status == code && r.headers == map[] && r.body == Some(Http.Bytes([]))
  {
    Http.Apply(Http.Apply(Http.NewResponse(), Http.SetBody(Http.Bytes([]))), Http.SetStatus(code))
  }

  /** The If-Unmodified-Since precondition holds only when the file's
      modification time is known and not after the date given. */
  predicate UnmodifiedSince(since: nat, lastModified: Option<nat>) {
    lastModified.Some? && lastModified.value <= since
  }

  /** `IfRange::is_modified` without an entity tag at hand: a date
      validator holds only for a known, not later modification time, and
      an entity tag never holds. */
  predicate RangeValid(ifRange: IfRange, lastModified: Option<nat>) {
    match ifRange
    case DateTag(d) => lastModified.Some? && !(d < lastModified.value)
    case EntityTag(_) => false
  }

  /** `FileOptions::check`: If-Unmodified-Since first (412 when it does
      not hold), then If-Modified-Since (304 when the file is known not to
      have changed), then If-Range (a validator that does not hold drops
      the range), and otherwise the Range header as given. */
  function Check(opts: Options, lastModified: Option<nat>): (r: Cond)
    ensures r.NoBody? ==> r.resp.body == Some(Http.Bytes([])) && r.resp.headers == map[]
    ensures (r.NoBody? && r.resp.status == 412) <==>
              opts.ifUnmodifiedSince.Some? && !UnmodifiedSince(opts.ifUnmodifiedSince.value, lastModified)
    ensures (r.NoBody? && r.resp.status == 304) <==>
              (opts.ifUnmodifiedSince.None? || UnmodifiedSince(opts.ifUnmodifiedSince.value, lastModified))
              && opts.ifModifiedSince.Some? && UnmodifiedSince(opts.ifModifiedSince.value, lastModified)
    ensures r.NoBody? ==> r.resp.status == 412 || r.resp.status == 304
    ensures r.WithBody? ==> r.range == opts.range || r.range.None?
    ensures r.WithBody? && r.range != opts.range ==> opts.ifRange.Some? && !RangeValid(opts.ifRange.value, lastModified)
    ensures r.WithBody? && opts.ifRange.Some? && !RangeValid(opts.ifRange.value, lastModified) ==> r.range.None?
  {
    if opts.ifUnmodifiedSince.Some? && !UnmodifiedSince(opts.ifUnmodifiedSince.value, lastModified) then
      NoBody(EmptyWithStatus(412))
    else if opts.ifModifiedSince.Some? && UnmodifiedSince(opts.ifModifiedSince.value, lastModified) then
      NoBody(EmptyWithStatus(304))
    else if opts.ifRange.Some? && !RangeValid(opts.ifRange.value, lastModified) then
      WithBody(None)
    else
      WithBody(opts.range)
  }

  /** A file whose modification time is unknown fails every
      If-Unmodified-Since, is never answered 304, and is always served in
      full when If-Range is present. */
  lemma UnknownTimeIsModified(opts: Options)
    ensures opts.ifUnmodifiedSince.Some? ==> Check(opts, None) == NoBody(EmptyWithStatus(412))
    ensures opts.ifUnmodifiedSince.None? && opts.ifRange.Some? ==> Check(opts, None) == WithBody(None)
    ensures Check(opts, None).NoBody? ==> Check(opts, None).resp.status == 412
  {
  }

  /** The order of section 6 of RFC 7232: If-Unmodified-Since is
      evaluated first, If-Modified-Since next, If-Range last. A failing
      step decides the answer whatever the later headers say, and a step
      that passes acts as if its header were absent. */
  lemma CheckPrecedence(opts: Options, later: Options, lastModified: Option<nat>)
    ensures opts.ifUnmodifiedSince.Some? && !UnmodifiedSince(opts.ifUnmodifiedSince.value, lastModified) ==>
              Check(opts, lastModified) == NoBody(EmptyWithStatus(412))
              && Check(later.(ifUnmodifiedSince := opts.ifUnmodifiedSince), lastModified) == Check(opts, lastModified)
    ensures Check(opts, lastModified).NoBody? && Check(opts, lastModified).resp.status == 304 ==>
              Check(later.(ifUnmodifiedSince := opts.ifUnmodifiedSince, ifModifiedSince := opts.ifModifiedSince), lastModified)
                == Check(opts, lastModified) == NoBody(EmptyWithStatus(304))
    ensures Check(opts, lastModified).WithBody? ==>
              Check(opts, lastModified) == Check(opts.(ifUnmodifiedSince := None, ifModifiedSince := None), lastModified)
    ensures Check(opts, lastModified).WithBody? && (opts.ifRange.None? || RangeValid(opts.ifRange.value, lastModified)) ==>
              Check(opts, lastModified) == Check(Options(None, None, None, opts.range), lastModified)
  {
  }

  /** Without conditional headers the Range header is used as given. */
  lemma NoConditionsKeepsRange(range: Option<Ranges>, lastModified: Option<nat>)
    ensures Check(Options(None, None, None, range), lastModified) == WithBody(range)
  {
  }

  const AcceptRanges := "accept-ranges"
  const ContentRange := "content-range"
  const LastModified := "last-modified"

  /** The `ContentRange::bytes` header of a served span: first and last
      byte, both included, and the file's length. */
  function RangeText(s: Span, len: nat): string
    requires s.start < s.end
  {
    "bytes " + Decimal.Format(s.start) + "-" + Decimal.Format(s.end - 1) + "/" + Decimal.Format(len)
  }

  /** The five headers of a served answer have different names. */
  lemma HeaderNamesDistinct()
    ensures Http.ContentLength != Http.ContentType && Http.ContentLength != AcceptRanges
    ensures Http.ContentLength != ContentRange && Http.ContentLength != LastModified
    ensures Http.ContentType != AcceptRanges && Http.ContentType != ContentRange
    ensures Http.ContentType != LastModified && AcceptRanges != ContentRange
    ensures AcceptRanges != LastModified && ContentRange != LastModified
  {
    assert Http.ContentLength[8] != Http.ContentType[8];
    assert AcceptRanges[0] != ContentRange[0];
    assert AcceptRanges[0] != LastModified[0];
    assert ContentRange[0] != LastModified[0];
    assert Http.ContentType[0] != LastModified[0];
  }

  /** The answer for a range that could be served: a file-range body,
      206 and Content-Range for a part of the file or 200 for all of it,
      Content-Length of what is sent, the guessed Content-Type, byte ranges
      accepted, and Last-Modified when the time is known. */
  function Served(s: Span, len: nat, mime: string, modified: Option<nat>, render: nat -> string): (r: Http.Response)
    requires s.start < s.end <= len || s == Span(0, len)
    ensures r.body == Some(Http.FileRange(s.start, s.end))
    ensures r.status == (if s.end - s.start != len then 206 else 200)
    ensures Http.ContentLength in r.headers && r.headers[Http.ContentLength] == Decimal.Format(s.end - s.start)
    ensures Http.ContentType in r.headers && r.headers[Http.ContentType] == mime
    ensures AcceptRanges in r.headers && r.headers[AcceptRanges] == "bytes"
    ensures ContentRange in r.headers <==> s.end - s.start != len
    ensures ContentRange in r.headers ==> s.start < s.end && r.headers[ContentRange] == RangeText(s, len)
    ensures LastModified in r.headers <==> modified.Some?
    ensures modified.Some? ==> LastModified in r.headers && r.headers[LastModified] == render(modified.value)
    ensures r.headers.Keys <= {Http.ContentLength, Http.ContentType, AcceptRanges, ContentRange, LastModified}
  {
    HeaderNamesDistinct();
    var subLen := s.end - s.start;
    var partial := PartialAnswer(s, len);
    var typed := WithHeader(WithHeader(WithHeader(partial, Http.ContentLength, Decimal.Format(subLen)),
                                       Http.ContentType, mime), AcceptRanges, "bytes");
    if modified.Some? then WithHeader(typed, LastModified, render(modified.value)) else typed
  }

  /** The first steps of a served answer: the file-range body, then 206
      and Content-Range for a part of the file, or 200 for all of it. */
  function PartialAnswer(s: Span, len: nat): (r: Http.Response)
    requires s.start < s.end <= len || s == Span(0, len)
    ensures r.body == Some(Http.FileRange(s.start, s.end))
    ensures r.status == (if s.end - s.start != len then 206 else 200)
    ensures ContentRange in r.headers <==> s.end - s.start != len
    ensures ContentRange in r.headers ==> s.start < s.end && r.headers[ContentRange] == RangeText(s, len)
    ensures r.headers.Keys <= {ContentRange}
  {
    var base := WithStatus(Http.Apply(Http.NewResponse(), Http.SetBody(Http.FileRange(s.start, s.end))), 200);
    if s.end - s.start != len then WithHeader(WithStatus(base, 206), ContentRange, RangeText(s, len)) else base
  }

  /** The `set` of one header or of the status, as the modifiers do it. */
  function WithHeader(resp: Http.Response, name: string, value: string): (r: Http.Response)
    ensures r == resp.(headers := resp.headers[name := value])
  {
    Http.Apply(resp, Http.SetHeader(name, value))
  }

  function WithStatus(resp: Http.Response, code: nat): (r: Http.Response)
    ensures r == resp.(status := code)
  {
    Http.Apply(resp, Http.SetStatus(code))
  }

  /** The answer for an unsatisfiable range: 416, an empty body and the
      `ContentRange::unsatisfied_bytes` header. */
  function Unsatisfiable(len: nat): (r: Http.Response)
    ensures r.status == 416 && r.body == Some(Http.Bytes([]))
    ensures r.headers == map[ContentRange := "bytes */" + Decimal.Format(len)]
  {
    Http.Apply(Http.Apply(Http.Apply(Http.NewResponse(), Http.SetBody(Http.Bytes([]))), Http.SetStatus(416)),
               Http.SetHeader(ContentRange, "bytes */" + Decimal.Format(len)))
  }

  /** What the metadata of an open file gives: its length, its
      modification time if known, and the device's block size. */
  datatype Meta = Meta(len: nat, modified: Option<nat>, blockSize: nat)

  /** The answer for a range as read: served when it could be, else 416. */
  function ServeSpan(span: Result<Span, ()>, meta: Meta, mime: string, render: nat -> string): (r: Http.Response)
    requires span.Ok? ==> span.value.start < span.value.end <= meta.len || span.value == Span(0, meta.len)
    ensures span.Ok? ==> r == Served(span.value, meta.len, mime, meta.modified, render)
    ensures span.Fail? ==> r == Unsatisfiable(meta.len)
  {
    match span
    case Ok(s) => Served(s, meta.len, mime, meta.modified, render)
    case Fail(_) => Unsatisfiable(meta.len)
  }

  /** `file_conditional`: the preconditions first, then the range as
      `bytes_range` reads it. */
  function Conditional(opts: Options, meta: Meta, mime: string, render: nat -> string): (r: Http.Response)
    ensures r.status in {200, 206, 304, 412, 416}
    ensures r.status == 412 <==> opts.ifUnmodifiedSince.Some? && !UnmodifiedSince(opts.ifUnmodifiedSince.value, meta.modified)
    ensures Check(opts, meta.modified).NoBody? ==> r == Check(opts, meta.modified).resp
    ensures r.status == 200 || r.status == 206 ==> r.body.Some? && r.body.value.FileRange? && r.body.value.end <= meta.len
    ensures r.status == 200 ==> r.body == Some(Http.FileRange(0, meta.len))
    ensures r.status == 416 ==> r.headers == map[ContentRange := "bytes */" + Decimal.Format(meta.len)]
  {
    match Check(opts, meta.modified)
    case NoBody(resp) => resp
    case WithBody(range) => ServeSpan(BytesRange(range, meta.len), meta, mime, render)
  }

  /** `file_conditional` with the range read as section 2.1 of RFC 7233
      asks: a suffix range "-n" serves the last n bytes. */
  function ConditionalCorrected(opts: Options, meta: Meta, mime: string, render: nat -> string): (r: Http.Response)
    ensures r.status in {200, 206, 304, 412, 416}
    ensures r.status == 412 <==> opts.ifUnmodifiedSince.Some? && !UnmodifiedSince(opts.ifUnmodifiedSince.value, meta.modified)
    ensures Check(opts, meta.modified).NoBody? ==> r == Check(opts, meta.modified).resp
    ensures r.status == 200 || r.status == 206 ==> r.body.Some? && r.body.value.FileRange? && r.body.value.end <= meta.len
    ensures r.status == 200 ==> r.body == Some(Http.FileRange(0, meta.len))
    ensures r.status == 416 ==> r.headers == map[ContentRange := "bytes */" + Decimal.Format(meta.len)]
  {
    match Check(opts, meta.modified)
    case NoBody(resp) => resp
    case WithBody(range) => ServeSpan(RangeOf(range, meta.len), meta, mime, render)
  }

  /** A suffix range "-n" with 0 < n < length, and no other conditional
      header, is answered with the last n bytes by the corrected handler
      and with the first n + 1 by the handler as written. */
  lemma SuffixAnswers(n: nat, meta: Meta, mime: string, render: nat -> string)
    requires 0 < n && n + 1 < meta.len
    ensures var opts := Options(None, None, None, Some([(Unbounded, Included(n))]));
            ConditionalCorrected(opts, meta, mime, render).body == Some(Http.FileRange(meta.len - n, meta.len))
            && Conditional(opts, meta, mime, render).body == Some(Http.FileRange(0, n + 1))
            && Conditional(opts, meta, mime, render).status == 206
  {
    var range := Some([(Unbounded, Included(n))]);
    NoConditionsKeepsRange(range, meta.modified);
    SuffixServesPrefix(n, meta.len);
  }

  /** Off suffix ranges, and whatever the preconditions decide, the
      corrected handler answers exactly as the one written. */
  lemma ConditionalAgreesOffSuffix(opts: Options, meta: Meta, mime: string, render: nat -> string)
    requires opts.range.None? || opts.range.value == [] || !opts.range.value[0].0.Unbounded? || !opts.range.value[0].1.Included?
    ensures ConditionalCorrected(opts, meta, mime, render) == Conditional(opts, meta, mime, render)
  {
    match Check(opts, meta.modified)
    case NoBody(_) =>
    case WithBody(range) =>
      RangeOfAgreesOffSuffix(range, meta.len);
  }

  /** The served answer for the bytes a to b of a file, a part of it. */
  lemma ServedEchoesSpan(a: nat, b: nat, meta: Meta, mime: string, render: nat -> string)
    requires a <= b < meta.len && b - a + 1 != meta.len
    ensures var r := Served(Span(a, b + 1), meta.len, mime, meta.modified, render);
            r.status == 206 && r.body == Some(Http.FileRange(a, b + 1))
            && ContentRange in r.headers
            && r.headers[ContentRange] == "bytes " + Decimal.Format(a) + "-" + Decimal.Format(b) + "/" + Decimal.Format(meta.len)
            && Http.ContentLength in r.headers && r.headers[Http.ContentLength] == Decimal.Format(b - a + 1)
  {
    assert RangeText(Span(a, b + 1), meta.len) == "bytes " + Decimal.Format(a) + "-" + Decimal.Format(b) + "/" + Decimal.Format(meta.len);
  }

  /** A satisfiable "bytes=a-b" naming part of a file, with no other
      conditional header, is answered 206 with a body of exactly bytes a to
      b, a Content-Range naming them and a Content-Length counting them. */
  lemma PartialContentEchoesRange(a: nat, b: nat, meta: Meta, mime: string, render: nat -> string)
    requires a <= b < meta.len && b - a + 1 != meta.len
    ensures var r := Conditional(Options(None, None, None, Some([(Included(a), Included(b))])), meta, mime, render);
            r.status == 206 && r.body == Some(Http.FileRange(a, b + 1))
            && ContentRange in r.headers
            && r.headers[ContentRange] == "bytes " + Decimal.Format(a) + "-" + Decimal.Format(b) + "/" + Decimal.Format(meta.len)
            && Http.ContentLength in r.headers && r.headers[Http.ContentLength] == Decimal.Format(b - a + 1)
  {
    var s := Span(a, b + 1);
    var range := Some([(Included(a), Included(b))]);
    var opts := Options(None, None, None, range);
    ServedEchoesSpan(a, b, meta, mime, render);
    NoConditionsKeepsRange(range, meta.modified);
    assert BytesRange(range, meta.len) == Ok(s);
    assert Conditional(opts, meta, mime, render) == Served(s, meta.len, mime, meta.modified, render);
  }

  /** How opening the file went: the kind of I/O error, a failure to read
      its metadata, or its metadata. */
  datatype IoKind = NotFoundKind | PermissionDenied | OtherKind
  datatype Opened = OpenFailed(kind: IoKind) | MetadataFailed | Opened(meta: Meta)

  /** The known error an I/O error kind is reported as; the path is not
      recorded. */
  function OpenError(k: IoKind): (r: Http.KnownError)
    ensures r.NotFound? <==> k == NotFoundKind
    ensures r.FilePermission? <==> k == PermissionDenied
    ensures r.FilePermission? || r.FileOpen? ==> r.path.None?
  {
    match k
    case NotFoundKind => Http.NotFound
    case PermissionDenied => Http.FilePermission(None)
    case OtherKind => Http.FileOpen(None)
  }

  /** `file_reply`: open failures map to their known error, a metadata
      failure to NotFound, and an open file to the conditional answer. */
  function FileReply(attempt: Opened, opts: Options, mime: string, render: nat -> string): (r: Result<Http.Response, Http.Error>)
    ensures r.Ok? <==> attempt.Opened?
    ensures attempt.Opened? ==> r.value == Conditional(opts, attempt.meta, mime, render)
    ensures attempt.OpenFailed? ==> r.error == Http.ErrorNew(Http.Known(OpenError(attempt.kind)))
    ensures attempt.MetadataFailed? ==> r.error == Http.ErrorNew(Http.Known(Http.NotFound))
  {
    match attempt
    case OpenFailed(k) => Fail(Http.ErrorNew(Http.Known(OpenError(k))))
    case MetadataFailed => Fail(Http.ErrorNew(Http.Known(Http.NotFound)))
    case Opened(meta) => Ok(Conditional(opts, meta, mime, render))
  }

  /** Whatever went wrong opening the file, the client is answered 404
      with an empty body: every error carries `Response::new`. */
  lemma FileErrorsAnswer404<R>(attempt: Opened, opts: Options, mime: string, render: nat -> string, httpMethod: Http.Method)
    requires !attempt.Opened?
    ensures var r := FileReply(attempt, opts, mime, render);
            r.Fail? && Http.Respond<R>(Fail(CoreTasks.Err(r.error)), httpMethod).status == 404
  {
  }

  const DefaultReadBufSize: nat := 8192

  /** `optimal_buf_size`: the block size, raised to 8192 when smaller,
      but never more than the file's length. */
  function OptimalBufSize(len: nat, blockSize: nat): (r: nat)
    ensures r <= len
    ensures r <= DefaultReadBufSize || r <= blockSize
    ensures len <= DefaultReadBufSize ==> r == len
    ensures r == len || r >= DefaultReadBufSize
  {
    var block := if blockSize > DefaultReadBufSize then blockSize else DefaultReadBufSize;
    if block < len then block else len
  }

  /** An item of the body stream: a chunk of bytes or a read error. */
  datatype Item = Chunk(bytes: seq<Http.byte>) | ReadError

  /** The bytes a stream delivered, in order. */
  function Flatten(items: seq<Item>): (r: seq<Http.byte>)
    decreases |items|
  {
    if items == [] then []
    else
      var last := items[|items| - 1];
      Flatten(items[..|items| - 1]) + (if last.Chunk? then last.bytes else [])
  }

  lemma FlattenSnoc(items: seq<Item>, c: Item)
    ensures Flatten(items + [c]) == Flatten(items) + (if c.Chunk? then c.bytes else [])
  {
    assert (items + [c])[..|items|] == items;
  }

  /** The bytes sent so far are the file from `start`. */
  predicate FromStart(file: seq<Http.byte>, start: nat, flat: seq<Http.byte>) {
    flat == [] || (start + |flat| <= |file| && forall i | 0 <= i < |flat| :: flat[i] == file[start + i])
  }

  /** Every item is a non-empty chunk. */
  predicate AllChunks(items: seq<Item>) {
    forall k | 0 <= k < |items| :: items[k].Chunk? && |items[k].bytes| > 0
  }

  /** The bytes sent so far, followed by the next `m` bytes of the file,
      are again the file from `start`. */
  lemma PrefixGrows(file: seq<Http.byte>, start: nat, flat: seq<Http.byte>, m: nat)
    requires FromStart(file, start, flat) && start + |flat| + m <= |file|
    ensures FromStart(file, start, flat + file[start + |flat|..start + |flat| + m])
  {
    var grown := flat + file[start + |flat|..start + |flat| + m];
    assert forall i | 0 <= i < |grown| :: grown[i] == file[start + i] by {
      forall i | 0 <= i < |grown|
        ensures grown[i] == file[start + i]
      {
        if i >= |flat| {
          assert grown[i] == file[start + |flat|..start + |flat| + m][i - |flat|];
        }
      }
    }
  }

  lemma AllChunksSnoc(items: seq<Item>, c: Item)
    requires AllChunks(items) && c.Chunk? && |c.bytes| > 0
    ensures AllChunks(items + [c])
  {
    assert forall k | 0 <= k < |items| :: (items + [c])[k] == items[k];
  }

  /** A stream of chunks, possibly closed by one error, has only non-empty
      chunks, and an error only last. */
  lemma ChunksThenError(items: seq<Item>, last: seq<Item>)
    requires AllChunks(items) && (last == [] || last == [ReadError])
    ensures forall i | 0 <= i < |items + last| :: (items + last)[i].Chunk? ==> |(items + last)[i].bytes| > 0
    ensures forall i | 0 <= i < |items + last| - 1 :: (items + last)[i].Chunk?
  {
    assert forall k | 0 <= k < |items| :: (items + last)[k] == items[k];
  }

  /** An error answer ends the stream with an error item, which adds no
      bytes. */
  lemma ErrorStep(file: seq<Http.byte>, start: nat, items: seq<Item>)
    requires FromStart(file, start, Flatten(items))
    ensures |Flatten(items + [ReadError])| == |Flatten(items)|
    ensures FromStart(file, start, Flatten(items + [ReadError]))
  {
    FlattenSnoc(items, ReadError);
  }

  /** Appending the next `m` bytes of the file as a chunk keeps the sent
      bytes the file from `start` and every item a non-empty chunk. */
  lemma ChunkStep(file: seq<Http.byte>, start: nat, items: seq<Item>, pos: nat, m: nat)
    requires FromStart(file, start, Flatten(items)) && AllChunks(items)
    requires pos == start + |Flatten(items)| && 0 < m && pos + m <= |file|
    ensures |Flatten(items + [Chunk(file[pos..pos + m])])| == |Flatten(items)| + m
    ensures FromStart(file, start, Flatten(items + [Chunk(file[pos..pos + m])]))
    ensures AllChunks(items + [Chunk(file[pos..pos + m])])
  {
    var c := Chunk(file[pos..pos + m]);
    FlattenSnoc(items, c);
    PrefixGrows(file, start, Flatten(items), m);
    AllChunksSnoc(items, c);
  }


  /** How many bytes one read answered with `k` delivers, at the position
      `pos` and with `len` bytes still wanted: what the read returned, cut
      to the end of the file and to what is wanted. */
  function ReadSize(file: seq<Http.byte>, pos: nat, len: nat, k: nat): (m: nat)
    ensures m <= len && m <= k && (m > 0 ==> pos + m <= |file|)
    ensures m == 0 <==> k == 0 || pos >= |file| || len == 0
    ensures m > 0 ==> m == k || m == len || pos + m == |file|
  {
    var avail := if pos < |file| then |file| - pos else 0;
    var n := if k < avail then k else avail;
    if n > len then len else n
  }

  /** One poll of `file_stream` at the position `pos`, while `len` bytes
      are still wanted: a failed read gives an error item, a read of
      nothing (or at end of file) ends the stream without an item, and
      otherwise the next `taken` bytes of the file come as a chunk, as many
      as the read returned, cut to the end of the file and to what is
      wanted. */
  method ReadStep(file: seq<Http.byte>, pos: nat, len: nat, answer: Option<nat>) returns (item: Option<Item>, taken: nat)
    requires len > 0
    ensures answer.None? <==> item == Some(ReadError)
    ensures item.None? || item.value.ReadError? ==> taken == 0
    ensures item.None? ==> answer.Some? && (answer.value == 0 || pos >= |file|)
    ensures item.Some? && item.value.Chunk? ==>
              && answer.Some? && 0 < taken <= len && taken <= answer.value
              && pos + taken <= |file|
              && item.value == Chunk(file[pos..pos + taken])
              && (taken == answer.value || taken == len || pos + taken == |file|)
  {
    if answer.None? {
      return Some(ReadError), 0;
    }
    var m := ReadSize(file, pos, len, answer.value);
    if m == 0 {
      return None, 0;
    }
    return Some(Chunk(file[pos..pos + m])), m;
  }


  /** One poll of `file_stream` added to the stream so far: the bytes sent
      stay the file from `start`, count what is no longer wanted, and only
      a chunk lets the stream go on. */
  method Advance(file: seq<Http.byte>, start: nat, end: nat, items: seq<Item>, pos: nat, len: nat, answer: Option<nat>)
    returns (next: seq<Item>, rest: nat, stop: bool)
    requires pos == start + |Flatten(items)| && pos + len == end && len > 0
    requires FromStart(file, start, Flatten(items)) && AllChunks(items)
    ensures |Flatten(next)| + rest == end - start
    ensures FromStart(file, start, Flatten(next))
    ensures !stop ==> AllChunks(next) && rest < len
    ensures stop ==> next == items || next == items + [ReadError]
    ensures answer.Some? && answer.value > 0 && end <= |file| ==> !stop
  {
    var item, m := ReadStep(file, pos, len, answer);
    if item.None? {
      return items, len, true;
    }
    if item.value.ReadError? {
      ErrorStep(file, start, items);
      return items + [ReadError], len, true;
    }
    ChunkStep(file, start, items, pos, m);
    return items + [Chunk(file[pos..pos + m])], len - m, false;
  }

  /** `file_stream` over the file's contents: after seeking to `start`,
      each poll answers what the next read call returns — at most the number
      given, or an error — and the stream ends when `end - start` bytes
      were sent, at end of file, after an error, or when no read is
      left. A read past what is still wanted is cut short. */
  method FileStream(file: seq<Http.byte>, start: nat, end: nat, answers: seq<Option<nat>>) returns (items: seq<Item>)
    requires start <= end
    ensures forall i | 0 <= i < |items| :: items[i].Chunk? ==> |items[i].bytes| > 0
    ensures forall i | 0 <= i < |items| - 1 :: items[i].Chunk?
    ensures |Flatten(items)| <= end - start
    ensures FromStart(file, start, Flatten(items))
    ensures end <= |file| && end - start <= |answers| && (forall i | 0 <= i < |answers| :: answers[i].Some? && answers[i].value > 0) ==>
              Flatten(items) == file[start..end]
  {
    var len: nat := end - start;
    var i := 0;
    items := [];
    ghost var good := end <= |file| && (forall k | 0 <= k < |answers| :: answers[k].Some? && answers[k].value > 0);
    while i < |answers| && len > 0
      invariant 0 <= i <= |answers|
      invariant |Flatten(items)| + len == end - start
      invariant FromStart(file, start, Flatten(items))
      invariant AllChunks(items)
      invariant good ==> len == 0 || |Flatten(items)| >= i
    {
      var next, rest, stop := Advance(file, start, end, items, start + |Flatten(items)|, len, answers[i]);
      if stop {
        ChunksThenError(items, next[|items|..]);
        assert items + next[|items|..] == next;
        return next;
      }
      items, len, i := next, rest, i + 1;
    }
    ChunksThenError(items, []);
    assert items + [] == items;
    if good && end - start <= |answers| {
      assert len == 0;
      assert Flatten(items) == file[start..end];
    }
  }



}
