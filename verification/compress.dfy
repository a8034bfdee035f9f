/** The compression middleware (tasks-http/src/compress.rs): the request's
    Accept-Encoding is split into codings, and the first one the crate
    knows, if any, encodes the answer's body. The encoders themselves are
    not part of this model: an encoded body records which coding wraps
    which body. */
module Compress {
  import opened Wrappers
  import Text
  import Http
  import CoreTasks

  datatype Coding = Gzip | Deflate | Brotli

  /** The token naming each coding, which is also the Content-Encoding it
      sets. */
  function Token(c: Coding): string {
    match c
    case Gzip => "gzip"
    case Deflate => "deflate"
    case Brotli => "br"
  }

  /** The exact-match arm of `to_type`: anything but the three tokens,
      parameters included, is unknown. */
  function Recognise(t: string): (r: Option<Coding>)
    ensures r.Some? ==> Token(r.value) == t
    ensures forall c: Coding :: Token(c) == t ==> r == Some(c)
  {
    if t == "gzip" then Some(Gzip)
    else if t == "deflate" then Some(Deflate)
    else if t == "br" then Some(Brotli)
    else None
  }

  /** The codings among the pieces, trimmed, in order. */
  function Recognised(pieces: seq<string>): (r: seq<Coding>)
    ensures |r| <= |pieces|
    ensures forall c | c in r :: exists p | p in pieces :: Text.Trim(p) == Token(c)
    ensures forall p | p in pieces && Recognise(Text.Trim(p)).Some? :: Recognise(Text.Trim(p)).value in r
    decreases |pieces|
  {
    if pieces == [] then []
    else
      var here := match Recognise(Text.Trim(pieces[0])) case Some(c) => [c] case None => [];
      here + Recognised(pieces[1..])
  }

  /** `to_type`: split on ',', trim, keep the known tokens. */
  function ToType(s: string): (r: seq<Coding>)
    ensures |r| <= |Text.Split(s, ',')|
    ensures forall c | c in r :: exists p | p in Text.Split(s, ',') :: Text.Trim(p) == Token(c)
    ensures forall p | p in Text.Split(s, ',') && Recognise(Text.Trim(p)).Some? :: Recognise(Text.Trim(p)).value in r
  {
    Recognised(Text.Split(s, ','))
  }

  /** Every piece that trims to a token contributes its coding, in order,
      and no other piece contributes anything. */
  lemma {:induction false} RecognisedExactly(pieces: seq<string>, cs: seq<Coding>)
    requires |pieces| == |cs|
    requires forall i | 0 <= i < |pieces| :: Text.Trim(pieces[i]) == Token(cs[i])
    ensures Recognised(pieces) == cs
    decreases |pieces|
  {
    if pieces != [] {
      RecognisedExactly(pieces[1..], cs[1..]);
      assert cs == [cs[0]] + cs[1..];
    }
  }

  /** A header listing codings, each padded with any whitespace, gives back
      those codings in order. */
  lemma ToTypeOfList(pieces: seq<string>, cs: seq<Coding>)
    requires |pieces| == |cs| > 0
    requires forall i | 0 <= i < |pieces| :: Text.Free(pieces[i], ',') && Text.Trim(pieces[i]) == Token(cs[i])
    ensures ToType(Text.Join(pieces, ',')) == cs
  {
    Text.SplitJoin(pieces, ',');
    RecognisedExactly(pieces, cs);
  }

  /** A piece with parameters (`;q=...`) is never a token, so it is dropped
      whatever its weight. */
  lemma ParameterDropped(piece: string)
    requires ';' in piece
    ensures Recognise(Text.Trim(piece)).None?
  {
    var k :| 0 <= k < |piece| && piece[k] == ';';
    assert !Text.IsWhitespace(piece[k]);
    var t := Text.Trim(piece);
    assert ';' in t;
    var r := Recognise(t);
    if r.Some? {
      TokenPlain(r.value);
    }
  }

  lemma TokenPlain(c: Coding)
    ensures ';' !in Token(c)
  {
  }

  /** A weighted coding followed by a plain one: only the plain one is
      recognised. */
  lemma WeightedShape(gz: string, br: string, c: Coding)
    requires ';' in gz && Text.Free(gz, ',') && Text.Free(br, ',') && br == Token(c)
    requires br == [] || (!Text.IsWhitespace(br[0]) && !Text.IsWhitespace(br[|br| - 1]))
    ensures ToType(Text.Join([gz, br], ',')) == [c]
  {
    Text.SplitJoin([gz, br], ',');
    ParameterDropped(gz);
    Text.TrimPadded([], br, []);
    assert [] + br + [] == br;
    assert [gz, br][1..] == [br] && [br][1..] == [];
    assert Recognised([br]) == [c] + [];
    assert Recognised([gz, br]) == [] + Recognised([br]);
  }

  /** q-values are not read: "gzip;q=1.0,br" picks Brotli although gzip
      was acceptable with the highest weight. */
  lemma WeightedExample(header: string)
    requires header == "gzip;q=1.0,br"
    ensures ToType(header) == [Brotli]
  {
    var gz, br := header[..10], header[11..];
    assert header == gz + [','] + br;
    assert Text.Join([gz, br], ',') == header by {
      assert [gz, br][1..] == [br];
    }
    assert gz[4] == ';';
    assert br == "br";
    WeightedShape(gz, br, Brotli);
  }

  const ContentEncoding := "content-encoding"

  /** `to_compression`: a body is encoded, Content-Encoding names the
      coding and Content-Length is removed, since the encoded length is not
      known; a response without a body is left as it is. */
  function ToCompression(c: Coding, resp: Http.Response): (r: Http.Response)
    ensures resp.body.None? ==> r == resp
    ensures resp.body.Some? ==> r.body == Some(Http.Encoded(Token(c), resp.body.value))
    ensures resp.body.Some? ==> r.headers.Keys == resp.headers.Keys - {Http.ContentLength} + {ContentEncoding}
    ensures resp.body.Some? ==> ContentEncoding in r.headers && r.headers[ContentEncoding] == Token(c)
    ensures forall k | k in resp.headers && k != Http.ContentLength && k != ContentEncoding :: r.headers[k] == resp.headers[k]
    ensures r.status == resp.status
  {
    match resp.body
    case None => resp
    case Some(b) =>
      var headers := resp.headers[ContentEncoding := Token(c)] - {Http.ContentLength};
      Http.Response(resp.status, headers, Some(Http.Encoded(Token(c), b)))
  }

  /** `HeaderValue::to_str` succeeds on visible ASCII and tab. */
  predicate VisibleAscii(s: string) {
    forall i | 0 <= i < |s| :: s[i] == '\t' || (' ' <= s[i] && s[i] as int < 0x7F)
  }

  /** `Compress::run`: the request's Accept-Encoding, read before `next`
      takes the request, and `next`'s outcome. A failure of `next`, an
      answer without body, no Accept-Encoding, or no known coding leave
      the outcome as it is; otherwise the first known coding is applied.
      A header that is not visible ASCII makes `to_str().unwrap()` panic,
      but only once an answer with a body arrives. */
  function CompressRun<R>(accept: Option<string>, answer: CoreTasks.Outcome<Http.Response, R, Http.Error>): (r: Run<CoreTasks.Outcome<Http.Response, R, Http.Error>>)
    ensures answer.Fail? ==> r == Done(answer)
    ensures r.Panic? <==> answer.Ok? && answer.value.body.Some? && accept.Some? && !VisibleAscii(accept.value)
    ensures r.Done? && r.value != answer ==>
              answer.Ok? && accept.Some? && |ToType(accept.value)| > 0
              && r.value == Ok(ToCompression(ToType(accept.value)[0], answer.value))
    ensures answer.Ok? && answer.value.body.Some? && accept.Some? && VisibleAscii(accept.value) && |ToType(accept.value)| > 0 ==>
              r.Done? && r.value.Ok? && ContentEncoding in r.value.value.headers && r.value.value.headers[ContentEncoding] == Token(ToType(accept.value)[0])
  {
    match answer
    case Fail(_) => Done(answer)
    case Ok(resp) =>
      if resp.body.None? || accept.None? then Done(answer)
      else if !VisibleAscii(accept.value) then Panic("called `Result::unwrap()` on an `Err` value")
      else
        var types := ToType(accept.value);
        if types == [] then Done(answer) else Done(Ok(ToCompression(types[0], resp)))
  }

  /** Compression never changes the status, and an answer it changes keeps
      every header but Content-Length, which it drops. */
  lemma RunKeepsStatus<R>(accept: Option<string>, answer: CoreTasks.Outcome<Http.Response, R, Http.Error>)
    requires answer.Ok?
    ensures CompressRun(accept, answer).Done? ==> CompressRun(accept, answer).value.Ok?
    ensures CompressRun(accept, answer).Done? ==> CompressRun(accept, answer).value.value.status == answer.value.status
    ensures CompressRun(accept, answer).Done? ==>
              forall k | k in answer.value.headers && k != Http.ContentLength && k != ContentEncoding ::
                CompressRun(accept, answer).value.value.headers[k] == answer.value.headers[k]
  {
  }
}
