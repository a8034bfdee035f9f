/** The response side of `tasks-http`: the crate's `Response`
    (tasks-http/src/response.rs), the modifiers that build one
    (tasks-http/src/modifiers.rs), its errors (tasks-http/src/error.rs) and
    how the service turns a task's outcome into hyper's response
    (tasks-http/src/service.rs). Header names are lower case, as hyper's
    `HeaderMap` stores them, and each name holds one value. */
module Http {
  import opened Wrappers
  import Decimal
  import Rejections
  import CoreTasks

  type byte = x: int | 0 <= x < 256

  /** A body as far as the model follows it: bytes held in memory, a range
      of a file streamed from disk, or another body run through a content
      coding. */
  datatype Body = Bytes(data: seq<byte>) | FileRange(start: nat, end: nat) | Encoded(coding: string, inner: Body)

  type Headers = map<string, string>

  const ContentType := "content-type"
  const ContentLength := "content-length"

  /** The crate's response: a status, headers and an optional body. */
  datatype Response = Response(status: nat, headers: Headers, body: Option<Body>)

  /** `Response::new`: 404, no headers, no body. */
  function NewResponse(): Response {
    Response(404, map[], None)
  }

  /** The encoding of one character in UTF-8. */
  function Utf8Char(c: char): (r: seq<byte>)
    ensures 1 <= |r| <= 4
    ensures |r| == 1 <==> c as int < 0x80
    ensures |r| == 1 ==> r[0] == c as int
  {
    var n := c as int;
    if n < 0x80 then [n]
    else if n < 0x800 then [0xC0 + n / 0x40, 0x80 + n % 0x40]
    else if n < 0x1_0000 then [0xE0 + n / 0x1000, 0x80 + n / 0x40 % 0x40, 0x80 + n % 0x40]
    else [0xF0 + n / 0x4_0000, 0x80 + n / 0x1000 % 0x40, 0x80 + n / 0x40 % 0x40, 0x80 + n % 0x40]
  }

  /** `String::into_bytes`: the UTF-8 encoding of the text. */
  function Utf8(s: string): seq<byte>
    decreases |s|
  {
    if s == [] then [] else Utf8Char(s[0]) + Utf8(s[1..])
  }

  predicate Ascii(s: string) {
    forall i | 0 <= i < |s| :: s[i] as int < 0x80
  }

  /** A text is one byte per character exactly when it is ASCII, and then
      the bytes are the character codes; otherwise it takes more bytes than
      characters, at most four per character. */
  lemma {:induction false} Utf8Length(s: string)
    ensures |s| <= |Utf8(s)| <= 4 * |s|
    ensures |Utf8(s)| == |s| <==> Ascii(s)
    ensures Ascii(s) ==> forall i | 0 <= i < |s| :: Utf8(s)[i] == s[i] as int
    decreases |s|
  {
    if s != [] {
      Utf8Length(s[1..]);
      assert Ascii(s) <==> s[0] as int < 0x80 && Ascii(s[1..]) by {
        if s[0] as int < 0x80 && Ascii(s[1..]) {
          forall i | 0 <= i < |s| ensures s[i] as int < 0x80 {
            if i > 0 { assert s[i] == s[1..][i - 1]; }
          }
        }
      }
    }
  }

  /** The modifiers of tasks-http/src/modifiers.rs. `Body` sets the body;
      `Vec<u8>` and `&[u8]` set bytes; `String` and `&str` set text;
      `StatusCode` sets the status; `Header` and the typed headers insert
      one header, given here by its rendered value. */
  datatype Modifier = SetBody(body: Body) | SetBytes(bytes: seq<byte>) | SetText(text: string)
                    | SetStatus(code: nat) | SetHeader(name: string, value: string)

  /** The headers a modifier writes. */
  function Touched(m: Modifier): set<string> {
    match m
    case SetBytes(_) => {ContentLength}
    case SetText(_) => {ContentLength}
    case SetHeader(name, _) => {name}
    case _ => {}
  }

  /** `Modifier::modify`. A byte body also sets Content-Length to its
      length; a text body is its UTF-8 bytes, so its Content-Length counts
      bytes, not characters. Every other header is left alone. */
  function Apply(resp: Response, m: Modifier): (r: Response)
    ensures r.status == if m.SetStatus? then m.code else resp.status
    ensures r.headers.Keys == resp.headers.Keys + Touched(m)
    ensures forall k | k in resp.headers && k !in Touched(m) :: r.headers[k] == resp.headers[k]
    ensures m.SetBytes? ==> r.body == Some(Bytes(m.bytes)) && r.headers[ContentLength] == Decimal.Format(|m.bytes|)
    ensures m.SetText? ==> r.body == Some(Bytes(Utf8(m.text))) && r.headers[ContentLength] == Decimal.Format(|Utf8(m.text)|)
    ensures m.SetBody? ==> r.body == Some(m.body)
    ensures m.SetHeader? ==> r.headers[m.name] == m.value
    ensures m.SetStatus? || m.SetHeader? ==> r.body == resp.body
  {
    match m
    case SetBody(b) => resp.(body := Some(b))
    case SetBytes(bs) => Response(resp.status, resp.headers[ContentLength := Decimal.Format(|bs|)], Some(Bytes(bs)))
    case SetText(t) =>
      var bs := Utf8(t);
      Response(resp.status, resp.headers[ContentLength := Decimal.Format(|bs|)], Some(Bytes(bs)))
    case SetStatus(c) => resp.(status := c)
    case SetHeader(n, v) => resp.(headers := resp.headers[n := v])
  }

  /** Setting the same modifier twice is setting it once. */
  lemma ApplyIdempotent(resp: Response, m: Modifier)
    ensures Apply(Apply(resp, m), m) == Apply(resp, m)
  {
    var r := Apply(resp, m);
    assert Apply(r, m).headers == r.headers;
  }

  /** The status is independent of every other modifier: setting it before
      or after gives the same response. */
  lemma StatusCommutes(resp: Response, code: nat, m: Modifier)
    requires !m.SetStatus?
    ensures Apply(Apply(resp, SetStatus(code)), m) == Apply(Apply(resp, m), SetStatus(code))
  {
  }

  /** `Response::with` and chains of `set`. */
  function SetAll(resp: Response, ms: seq<Modifier>): Response
    decreases |ms|
  {
    if ms == [] then resp else SetAll(Apply(resp, ms[0]), ms[1..])
  }

  function With(ms: seq<Modifier>): Response {
    SetAll(NewResponse(), ms)
  }

  datatype Method = Get | Head | Post | Put | Delete | Connect | Options | Trace | Patch | Extension(name: string)

  /** hyper's response: its body is always present. */
  datatype HttpResponse = HttpResponse(status: nat, headers: Headers, body: Body)

  /** `Response::write_back`: status and headers replace the target's. A
      body is moved over and gets Content-Type text/plain unless one is set;
      without a body a HEAD response is left as it is and any other gets
      Content-Length 0, both keeping the target's body. */
  function WriteBack(resp: Response, httpMethod: Method, out: HttpResponse): (r: HttpResponse)
    ensures r.status == resp.status
    ensures resp.body.Some? ==> r.body == resp.body.value
    ensures resp.body.None? ==> r.body == out.body
    ensures forall k | k in resp.headers && !(resp.body.None? && httpMethod != Head && k == ContentLength) ::
              k in r.headers && r.headers[k] == resp.headers[k]
    ensures forall k | k in r.headers :: k in resp.headers || (resp.body.Some? && k == ContentType) || (resp.body.None? && httpMethod != Head && k == ContentLength)
    ensures resp.body.Some? && ContentType !in resp.headers ==> ContentType in r.headers && r.headers[ContentType] == "text/plain"
    ensures resp.body.None? && httpMethod != Head ==> ContentLength in r.headers && r.headers[ContentLength] == "0"
  {
    match resp.body
    case Some(b) =>
      var ct := if ContentType in resp.headers then resp.headers[ContentType] else "text/plain";
      HttpResponse(resp.status, resp.headers[ContentType := ct], b)
    case None =>
      if httpMethod == Head then HttpResponse(resp.status, resp.headers, out.body)
      else HttpResponse(resp.status, resp.headers[ContentLength := "0"], out.body)
  }

  /** Writing back depends on the target only through its body, and only
      when the response has none; writing back twice is writing back once. */
  lemma WriteBackLaws(resp: Response, httpMethod: Method, out1: HttpResponse, out2: HttpResponse)
    ensures out1.body == out2.body || resp.body.Some? ==> WriteBack(resp, httpMethod, out1) == WriteBack(resp, httpMethod, out2)
    ensures WriteBack(resp, httpMethod, WriteBack(resp, httpMethod, out1)) == WriteBack(resp, httpMethod, out1)
  {
  }

  /** The errors the crate names. */
  datatype KnownError = InvalidHeader(name: string) | FilePermission(path: Option<string>) | FileOpen(path: Option<string>) | NotFound

  /** `Error`'s boxed cause: a known error or any other error, known by its
      text. */
  datatype Cause = Known(known: KnownError) | Other(text: string)

  /** An error carries the response it answers with. */
  datatype Error = Error(inner: Cause, response: Response)

  /** `Error::new`: the carried response is `Response::new`'s. */
  function ErrorNew(c: Cause): (r: Error)
    ensures r.inner == c
    ensures r.response.status == 404 && r.response.headers == map[] && r.response.body.None?
  {
    Error(c, NewResponse())
  }

  /** `Error::set`: the modifier changes the carried response and nothing
      else. */
  function ErrorSet(e: Error, m: Modifier): (r: Error)
    ensures r.inner == e.inner
    ensures r.response.status == if m.SetStatus? then m.code else e.response.status
  {
    e.(response := Apply(e.response, m))
  }

  predicate IsHexDigit(c: char) {
    '0' <= c <= '9' || 'a' <= c <= 'f'
  }

  function HexDigitValue(c: char): (d: nat)
    requires IsHexDigit(c)
    ensures d < 16
  {
    if c <= '9' then c as int - '0' as int else c as int - 'a' as int + 10
  }

  function HexDigit(d: nat): (c: char)
    requires d < 16
    ensures IsHexDigit(c) && HexDigitValue(c) == d
  {
    if d < 10 then ('0' as int + d) as char else ('a' as int + d - 10) as char
  }

  /** The value of lower-case hexadecimal digits, most significant first. */
  function HexValue(s: string): nat
    requires forall i | 0 <= i < |s| :: IsHexDigit(s[i])
    decreases |s|
  {
    if s == [] then 0 else HexValue(s[..|s| - 1]) * 16 + HexDigitValue(s[|s| - 1])
  }

  /** The digits of a `\u{..}` escape: lower-case hexadecimal without
      leading zeros. */
  function Hex(n: nat): (s: string)
    ensures |s| > 0 && forall i | 0 <= i < |s| :: IsHexDigit(s[i])
    ensures HexValue(s) == n
    decreases n
  {
    if n < 16 then [HexDigit(n)]
    else
      var init := Hex(n / 16);
      var s := init + [HexDigit(n % 16)];
      assert s[..|s| - 1] == init;
      s
  }

  /** The characters `{:?}` writes as `\u{..}`: the C0 controls without a
      short escape, DEL and the C1 controls. */
  predicate UnicodeEscaped(c: char) {
    (c < ' ' && c != '\0' && c != '\t' && c != '\n' && c != '\r') || ('\U{7F}' <= c <= '\U{9F}')
  }

  /** `{:?}` on one character of a string: quote and backslash behind a
      backslash, the four common controls by their short escapes, the other
      control characters as `\u{hex}`, anything else as it is. */
  function EscapeChar(c: char): (r: string)
    ensures |r| >= 1 && (r[0] == '\\' <==> |r| > 1)
    ensures |r| == 1 ==> r == [c]
    ensures |r| == 2 ==> r[1] in "\"\\nrt0"
    ensures |r| > 2 <==> UnicodeEscaped(c)
    ensures UnicodeEscaped(c) ==> |r| > 4 && r[..3] == "\\u{" && r[|r| - 1] == '}' && r[3..|r| - 1] == Hex(c as nat)
  {
    if c == '"' then "\\\""
    else if c == '\\' then "\\\\"
    else if c == '\n' then "\\n"
    else if c == '\r' then "\\r"
    else if c == '\t' then "\\t"
    else if c == '\0' then "\\0"
    else if UnicodeEscaped(c) then
      var r := "\\u{" + Hex(c as nat) + "}";
      assert r[3..|r| - 1] == Hex(c as nat);
      r
    else [c]
  }

  function Escape(s: string): string
    decreases |s|
  {
    if s == [] then "" else EscapeChar(s[0]) + Escape(s[1..])
  }

  /** `{:?}` on an `Option<PathBuf>`. */
  function DebugPath(p: Option<string>): (r: string)
    ensures p.None? <==> r == "None"
    ensures p.Some? ==> |r| >= 8 && r[..6] == "Some(\"" && r[|r| - 2..] == "\")" && r[6..|r| - 2] == Escape(p.value)
  {
    match p
    case None => "None"
    case Some(s) => "Some(\"" + Escape(s) + "\")"
  }

  /** `KnownError`'s `Display`. */
  function KnownDisplay(k: KnownError): (r: string)
    ensures |r| >= 6 && r[..6] == Lead(k)
    ensures k.InvalidHeader? ==> |r| >= 16 && r[16..] == k.name
    ensures k.FilePermission? ==> |r| >= 17 && r[17..] == DebugPath(k.path)
    ensures k.FileOpen? ==> |r| >= 10 && r[10..] == DebugPath(k.path)
  {
    match k
    case InvalidHeader(name) => "invalid header: " + name
    case FilePermission(p) => "file permission: " + DebugPath(p)
    case FileOpen(p) => "file open " + DebugPath(p)
    case NotFound => "not found"
  }

  /** `Error`'s `Display`: its cause's text. */
  function ErrorDisplay(e: Error): string {
    match e.inner
    case Known(k) => KnownDisplay(k)
    case Other(t) => t
  }

  /** Two characters escape alike only if they are the same. */
  lemma EscapeCharInjective(a: char, b: char)
    requires EscapeChar(a) == EscapeChar(b)
    ensures a == b
  {
    var r := EscapeChar(a);
    if UnicodeEscaped(a) {
      assert Hex(a as nat) == r[3..|r| - 1] == Hex(b as nat);
      assert a as nat == HexValue(r[3..|r| - 1]) == b as nat;
    } else if |r| == 2 {
      assert r[1] == EscapeChar(b)[1];
    } else {
      assert r == [a] && r == [b];
    }
  }

  /** U+0001 and DEL come out as `\u{1}` and `\u{7f}`; a newline keeps its
      short escape. */
  lemma EscapeCharExamples()
    ensures EscapeChar('\U{1}') == "\\u{1}"
    ensures EscapeChar('\U{7F}') == "\\u{7f}"
    ensures EscapeChar('\n') == "\\n"
  {
    assert Hex(1) == "1";
    assert Hex(0x7F) == [HexDigit(7)] + [HexDigit(15)];
  }

  /** A `\u{..}` escape holds '}' only as its last character. */
  lemma BraceOnlyAtEnd(c: char, i: nat)
    requires UnicodeEscaped(c) && i < |EscapeChar(c)|
    ensures EscapeChar(c)[i] == '}' <==> i == |EscapeChar(c)| - 1
  {
    var r := EscapeChar(c);
    if 3 <= i < |r| - 1 {
      assert r[i] == r[3..|r| - 1][i - 3];
    } else if i < 3 {
      assert r[i] == r[..3][i];
    }
  }

  /** No escape is a proper prefix of another: a short escape is two
      characters whose second is not 'u', and a `\u{..}` escape ends at the
      first '}'. */
  lemma EscapeCharPrefixFree(a: char, b: char, x: string, y: string)
    requires EscapeChar(a) + x == EscapeChar(b) + y
    ensures EscapeChar(a) == EscapeChar(b)
  {
    var ea, eb := EscapeChar(a), EscapeChar(b);
    var w := ea + x;
    assert w[0] == ea[0] && w[0] == eb[0];
    if |ea| > 1 {
      assert w[1] == ea[1] && w[1] == eb[1];
      if |ea| > 2 {
        assert |eb| > 2;
        var k := if |ea| < |eb| then |ea| else |eb|;
        BraceOnlyAtEnd(a, k - 1);
        BraceOnlyAtEnd(b, k - 1);
        assert ea[k - 1] == w[k - 1] == eb[k - 1];
      } else {
        assert |eb| == 2;
      }
    }
    assert ea == w[..|ea|] && eb == w[..|eb|];
  }

  /** Escaping loses nothing: the escaped text determines the original. */
  lemma {:induction false} EscapeInjective(s: string, t: string)
    requires Escape(s) == Escape(t)
    ensures s == t
    decreases |s|
  {
    if s != [] && t != [] {
      var a, b := EscapeChar(s[0]), EscapeChar(t[0]);
      var x, y := Escape(s[1..]), Escape(t[1..]);
      assert a + x == b + y;
      EscapeCharPrefixFree(s[0], t[0], x, y);
      EscapeCharInjective(s[0], t[0]);
      assert x == (a + x)[|a|..] && y == (b + y)[|b|..];
      EscapeInjective(s[1..], t[1..]);
      assert s == [s[0]] + s[1..] && t == [t[0]] + t[1..];
    }
  }

  lemma DebugPathInjective(p: Option<string>, q: Option<string>)
    requires DebugPath(p) == DebugPath(q)
    ensures p == q
  {
    if p.Some? && q.Some? {
      var x, y := DebugPath(p), DebugPath(q);
      assert Escape(p.value) == x[6..|x| - 2];
      assert Escape(q.value) == y[6..|y| - 2];
      EscapeInjective(p.value, q.value);
    }
  }

  /** The first six characters of a known error's text, which tell the
      four kinds apart. */
  function Lead(k: KnownError): string {
    match k
    case InvalidHeader(_) => "invali"
    case FilePermission(_) => "file p"
    case FileOpen(_) => "file o"
    case NotFound => "not fo"
  }

  lemma LeadOfDisplay(k: KnownError)
    ensures |KnownDisplay(k)| >= 6 && KnownDisplay(k)[..6] == Lead(k)
  {
  }

  /** Different known errors display differently. */
  lemma KnownDisplayInjective(a: KnownError, b: KnownError)
    requires KnownDisplay(a) == KnownDisplay(b)
    ensures a == b
  {
    var x, y := KnownDisplay(a), KnownDisplay(b);
    if a.InvalidHeader? && b.InvalidHeader? {
      assert a.name == x[16..] && b.name == y[16..];
    } else if a.FilePermission? && b.FilePermission? {
      assert DebugPath(a.path) == x[17..] && DebugPath(b.path) == y[17..];
      DebugPathInjective(a.path, b.path);
    } else if a.FileOpen? && b.FileOpen? {
      assert DebugPath(a.path) == x[10..] && DebugPath(b.path) == y[10..];
      DebugPathInjective(a.path, b.path);
    } else if !(a.NotFound? && b.NotFound?) {
      LeadOfDisplay(a);
      LeadOfDisplay(b);
    }
  }

  /** `From<Error>` and `From<KnownError>` for `Rejection`: always the hard
      error, which displays as the error does and answers 404 unless a
      modifier changed its response. */
  function IntoRejection<R>(k: KnownError): (r: Rejections.Rejection<R, Error>)
    ensures r.Err? && r.error.response == NewResponse()
    ensures Rejections.Display(r, ErrorDisplay) == KnownDisplay(k)
  {
    Rejections.FromError(ErrorNew(Known(k)))
  }

  /** The response hyper starts from before the task runs: 500, no
      headers, empty body. */
  function Prebuilt(): HttpResponse {
    HttpResponse(500, map[], Bytes([]))
  }

  /** `ResponseFuture::poll`: an answer and a hard error's carried response
      are written back over the pre-built response; a rejection leaves it,
      so a request no task accepted gets 500, not 404. The future itself
      never fails. */
  function Respond<R>(o: CoreTasks.Outcome<Response, R, Error>, httpMethod: Method): (r: HttpResponse)
    ensures o.Ok? ==> r == WriteBack(o.value, httpMethod, Prebuilt())
    ensures o.Fail? && o.error.Err? ==> r == WriteBack(o.error.error.response, httpMethod, Prebuilt())
    ensures o.Fail? && o.error.Reject? ==> r == Prebuilt()
  {
    match o
    case Ok(resp) => WriteBack(resp, httpMethod, Prebuilt())
    case Fail(rej) => if rej.Err? then WriteBack(rej.error.response, httpMethod, Prebuilt()) else Prebuilt()
  }

  /** An unmatched request is answered 500 with an empty body, whatever the
      httpMethod; an unmodified error, from `Error::new`, is answered 404 with
      an empty body, with Content-Length 0 unless the httpMethod is HEAD; a
      status set on the error is the status answered. */
  lemma RespondStatuses<R>(req: R, c: Cause, code: nat, httpMethod: Method)
    ensures Respond<R>(Fail(CoreTasks.Reject(req)), httpMethod) == HttpResponse(500, map[], Bytes([]))
    ensures var r := Respond<R>(Fail(CoreTasks.Err(ErrorNew(c))), httpMethod);
            r.status == 404 && r.body == Bytes([])
            && (httpMethod == Head ==> r.headers == map[])
            && (httpMethod != Head ==> r.headers == map[ContentLength := "0"])
    ensures Respond<R>(Fail(CoreTasks.Err(ErrorSet(ErrorNew(c), SetStatus(code)))), httpMethod).status == code
  {
  }
}
