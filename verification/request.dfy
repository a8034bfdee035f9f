/** `Request::from_http` (tasks-http/src/request.rs): the absolute URL the
    crate builds for every incoming request, from the URI's authority, the
    Host header or, for HTTP/1.0 and older, the local address. The string is
    then parsed by the `url` crate, which is not part of this model. */
module Requests {
  import opened Wrappers
  import Decimal
  import Text

  /** The server's protocol and its `Display` (tasks-http/src/server.rs). */
  datatype Protocol = Plain | Tls | Unix

  function Scheme(p: Protocol): string {
    match p
    case Plain => "http"
    case Tls => "https"
    case Unix => "file"
  }

  datatype Version = Http09 | Http10 | Http11 | Http2 | Http3

  predicate BelowHttp11(v: Version) {
    v == Http09 || v == Http10
  }

  /** A local socket address. An IPv6 address is given by the text its
      `Display` writes. */
  datatype SocketAddr = V4(a: nat, b: nat, c: nat, d: nat, port: nat) | V6(text: string, port: nat)

  predicate ValidAddr(s: SocketAddr) {
    s.port <= Decimal.U16Max && (s.V4? ==> s.a < 256 && s.b < 256 && s.c < 256 && s.d < 256)
  }

  /** The parts of the request URI the URL is built from. */
  datatype Uri = Uri(host: Option<string>, port: Option<nat>, path: string, query: Option<string>)

  /** The host text of a local address: dotted decimal for IPv4, the
      address in brackets for IPv6. */
  function LocalHost(s: SocketAddr): string {
    match s
    case V4(a, b, c, d, _) =>
      Decimal.Format(a) + "." + Decimal.Format(b) + "." + Decimal.Format(c) + "." + Decimal.Format(d)
    case V6(text, _) => "[" + text + "]"
  }

  /** A Host header split at ':': the host is the text before the first
      ':', the port the text between the first and a second ':', if it
      parses as a `u16`. */
  function HostHeader(h: string): (r: (string, Option<nat>))
    ensures Text.Free(r.0, ':') && r.0 <= h
    ensures r.1.Some? ==> r.1.value <= Decimal.U16Max
  {
    var parts := Text.Split(h, ':');
    Text.SplitPiecesFree(h, ':');
    HeadPieceIsPrefix(h, ':');
    (parts[0], if |parts| > 1 then Decimal.Parse(parts[1], Decimal.U16Max) else None)
  }

  lemma {:induction false} HeadPieceIsPrefix(s: string, d: char)
    ensures Text.Split(s, d)[0] <= s
    decreases |s|
  {
    if s != [] {
      HeadPieceIsPrefix(s[1..], d);
    }
  }

  /** The host and port chosen: the URI's authority first, then the Host
      header, then, below HTTP/1.1, the local address; with none of these
      the code panics. `hostHeader` is the Host header as `to_str().ok()`
      reads it: `None` also stands for a Host header that is not visible
      ASCII, which falls through to the local address or the panic just as
      a missing one does. */
  function HostPort(uri: Uri, hostHeader: Option<string>, version: Version, local: Option<SocketAddr>): (r: Run<(string, Option<nat>)>)
    ensures uri.host.Some? ==> r == Done((uri.host.value, uri.port))
    ensures uri.host.None? && hostHeader.Some? ==> r == Done(HostHeader(hostHeader.value))
    ensures uri.host.None? && hostHeader.None? && BelowHttp11(version) && local.Some? ==>
              r == Done((LocalHost(local.value), Some(local.value.port)))
    ensures r.Panic? <==> uri.host.None? && hostHeader.None? && (!BelowHttp11(version) || local.None?)
  {
    if uri.host.Some? then Done((uri.host.value, uri.port))
    else if hostHeader.Some? then Done(HostHeader(hostHeader.value))
    else if BelowHttp11(version) then
      if local.Some? then Done((LocalHost(local.value), Some(local.value.port)))
      else Panic("No fallback host specified")
    else Panic("No host specified in request")
  }

  /** The authority: the host, then ':' and the port when there is one. */
  function Authority(host: string, port: Option<nat>): string {
    match port
    case Some(n) => host + ":" + Decimal.Format(n)
    case None => host
  }

  /** What follows the authority: the path, then '?' and the query when
      there is one. */
  function Tail(path: string, query: Option<string>): string {
    match query
    case Some(q) => path + "?" + q
    case None => path
  }

  /** The URL text: the scheme and "://", the authority, and the tail, each
      to be found in its place. */
  function UrlString(p: Protocol, host: string, port: Option<nat>, path: string, query: Option<string>): (r: string)
    ensures var lead := Scheme(p) + "://";
            var tail := Tail(path, query);
            |r| >= |lead| + |tail| && r[..|lead|] == lead && r[|r| - |tail|..] == tail
            && r[|lead|..|r| - |tail|] == Authority(host, port)
  {
    var lead := Scheme(p) + "://";
    var r := lead + Authority(host, port) + Tail(path, query);
    assert r[..|lead|] == lead;
    assert r[|lead|..|r| - |Tail(path, query)|] == Authority(host, port);
    r
  }

  /** The URL string of a request, or the panic when it names no host. */
  function FromHttp(p: Protocol, uri: Uri, hostHeader: Option<string>, version: Version, local: Option<SocketAddr>): (r: Run<string>)
    ensures r.Panic? <==> HostPort(uri, hostHeader, version, local).Panic?
    ensures r.Done? ==> r.value == UrlString(p, HostPort(uri, hostHeader, version, local).value.0,
                                            HostPort(uri, hostHeader, version, local).value.1, uri.path, uri.query)
  {
    match HostPort(uri, hostHeader, version, local)
    case Done((host, port)) => Done(UrlString(p, host, port, uri.path, uri.query))
    case Panic(msg) => Panic(msg)
  }

  /** A host in the URI's authority wins: the Host header, the version and
      the local address are then irrelevant. */
  lemma AuthorityWins(p: Protocol, uri: Uri, h1: Option<string>, h2: Option<string>, v1: Version, v2: Version, l1: Option<SocketAddr>, l2: Option<SocketAddr>)
    requires uri.host.Some?
    ensures FromHttp(p, uri, h1, v1, l1) == FromHttp(p, uri, h2, v2, l2)
    ensures FromHttp(p, uri, h1, v1, l1).Done?
  {
  }

  /** A Host header of a host without ':' and a port gives that host and
      port back; without a port it gives the host and no port. */
  lemma HostHeaderRoundTrip(host: string, port: nat)
    requires Text.Free(host, ':') && port <= Decimal.U16Max
    ensures HostHeader(host + ":" + Decimal.Format(port)) == (host, Some(port))
    ensures HostHeader(host) == (host, None)
  {
    var digits := Decimal.Format(port);
    assert Text.Free(digits, ':') by {
      forall i | 0 <= i < |digits| ensures digits[i] != ':' {
        assert Decimal.IsDigit(digits[i]);
      }
    }
    Text.SplitAppend(host, digits, ':');
    Text.SplitFree(host, ':');
    Text.SplitFree(digits, ':');
    assert host + ":" + digits == host + [':'] + digits;
    Decimal.ParseFormat(port, Decimal.U16Max);
  }

  /** A header whose host is followed by two colons has an empty port
      piece, so no port. */
  lemma EmptyPortPiece(a: string, b: string)
    requires Text.Free(a, ':')
    ensures HostHeader(a + [':'] + ([':'] + b)) == (a, None)
  {
    Text.SplitAppend(a, [':'] + b, ':');
    Text.SplitFree(a, ':');
    Text.SplitCons(':', b, ':');
    assert Decimal.Parse("", Decimal.U16Max).None?;
  }

  /** A bracketed IPv6 host is cut at its first ':': "[::1]:8080" gives the
      host "[" and no port. */
  lemma BracketedHostSplitsWrongly()
    ensures HostHeader("[::1]:8080") == ("[", None)
  {
    assert "[::1]:8080" == "[" + [':'] + ([':'] + "1]:8080");
    EmptyPortPiece("[", "1]:8080");
  }

  /** Without a host in the URI or a Host header, an HTTP/1.0 request is
      given the local address as its authority. */
  lemma LocalFallbackShape(p: Protocol, path: string, local: SocketAddr)
    ensures FromHttp(p, Uri(None, None, path, None), None, Http10, Some(local))
              == Done(Scheme(p) + "://" + (LocalHost(local) + ":" + Decimal.Format(local.port)) + path)
  {
  }

  lemma LoopbackHost(local: SocketAddr)
    requires local == V4(127, 0, 0, 1, 8080)
    ensures LocalHost(local) == "127.0.0.1"
    ensures Decimal.Format(local.port) == "8080"
  {
    LoopbackText();
  }

  /** A HTTP/1.0 request without host, on a server bound to 127.0.0.1:8080,
      is given the URL "http://127.0.0.1:8080/index.html". */
  lemma LocalFallbackExample(local: SocketAddr, path: string)
    requires local == V4(127, 0, 0, 1, 8080) && path == "/index.html"
    ensures FromHttp(Plain, Uri(None, None, path, None), None, Http10, Some(local))
              == Done("http://127.0.0.1:8080/index.html")
  {
    LocalFallbackShape(Plain, path, local);
    LoopbackHost(local);
    LoopbackUrlText(Scheme(Plain), LocalHost(local), Decimal.Format(local.port), path);
  }

  lemma LoopbackUrlText(scheme: string, host: string, port: string, path: string)
    requires scheme == "http" && host == "127.0.0.1" && port == "8080" && path == "/index.html"
    ensures scheme + "://" + (host + ":" + port) + path == "http://127.0.0.1:8080/index.html"
  {
  }

  lemma LoopbackText()
    ensures Decimal.Format(127) == "127" && Decimal.Format(0) == "0" && Decimal.Format(1) == "1"
    ensures Decimal.Format(8080) == "8080"
  {
    assert Decimal.DigitChar(0) == '0' && Decimal.DigitChar(1) == '1' && Decimal.DigitChar(2) == '2';
    assert Decimal.DigitChar(7) == '7' && Decimal.DigitChar(8) == '8';
    assert Decimal.Format(12) == "12";
    assert Decimal.Format(80) == "80";
    assert Decimal.Format(808) == "808";
  }
}
