/** Mounting a task under a path prefix: the HTTP handler mount
    (tasks-http/src/mount.rs), the HTTP filter mount
    (tasks-http/src/filters/mount.rs) and the asset mount
    (tasks-assets/src/mount.rs). A request that starts with the mount's
    prefix continues with the prefix stripped and recorded in a `MountPath`
    list of the request; any other request is rejected untouched. Each of
    the three mounts records into its own `MountPath` type, and the
    `realpath()` filter reads only the filter mount's. Paths are
    character sequences. `Mount::new` accepts only ASCII mounts, and for an
    ASCII mount the source's byte lengths and offsets agree with character
    lengths and offsets on every path that starts with the mount; on any
    other path both readings reject. */
module Mounts {
  import opened Wrappers
  import CoreTasks
  import Rejections
  import Http

  /** The three unrelated `MountPath` types: `tasks_http::MountPath` of
      the handler mount, `tasks_http::filters::MountPath` of the filter
      mount, and the asset crate's own. A request's extensions are keyed by
      type, so each is a separate entry. */
  datatype MountKey = HandlerKey | FilterKey | AssetKey

  /** A request as far as mounting sees it: its path, the prefixes recorded
      so far under each `MountPath` type (a key is absent until the first
      mount of that kind), and everything else, which mounting never
      touches. */
  datatype Routed<X> = Routed(path: string, mounts: map<MountKey, seq<string>>, rest: X)

  /** The `MountPath` extension of one type, if the request has one. */
  function Lookup(mounts: map<MountKey, seq<string>>, key: MountKey): (r: Option<seq<string>>)
    ensures r.Some? <==> key in mounts
    ensures r.Some? ==> r.value == mounts[key]
  {
    if key in mounts then Some(mounts[key]) else None
  }

  const Unwrap := "called `Option::unwrap()` on a `None` value"

  /** `Mount::new`: a leading '/' is added when missing, then a trailing
      one. An empty path makes `chars().nth(0).unwrap()` panic. The trailing
      test asks for the character at the path's byte length less one, which
      exists only when every character is one byte, so a path holding any
      non-ASCII character panics as well. */
  function Normalize(path: string): (r: Run<string>)
    ensures r.Panic? <==> path == [] || !Http.Ascii(path)
    ensures r.Done? ==> |r.value| > 0 && r.value[0] == '/' && r.value[|r.value| - 1] == '/' && Http.Ascii(r.value)
    ensures r.Done? ==> exists lead: string, trail: string | |lead| <= 1 && |trail| <= 1 :: r.value == lead + path + trail
  {
    if path == [] then Panic(Unwrap)
    else
      var lead: string := if path[0] != '/' then "/" else "";
      var led := lead + path;
      AsciiAppend(lead, path);
      var len := |Http.Utf8(led)|;
      Http.Utf8Length(led);
      if len - 1 >= |led| then Panic(Unwrap)
      else
        var trail: string := if led[len - 1] != '/' then "/" else "";
        AsciiAppend(led, trail);
        assert led + trail == lead + path + trail;
        Done(led + trail)
  }

  lemma AsciiAppend(a: string, b: string)
    ensures Http.Ascii(a + b) <==> Http.Ascii(a) && Http.Ascii(b)
  {
    if Http.Ascii(a) && Http.Ascii(b) {
      forall i | 0 <= i < |a + b| ensures (a + b)[i] as int < 0x80 {
        if i >= |a| { assert (a + b)[i] == b[i - |a|]; }
      }
    }
    if Http.Ascii(a + b) {
      forall i | 0 <= i < |b| ensures b[i] as int < 0x80 {
        assert b[i] == (a + b)[|a| + i];
      }
      forall i | 0 <= i < |a| ensures a[i] as int < 0x80 {
        assert a[i] == (a + b)[i];
      }
    }
  }

  /** "/é" is refused with a panic, although it is not empty. */
  lemma NonAsciiMountPanics(path: string)
    requires path == "/\U{E9}"
    ensures Normalize(path).Panic?
  {
    assert !Http.Ascii(path) by { assert path[1] as int >= 0x80; }
  }

  /** Normalising a normalised path changes nothing. */
  lemma NormalizeIdempotent(path: string)
    requires Normalize(path).Done?
    ensures Normalize(Normalize(path).value) == Normalize(path)
  {
    var v := Normalize(path).value;
    var lead: string := "";
    assert lead + v == v;
    AsciiAppend(lead, v);
    Http.Utf8Length(v);
    assert (lead + v) + "" == v;
  }

  /** The mount's prefix without its trailing '/', which is what gets
      recorded in `MountPath`. */
  function Prefix(mount: string): string
    requires |mount| > 0
  {
    mount[..|mount| - 1]
  }

  /** `Mount::starts_with`: a path at least as long as the mount must start
      with it; a shorter one must start with the mount minus its trailing
      '/', which a shorter path can only do by being equal to it. */
  function StartsWith(mount: string, path: string): (r: bool)
    requires |mount| > 0
    ensures r <==> mount <= path || path == Prefix(mount)
  {
    if |path| < |mount| then Prefix(mount) <= path else mount <= path
  }

  /** For a normalised mount, a path matches exactly when it is the mount's
      directory itself or lies below it: "/test" and "/test/x" match the
      mount "/test/", "/testing" does not. */
  lemma StartsWithIsSegmentPrefix(mount: string, path: string)
    requires |mount| > 0 && mount[|mount| - 1] == '/'
    ensures StartsWith(mount, path) <==> path == Prefix(mount) || Prefix(mount) + "/" <= path
  {
    assert Prefix(mount) + "/" == mount;
  }

  lemma StartsWithExamples()
    ensures StartsWith("/test/", "/test")
    ensures StartsWith("/test/", "/test/foo")
    ensures !StartsWith("/test/", "/testing")
  {
    assert "/test/"[..5] == "/test";
    assert "/test/" <= "/test/foo" by { assert "/test/foo"[..6] == "/test/"; }
    assert "/testing"[5] == 'i';
  }

  /** `Mount::replace_path`: a path ending in '/' loses as many characters
      as the mount has, any other path one fewer, so that it keeps its
      leading '/'. A path ending in '/' that is shorter than the mount
      makes the slice start past its end, which panics. */
  function ReplacePath(mount: string, path: string): (r: Run<string>)
    requires |mount| > 0 && StartsWith(mount, path)
    ensures r.Panic? <==> |path| > 0 && path[|path| - 1] == '/' && |path| < |mount|
    ensures r.Done? && |path| > 0 && path[|path| - 1] == '/' ==> path == mount + r.value
    ensures !(|path| > 0 && path[|path| - 1] == '/') ==> r.Done? && path == Prefix(mount) + r.value
  {
    if |path| > 0 && path[|path| - 1] == '/' then
      if |path| < |mount| then Panic("byte index out of range")
      else Done(path[|mount|..])
    else Done(path[|mount| - 1..])
  }

  /** For a mount ending in '/', slicing past the end happens exactly when
      the mount ends in "//" and the path is the mount less its last '/':
      "/a/" under the mount "/a//". */
  lemma ReplacePathPanics(mount: string, path: string)
    requires |mount| > 0 && mount[|mount| - 1] == '/' && StartsWith(mount, path)
    ensures ReplacePath(mount, path).Panic? <==>
              |mount| >= 2 && mount[|mount| - 2] == '/' && path == Prefix(mount)
  {
    if |path| < |mount| {
      assert path == Prefix(mount);
    }
  }

  lemma ReplacePathPanicExample(mount: string, path: string)
    requires mount == "/a//" && path == "/a/"
    ensures Normalize(mount) == Done(mount)
    ensures StartsWith(mount, path) && ReplacePath(mount, path).Panic?
  {
    var lead: string := "";
    assert lead + mount == mount;
    assert Http.Ascii(mount);
    AsciiAppend(lead, mount);
    Http.Utf8Length(mount);
    assert mount + "" == mount;
    assert Prefix(mount) == path;
  }

  lemma ReplacePathExamples()
    ensures ReplacePath("/test/", "/test/foo") == Done("/foo")
    ensures ReplacePath("/test/", "/test/foo/") == Done("foo/")
  {
    assert "/test/" <= "/test/foo" by { assert "/test/foo"[..6] == "/test/"; }
    assert "/test/" <= "/test/foo/" by { assert "/test/foo/"[..6] == "/test/"; }
    assert "/test/foo"[5..] == "/foo";
    assert "/test/foo/"[6..] == "foo/";
  }

  /** `ensure_mount` and `MountPath::push`: the list is created when absent
      and the prefix appended. */
  function Push(mounts: Option<seq<string>>, prefix: string): (r: seq<string>)
    ensures |r| > 0 && r[|r| - 1] == prefix
    ensures mounts.Some? ==> r[..|r| - 1] == mounts.value
    ensures mounts.None? ==> r == [prefix]
  {
    match mounts
    case None => [prefix]
    case Some(ps) => ps + [prefix]
  }

  function Concat(parts: seq<string>): string
    decreases |parts|
  {
    if parts == [] then "" else Concat(parts[..|parts| - 1]) + parts[|parts| - 1]
  }

  /** `MountPath::real_path`, the same in all three types: the recorded
      prefixes in order, then the current path. */
  function MountRealPath(ps: seq<string>, path: string): (r: string)
    ensures |r| >= |path| && r[|r| - |path|..] == path
    ensures ps == [] ==> r == path
    ensures forall p | p in ps :: |p| <= |r| - |path|
  {
    ConcatBounds(ps);
    Concat(ps) + path
  }

  lemma {:induction false} ConcatBounds(ps: seq<string>)
    ensures forall p | p in ps :: |p| <= |Concat(ps)|
    decreases |ps|
  {
    if ps != [] {
      ConcatBounds(ps[..|ps| - 1]);
      forall p | p in ps ensures |p| <= |Concat(ps)| {
        if p != ps[|ps| - 1] {
          assert p in ps[..|ps| - 1];
        }
      }
    }
  }

  /** The `realpath()` filter: the real path of the filter mount's
      `MountPath`, or the plain path when the request has none. Prefixes
      the handler mount or the asset mount recorded are not seen. */
  function RealPath<X>(req: Routed<X>): (r: string)
    ensures FilterKey !in req.mounts ==> r == req.path
    ensures FilterKey in req.mounts ==> r == MountRealPath(req.mounts[FilterKey], req.path)
  {
    match Lookup(req.mounts, FilterKey)
    case None => req.path
    case Some(ps) => MountRealPath(ps, req.path)
  }

  /** The `realpath()` filter does not look at the other two `MountPath`
      types: changing them changes nothing. */
  lemma RealPathIgnoresOtherMounts<X>(req: Routed<X>, key: MountKey, ps: seq<string>)
    requires key != FilterKey
    ensures RealPath(req.(mounts := req.mounts[key := ps])) == RealPath(req)
  {
    assert Lookup(req.mounts[key := ps], FilterKey) == Lookup(req.mounts, FilterKey);
  }

  /** `Url::set_path` on an http(s) URL: the path of a URL with a special
      scheme always starts with '/', so one is prepended when missing. */
  function SetPath(p: string): (r: string)
    ensures |r| > 0 && r[0] == '/'
    ensures |p| > 0 && p[0] == '/' ==> r == p
  {
    if |p| > 0 && p[0] == '/' then p else "/" + p
  }

  /** The request a matching HTTP mount passes on, with the prefix pushed
      onto the `MountPath` of `key` and every other entry untouched; or the
      panic of `replace_path`. */
  function HttpMounted<X>(key: MountKey, mount: string, req: Routed<X>): (r: Run<Routed<X>>)
    requires |mount| > 0 && StartsWith(mount, req.path)
    ensures r.Panic? <==> ReplacePath(mount, req.path).Panic?
    ensures r.Done? ==> r.value.rest == req.rest && r.value.mounts.Keys == req.mounts.Keys + {key}
    ensures r.Done? ==> r.value.mounts[key] == Push(Lookup(req.mounts, key), Prefix(mount))
    ensures r.Done? ==> forall k | k in req.mounts && k != key :: r.value.mounts[k] == req.mounts[k]
    ensures r.Done? ==> r.value.path == SetPath(ReplacePath(mount, req.path).value)
  {
    match ReplacePath(mount, req.path)
    case Panic(m) => Panic(m)
    case Done(p) => Done(Routed(SetPath(p), req.mounts[key := Push(Lookup(req.mounts, key), Prefix(mount))], req.rest))
  }

  /** `Mount::run` (tasks-http/src/mount.rs): a match runs the inner task
      on the rewritten request, with the prefix recorded in
      `tasks_http::MountPath`; anything else is rejected untouched. */
  function HttpMount<X, O, E>(mount: string, task: CoreTasks.Task<Routed<X>, O, E>, req: Routed<X>): (r: Run<CoreTasks.Outcome<O, Routed<X>, E>>)
    requires |mount| > 0
    ensures !StartsWith(mount, req.path) ==> r == Done(Fail(CoreTasks.Reject(req)))
    ensures StartsWith(mount, req.path) ==> (r.Panic? <==> HttpMounted(HandlerKey, mount, req).Panic?)
    ensures StartsWith(mount, req.path) && r.Done? ==> r.value == task(HttpMounted(HandlerKey, mount, req).value)
  {
    if !StartsWith(mount, req.path) then Done(Fail(CoreTasks.Reject(req)))
    else
      match HttpMounted(HandlerKey, mount, req)
      case Panic(m) => Panic(m)
      case Done(q) => Done(task(q))
  }

  /** The filter `Mount::run` (tasks-http/src/filters/mount.rs): the same
      test and rewrite, recorded in `tasks_http::filters::MountPath`, with an
      empty extract instead of an inner task. */
  function FilterMount<X, V, E>(mount: string, req: Routed<X>): (r: Run<CoreTasks.Outcome<(Routed<X>, seq<V>), Routed<X>, E>>)
    requires |mount| > 0
    ensures r.Done? && r.value.Ok? <==> StartsWith(mount, req.path) && HttpMounted(FilterKey, mount, req).Done?
    ensures r.Done? && r.value.Ok? ==> r.value.value == (HttpMounted(FilterKey, mount, req).value, [])
    ensures r.Done? && r.value.Fail? ==> r.value == Fail(CoreTasks.Reject(req))
    ensures r.Panic? ==> StartsWith(mount, req.path) && HttpMounted(FilterKey, mount, req).Panic?
  {
    if !StartsWith(mount, req.path) then Done(Fail(CoreTasks.Reject(req)))
    else
      match HttpMounted(FilterKey, mount, req)
      case Panic(m) => Panic(m)
      case Done(q) => Done(Ok((q, [])))
  }

  lemma ConcatSnoc(parts: seq<string>, p: string)
    ensures Concat(parts + [p]) == Concat(parts) + p
  {
    assert (parts + [p])[..|parts|] == parts;
  }

  /** The prefixes recorded before a mount, joined. */
  function Recorded(mounts: Option<seq<string>>): string {
    match mounts
    case None => ""
    case Some(ps) => Concat(ps)
  }

  /** Pushing a prefix appends it to the joined prefixes. */
  lemma PushRecorded(mounts: Option<seq<string>>, prefix: string)
    ensures Concat(Push(mounts, prefix)) == Recorded(mounts) + prefix
  {
    match mounts {
      case None =>
        ConcatSnoc([], prefix);
        assert [] + [prefix] == [prefix];
      case Some(ps) => ConcatSnoc(ps, prefix);
    }
  }

  /** Behind a pushed prefix the real path is the prefixes recorded
      before, the pushed one, and the current path. */
  lemma RealPathPushed(mounts: Option<seq<string>>, prefix: string, path: string)
    ensures MountRealPath(Push(mounts, prefix), path) == Recorded(mounts) + (prefix + path)
  {
    PushRecorded(mounts, prefix);
  }

  /** The mount's prefix followed by the path the HTTP mount passes on is
      the original path, under the conditions of `HttpRealPathRestores`. */
  lemma HttpPathRejoins(mount: string, path: string)
    requires |mount| > 0 && mount[|mount| - 1] == '/' && StartsWith(mount, path)
    requires path != Prefix(mount)
    requires |path| > |mount| && path[|path| - 1] == '/' ==> path[|mount|] != '/'
    ensures ReplacePath(mount, path).Done? && Prefix(mount) + SetPath(ReplacePath(mount, path).value) == path
  {
    assert Prefix(mount) + "/" == mount;
    assert |path| >= |mount| by {
      StartsWithIsSegmentPrefix(mount, path);
    }
    var r := ReplacePath(mount, path).value;
    if |path| > 0 && path[|path| - 1] == '/' {
      assert mount <= path;
      if |path| == |mount| {
        assert r == [];
      } else {
        assert r[0] == path[|mount|];
        assert Prefix(mount) + ("/" + r) == mount + r;
      }
    } else {
      assert mount <= path;
      assert r[0] == path[|mount| - 1] == mount[|mount| - 1];
    }
  }

  /** Behind the filter mount the `realpath()` filter answers the
      request's original real path, except that the mount's directory asked
      for without its '/' comes back with one, and a path with an empty
      segment right after the mount loses that segment. */
  lemma HttpRealPathRestores<X, V, E>(mount: string, req: Routed<X>)
    requires |mount| > 0 && mount[|mount| - 1] == '/' && StartsWith(mount, req.path)
    requires req.path != Prefix(mount)
    requires |req.path| > |mount| && req.path[|req.path| - 1] == '/' ==> req.path[|mount|] != '/'
    ensures var r := FilterMount<X, V, E>(mount, req);
            r.Done? && r.value.Ok? && RealPath(r.value.value.0) == RealPath(req)
  {
    HttpPathRejoins(mount, req.path);
    var q := HttpMounted(FilterKey, mount, req).value;
    RealPathPushed(Lookup(req.mounts, FilterKey), Prefix(mount), q.path);
  }

  /** Behind the handler mount, `tasks_http::MountPath::real_path` gives
      the prefixes that mount recorded before, then the original path, with
      the same two exceptions. */
  lemma HandlerRealPathRestores<X>(mount: string, req: Routed<X>)
    requires |mount| > 0 && mount[|mount| - 1] == '/' && StartsWith(mount, req.path)
    requires req.path != Prefix(mount)
    requires |req.path| > |mount| && req.path[|req.path| - 1] == '/' ==> req.path[|mount|] != '/'
    ensures var r := HttpMounted(HandlerKey, mount, req);
            r.Done? && MountRealPath(r.value.mounts[HandlerKey], r.value.path) == Recorded(Lookup(req.mounts, HandlerKey)) + req.path
  {
    HttpPathRejoins(mount, req.path);
    var q := HttpMounted(HandlerKey, mount, req).value;
    RealPathPushed(Lookup(req.mounts, HandlerKey), Prefix(mount), q.path);
  }

  /** The handler mount records nothing the `realpath()` filter reads:
      behind it, that filter sees only the prefixes of earlier filter mounts
      and the stripped path. */
  lemma HandlerMountHiddenFromRealPath<X>(mount: string, req: Routed<X>)
    requires |mount| > 0 && StartsWith(mount, req.path)
    ensures var r := HttpMounted(HandlerKey, mount, req);
            r.Done? ==> RealPath(r.value) == Recorded(Lookup(req.mounts, FilterKey)) + r.value.path
  {
    var r := HttpMounted(HandlerKey, mount, req);
    if r.Done? {
      assert Lookup(r.value.mounts, FilterKey) == Lookup(req.mounts, FilterKey);
    }
  }

  /** "/a/x" under the handler mount "/a/": `realpath()` answers "/x",
      while the handler's own real path is "/a/x". */
  lemma HandlerMountExample<X>(rest: X)
    ensures var q := HttpMounted(HandlerKey, "/a/", Routed("/a/x", map[], rest));
            q.Done? && RealPath(q.value) == "/x" &&
            MountRealPath(q.value.mounts[HandlerKey], q.value.path) == "/a/x"
  {
    assert "/a/" <= "/a/x";
    assert ReplacePath("/a/", "/a/x") == Done("/x") by { assert "/a/x"[2..] == "/x"; }
    assert Prefix("/a/") == "/a";
    var none: map<MountKey, seq<string>> := map[];
    assert Lookup(none, HandlerKey) == None;
    assert none[HandlerKey := ["/a"]] == map[HandlerKey := ["/a"]];
    var q := HttpMounted(HandlerKey, "/a/", Routed("/a/x", map[], rest));
    assert q == Done(Routed("/x", map[HandlerKey := ["/a"]], rest));
    assert FilterKey !in q.value.mounts;
    assert Concat(["/a"]) == "/a" by { ConcatSnoc([], "/a"); }
  }

  /** After the filter mount "/a/" and then the handler mount "/b/",
      "/a/b/x" has the `realpath()` "/a/x" and the handler real path
      "/b/x": neither sees the other's prefix. */
  lemma MixedMountsExample<X>(rest: X)
    ensures var f := HttpMounted(FilterKey, "/a/", Routed("/a/b/x", map[], rest));
            f.Done? &&
            var h := HttpMounted(HandlerKey, "/b/", f.value);
            h.Done? && RealPath(h.value) == "/a/x" &&
            MountRealPath(h.value.mounts[HandlerKey], h.value.path) == "/b/x"
  {
    var m1 := map[FilterKey := ["/a"]];
    FilterMountStep(rest);
    HandlerMountStep(m1, rest);
    var m2 := m1[HandlerKey := ["/b"]];
    assert Lookup(m2, FilterKey) == Some(["/a"]);
    assert Concat(["/a"]) == "/a" by { ConcatSnoc([], "/a"); }
    assert Concat(["/b"]) == "/b" by { ConcatSnoc([], "/b"); }
  }

  lemma FilterMountStep<X>(rest: X)
    ensures HttpMounted(FilterKey, "/a/", Routed("/a/b/x", map[], rest)) == Done(Routed("/b/x", map[FilterKey := ["/a"]], rest))
  {
    assert "/a/" <= "/a/b/x";
    assert ReplacePath("/a/", "/a/b/x") == Done("/b/x") by { assert "/a/b/x"[2..] == "/b/x"; }
    assert Prefix("/a/") == "/a";
    var none: map<MountKey, seq<string>> := map[];
    assert Lookup(none, FilterKey) == None;
    assert none[FilterKey := ["/a"]] == map[FilterKey := ["/a"]];
  }

  lemma HandlerMountStep<X>(m: map<MountKey, seq<string>>, rest: X)
    requires m == map[FilterKey := ["/a"]]
    ensures HttpMounted(HandlerKey, "/b/", Routed("/b/x", m, rest)) == Done(Routed("/x", m[HandlerKey := ["/b"]], rest))
  {
    assert "/b/" <= "/b/x";
    assert ReplacePath("/b/", "/b/x") == Done("/x") by { assert "/b/x"[2..] == "/x"; }
    assert Prefix("/b/") == "/b";
    assert Lookup(m, HandlerKey) == None;
  }

  /** The request a matching asset mount passes on: the stripped path is
      a plain string, kept as it is; or the panic of `replace_path`. */
  function AssetMounted<X>(mount: string, req: Routed<X>): (r: Run<Routed<X>>)
    requires |mount| > 0 && StartsWith(mount, req.path)
    ensures r.Panic? <==> ReplacePath(mount, req.path).Panic?
    ensures r.Done? ==> r.value.rest == req.rest && r.value.mounts == req.mounts[AssetKey := Push(Lookup(req.mounts, AssetKey), Prefix(mount))]
    ensures r.Done? ==> r.value.path == ReplacePath(mount, req.path).value
  {
    match ReplacePath(mount, req.path)
    case Panic(m) => Panic(m)
    case Done(p) => Done(Routed(p, req.mounts[AssetKey := Push(Lookup(req.mounts, AssetKey), Prefix(mount))], req.rest))
  }

  /** The mount's prefix followed by the path the asset mount passes on:
      the original path, less the '/' after the prefix when the path ends in
      '/'. */
  lemma AssetPathRejoins(mount: string, path: string)
    requires |mount| > 0 && StartsWith(mount, path)
    ensures ReplacePath(mount, path).Done? ==>
              Prefix(mount) + ReplacePath(mount, path).value ==
                if |path| > 0 && path[|path| - 1] == '/'
                then path[..|mount| - 1] + path[|mount|..]
                else path
  {
    if ReplacePath(mount, path).Done? && |path| > 0 && path[|path| - 1] == '/' {
      assert mount <= path;
      assert path[..|mount| - 1] == Prefix(mount);
    }
  }

  /** Behind an asset mount the asset `MountPath::real_path` is the
      original path, after the prefixes asset mounts recorded before, when
      that path does not end in '/'; one that does loses the '/' after the
      prefix. */
  lemma AssetRealPath<X>(mount: string, req: Routed<X>)
    requires |mount| > 0 && StartsWith(mount, req.path)
    ensures var path, r := req.path, AssetMounted(mount, req);
            var before := Recorded(Lookup(req.mounts, AssetKey));
            r.Done? ==>
              MountRealPath(r.value.mounts[AssetKey], r.value.path) ==
                if |path| > 0 && path[|path| - 1] == '/'
                then before + path[..|mount| - 1] + path[|mount|..]
                else before + path
  {
    var path := req.path;
    if AssetMounted(mount, req).Done? {
      var q := AssetMounted(mount, req).value;
      RealPathPushed(Lookup(req.mounts, AssetKey), Prefix(mount), q.path);
      AssetPathRejoins(mount, path);
      if |path| > 0 && path[|path| - 1] == '/' {
        var pre, a, b := Recorded(Lookup(req.mounts, AssetKey)), path[..|mount| - 1], path[|mount|..];
        assert pre + (a + b) == pre + a + b;
      }
    }
  }

  /** `Mount::run` with `MountFuture::poll` (tasks-assets/src/mount.rs): an
      inner rejection gets the original path back; everything else the
      inner task left in the request, the recorded prefix included, stays. */
  function AssetMount<X, O, E>(mount: string, task: Routed<X> -> Rejections.Outcome<O, Routed<X>, E>, req: Routed<X>): (r: Run<Rejections.Outcome<O, Routed<X>, E>>)
    requires |mount| > 0
    ensures !StartsWith(mount, req.path) ==> r == Done(Fail(Rejections.Reject(req, None)))
    ensures StartsWith(mount, req.path) ==> (r.Panic? <==> AssetMounted(mount, req).Panic?)
    ensures StartsWith(mount, req.path) && r.Done? && r.value.Fail? && r.value.error.Reject? ==>
              var inner := task(AssetMounted(mount, req).value);
              inner.Fail? && inner.error.Reject?
              && r.value.error == Rejections.Reject(inner.error.request.(path := req.path), inner.error.cause)
    ensures StartsWith(mount, req.path) && r.Done? && (r.value.Ok? || r.value.error.Err?) ==>
              r.value == task(AssetMounted(mount, req).value)
  {
    if !StartsWith(mount, req.path) then Done(Fail(Rejections.Reject(req, None)))
    else
      match AssetMounted(mount, req)
      case Panic(m) => Panic(m)
      case Done(q) =>
        match task(q)
        case Ok(o) => Done(Ok(o))
        case Fail(rej) =>
          if rej.Err? then Done(Fail(rej))
          else Done(Fail(Rejections.Reject(rej.request.(path := req.path), rej.cause)))
  }

  /** When the inner task rejects with the request it was given, the
      rejection carries the original path and the prefix the mount pushed:
      the prefix is not popped. */
  lemma AssetRejectKeepsPrefix<X, O, E>(mount: string, task: Routed<X> -> Rejections.Outcome<O, Routed<X>, E>, req: Routed<X>, cause: Option<E>)
    requires |mount| > 0 && StartsWith(mount, req.path) && AssetMounted(mount, req).Done?
    requires task(AssetMounted(mount, req).value) == Fail(Rejections.Reject(AssetMounted(mount, req).value, cause))
    ensures AssetMount(mount, task, req) ==
              Done(Fail(Rejections.Reject(Routed(req.path, req.mounts[AssetKey := Push(Lookup(req.mounts, AssetKey), Prefix(mount))], req.rest), cause)))
  {
  }
}
