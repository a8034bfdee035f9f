/** `sanitize_path` of the directory handler (tasks-http/src/handlers/dir.rs):
    the decoded URL path is split into segments, each appended to the base
    directory the way `PathBuf::push` appends on Unix, and a segment that
    could climb out of the base or smuggle a Windows separator fails the
    whole request with NotFound. Percent-decoding is done by the
    `urlencoding` crate and is given here by its result. */
module DirHandler {
  import opened Wrappers
  import Text
  import Http

  /** `PathBuf::push` on Unix: an absolute path replaces the buffer;
      otherwise a separator is added unless the buffer is empty or already
      ends with one, then the path. */
  function Push(buf: string, p: string): (r: string)
    ensures |p| > 0 && p[0] == '/' ==> r == p
    ensures !(|p| > 0 && p[0] == '/') ==> |r| >= |buf| + |p| && r[..|buf|] == buf && r[|r| - |p|..] == p
    ensures !(|p| > 0 && p[0] == '/') ==> |r| - |buf| - |p| == (if buf != [] && buf[|buf| - 1] != '/' then 1 else 0)
  {
    if |p| > 0 && p[0] == '/' then p
    else if buf != [] && buf[|buf| - 1] != '/' then buf + "/" + p
    else buf + p
  }

  /** A segment starting with ".." (so "...x" too) or holding a
      backslash is refused. */
  predicate Refused(seg: string) {
    (|seg| >= 2 && seg[..2] == "..") || '\\' in seg
  }

  /** Some segment is refused. */
  predicate AnyRefused(segs: seq<string>) {
    exists i | 0 <= i < |segs| :: Refused(segs[i])
  }

  function NotFound(): Http.Error {
    Http.ErrorNew(Http.Known(Http.NotFound))
  }

  /** The segments pushed in order onto `buf`, failing at the first refused
      one. */
  function PushAll(buf: string, segs: seq<string>): (r: Result<string, Http.Error>)
    ensures r.Fail? <==> AnyRefused(segs)
    ensures r.Fail? ==> r.error == NotFound()
    decreases |segs|
  {
    if segs == [] then Ok(buf)
    else if Refused(segs[0]) then Fail(NotFound())
    else
      var r := PushAll(Push(buf, segs[0]), segs[1..]);
      assert AnyRefused(segs) <==> AnyRefused(segs[1..]) by {
        assert forall i | 1 <= i < |segs| :: segs[i] == segs[1..][i - 1];
      }
      r
  }

  /** `sanitize_path`, given what percent-decoding the tail gave: a tail
      that does not decode fails with NotFound, and so does one with a
      refused segment; otherwise the segments are pushed onto the base. */
  function SanitizePath(base: string, decoded: Option<string>): (r: Result<string, Http.Error>)
    ensures decoded.None? ==> r == Fail(NotFound())
    ensures r.Fail? ==> r.error == NotFound()
    ensures decoded.Some? ==> (r.Fail? <==> AnyRefused(Text.Split(decoded.value, '/')))
  {
    match decoded
    case None => Fail(NotFound())
    case Some(p) => PushAll(base, Text.Split(p, '/'))
  }

  /** `buf` extends `base`, and every piece between separators of what
      was added is empty or one of the segments. */
  predicate Under(base: string, buf: string, segs: seq<string>) {
    |base| <= |buf| && buf[..|base|] == base
    && forall c | c in Text.Split(buf[|base|..], '/') :: c == "" || c in segs
  }

  /** One push of a segment without separators keeps the buffer under the
      base. */
  lemma PushUnder(base: string, buf: string, seg: string, segs: seq<string>)
    requires Under(base, buf, segs) && seg in segs && Text.Free(seg, '/')
    ensures Under(base, Push(buf, seg), segs)
  {
    var r := Push(buf, seg);
    var suffix := buf[|base|..];
    assert buf == base + suffix;
    Text.SplitFree(seg, '/');
    if buf != [] && buf[|buf| - 1] != '/' {
      assert r == base + (suffix + ['/'] + seg);
      assert r[|base|..] == suffix + ['/'] + seg;
      Text.SplitAppend(suffix, seg, '/');
    } else if suffix == [] {
      assert r == base + seg;
      assert r[|base|..] == seg;
    } else {
      var x := suffix[..|suffix| - 1];
      assert suffix == x + ['/'] + [];
      assert r == base + (x + ['/'] + seg);
      assert r[|base|..] == x + ['/'] + seg;
      Text.SplitAppend(x, seg, '/');
      Text.SplitAppend(x, [], '/');
      assert forall c | c in Text.Split(x, '/') :: c in Text.Split(suffix, '/');
    }
  }

  lemma {:induction false} PushAllUnder(base: string, buf: string, segs: seq<string>, all: seq<string>)
    requires Under(base, buf, all)
    requires forall i | 0 <= i < |segs| :: segs[i] in all && Text.Free(segs[i], '/')
    ensures PushAll(buf, segs).Ok? ==> Under(base, PushAll(buf, segs).value, all)
    decreases |segs|
  {
    if segs != [] && !Refused(segs[0]) {
      PushUnder(base, buf, segs[0], all);
      PushAllUnder(base, Push(buf, segs[0]), segs[1..], all);
    }
  }

  /** A sanitized path lies under the base: it starts with the base, and
      every component added after it is one of the decoded segments, none
      of which starts with "..", so the path cannot climb out of the
      base. */
  lemma SanitizedStaysUnderBase(base: string, decoded: string)
    ensures var r := SanitizePath(base, Some(decoded));
            r.Ok? ==> |base| <= |r.value| && r.value[..|base|] == base
                      && forall c | c in Text.Split(r.value[|base|..], '/') ::
                           c == "" || (c in Text.Split(decoded, '/') && !Refused(c))
  {
    var segs := Text.Split(decoded, '/');
    Text.SplitPiecesFree(decoded, '/');
    assert Under(base, base, segs) by {
      assert base[|base|..] == [];
    }
    PushAllUnder(base, base, segs, segs);
    var r := SanitizePath(base, Some(decoded));
    if r.Ok? {
      forall c | c in Text.Split(r.value[|base|..], '/') && c != ""
        ensures !Refused(c)
      {
        var i :| 0 <= i < |segs| && segs[i] == c;
      }
    }
  }

  /** The segments of "/a/b", for segments without separators: an empty
      one, then `a` and `b`. */
  lemma TwoSegments(a: string, b: string)
    requires Text.Free(a, '/') && Text.Free(b, '/')
    ensures Text.Split([] + ['/'] + (a + ['/'] + b), '/') == ["", a, b]
  {
    Text.SplitAppend([], a + ['/'] + b, '/');
    Text.SplitAppend(a, b, '/');
    Text.SplitFree(a, '/');
    Text.SplitFree(b, '/');
    Text.SplitFree([], '/');
  }

  /** The three pushes behind `PushTwo`, one separator each. */
  lemma PushTwoSteps(base: string, a: string, b: string)
    requires base != [] && base[|base| - 1] != '/'
    requires a != [] && a[0] != '/' && a[|a| - 1] != '/' && b != [] && b[0] != '/'
    ensures Push(base, "") == base + "/"
    ensures Push(base + "/", a) == base + "/" + a
    ensures Push(base + "/" + a, b) == base + "/" + a + "/" + b
  {
    assert base + "/" + "" == base + "/";
    var b1 := base + "/";
    assert b1[|b1| - 1] == '/';
    var b2 := b1 + a;
    assert b2[|b2| - 1] == a[|a| - 1];
  }

  /** Pushing "", `a` and `b` onto a base without a trailing separator
      joins them with single separators. */
  lemma PushTwo(base: string, a: string, b: string)
    requires base != [] && base[|base| - 1] != '/'
    requires a != [] && a[0] != '/' && a[|a| - 1] != '/' && b != [] && b[0] != '/'
    requires !Refused(a) && !Refused(b)
    ensures PushAll(base, ["", a, b]) == Ok(base + "/" + a + "/" + b)
  {
    PushTwoSteps(base, a, b);
    var b1 := base + "/";
    var b2 := b1 + a;
    var b3 := b2 + "/" + b;
    assert PushAll(b2, [b]) == Ok(b3) by {
      assert [b][1..] == [];
    }
    assert PushAll(b1, [a, b]) == Ok(b3) by {
      assert [a, b][1..] == [b];
    }
    assert !Refused("");
    assert ["", a, b][1..] == [a, b];
  }

  /** A decoded tail "/a/b" under the base "/srv" gives "/srv/a/b": the
      leading empty segment adds the separator, the others follow it. */
  lemma SanitizeExample(base: string, decoded: string)
    requires base == "/srv" && decoded == "/a/b"
    ensures SanitizePath(base, Some(decoded)) == Ok("/srv/a/b")
  {
    var a, b := decoded[1..2], decoded[3..];
    assert a == "a" && b == "b";
    assert decoded == [] + ['/'] + (a + ['/'] + b);
    TwoSegments(a, b);
    PushTwo(base, a, b);
    assert base + "/" + a + "/" + b == "/srv/a/b";
  }

  /** A tail starting with "..", such as "..%2Fetc" decoded to "../etc",
      is refused: its first segment starts with "..". */
  lemma ParentRefused(base: string, decoded: string, rest: string)
    requires decoded == ".." + rest
    ensures SanitizePath(base, Some(decoded)).Fail?
  {
    assert decoded == ['.'] + (['.'] + rest);
    Text.SplitCons('.', ['.'] + rest, '/');
    Text.SplitCons('.', rest, '/');
    var segs := Text.Split(decoded, '/');
    assert segs[0] == ['.'] + (['.'] + Text.Split(rest, '/')[0]);
    assert Refused(segs[0]) by {
      assert segs[0][..2] == "..";
    }
  }
}
