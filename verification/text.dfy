/** The string operations of Rust's `str` that the HTTP layer relies on:
    `split` on one character, joining with a separator, `trim` and
    `contains`. */
module Text {

  /** `s.split(d)`: the pieces between occurrences of `d`, always at least
      one (the empty string splits into one empty piece). */
  function Split(s: string, d: char): (r: seq<string>)
    ensures |r| > 0
    decreases |s|
  {
    if s == [] then [""]
    else
      var rest := Split(s[1..], d);
      if s[0] == d then [""] + rest else [[s[0]] + rest[0]] + rest[1..]
  }

  /** The pieces joined with `d` between neighbours. */
  function Join(parts: seq<string>, d: char): string
    decreases |parts|
  {
    if parts == [] then ""
    else if |parts| == 1 then parts[0]
    else parts[0] + [d] + Join(parts[1..], d)
  }

  predicate Free(s: string, d: char) {
    forall i | 0 <= i < |s| :: s[i] != d
  }

  /** No piece of a split holds the separator. */
  lemma {:induction false} SplitPiecesFree(s: string, d: char)
    ensures forall k | 0 <= k < |Split(s, d)| :: Free(Split(s, d)[k], d)
    decreases |s|
  {
    if s != [] {
      SplitPiecesFree(s[1..], d);
    }
  }

  /** Joining the pieces of a split gives back the string. */
  lemma {:induction false} JoinSplit(s: string, d: char)
    ensures Join(Split(s, d), d) == s
    decreases |s|
  {
    if s != [] {
      var rest := Split(s[1..], d);
      JoinSplit(s[1..], d);
      if s[0] == d {
        assert Split(s, d) == [""] + rest;
        assert ([""] + rest)[1..] == rest;
        assert s == [d] + s[1..];
      } else {
        var parts := [[s[0]] + rest[0]] + rest[1..];
        assert parts[1..] == rest[1..];
        if |rest| == 1 {
          assert s == [s[0]] + s[1..];
        } else {
          assert Join(rest, d) == rest[0] + [d] + Join(rest[1..], d);
          assert s == [s[0]] + s[1..];
        }
      }
    }
  }

  /** Splitting a join of separator-free pieces gives back the pieces. */
  lemma {:induction false} SplitJoin(parts: seq<string>, d: char)
    requires |parts| > 0
    requires forall k | 0 <= k < |parts| :: Free(parts[k], d)
    ensures Split(Join(parts, d), d) == parts
    decreases |parts|
  {
    if |parts| == 1 {
      SplitFree(parts[0], d);
    } else {
      SplitJoin(parts[1..], d);
      SplitAppend(parts[0], Join(parts[1..], d), d);
      SplitFree(parts[0], d);
      assert [parts[0]] + parts[1..] == parts;
    }
  }

  /** A string without the separator is one piece. */
  lemma {:induction false} SplitFree(s: string, d: char)
    requires Free(s, d)
    ensures Split(s, d) == [s]
    decreases |s|
  {
    if s != [] {
      SplitFree(s[1..], d);
      assert [s[0]] + s[1..] == s;
    }
  }

  /** Splitting around one separator splits both sides. */
  lemma {:induction false} SplitAppend(a: string, b: string, d: char)
    ensures Split(a + [d] + b, d) == Split(a, d) + Split(b, d)
    decreases |a|
  {
    if a == [] {
      assert a + [d] + b == [d] + b;
      SplitCons(d, b, d);
    } else {
      var t := a[1..];
      assert a == [a[0]] + t;
      assert a + [d] + b == [a[0]] + (t + [d] + b);
      SplitAppend(t, b, d);
      SplitCons(a[0], t + [d] + b, d);
      SplitCons(a[0], t, d);
      if a[0] == d {
        assert [""] + (Split(t, d) + Split(b, d)) == ([""] + Split(t, d)) + Split(b, d);
      } else {
        ConsFront([a[0]], Split(t, d), Split(b, d));
      }
    }
  }

  /** One unfolding of `Split` on a string given as first character and
      rest. */
  lemma {:induction false} SplitCons(c: char, t: string, d: char)
    ensures Split([c] + t, d) ==
              if c == d then [""] + Split(t, d)
              else [[c] + Split(t, d)[0]] + Split(t, d)[1..]
  {
    assert ([c] + t)[1..] == t;
  }

  /** Extending the first piece commutes with appending more pieces. */
  lemma {:induction false} ConsFront(h: string, ra: seq<string>, sb: seq<string>)
    requires |ra| > 0
    ensures [h + ra[0]] + (ra + sb)[1..] == ([h + ra[0]] + ra[1..]) + sb
    ensures (ra + sb)[0] == ra[0]
  {
    assert (ra + sb)[1..] == ra[1..] + sb;
  }

  /** `char::is_whitespace`: the characters with Unicode's White_Space
      property. */
  predicate IsWhitespace(c: char) {
    c == ' ' || '\t' <= c <= '\r' || c == '\U{0085}' || c == '\U{00A0}' || c == '\U{1680}'
    || '\U{2000}' <= c <= '\U{200A}' || c == '\U{2028}' || c == '\U{2029}' || c == '\U{202F}'
    || c == '\U{205F}' || c == '\U{3000}'
  }

  function TrimStart(s: string): (r: string)
    ensures |r| <= |s| && r == s[|s| - |r|..]
    ensures r == [] || !IsWhitespace(r[0])
    ensures forall i | 0 <= i < |s| - |r| :: IsWhitespace(s[i])
    decreases |s|
  {
    if s != [] && IsWhitespace(s[0]) then TrimStart(s[1..]) else s
  }

  function TrimEnd(s: string): (r: string)
    ensures |r| <= |s| && r == s[..|r|]
    ensures r == [] || !IsWhitespace(r[|r| - 1])
    ensures forall i | |r| <= i < |s| :: IsWhitespace(s[i])
    decreases |s|
  {
    if s != [] && IsWhitespace(s[|s| - 1]) then TrimEnd(s[..|s| - 1]) else s
  }

  /** `str::trim`: leading and trailing whitespace removed; every other
      character stays. */
  function Trim(s: string): (r: string)
    ensures |r| <= |s|
    ensures r == [] || (!IsWhitespace(r[0]) && !IsWhitespace(r[|r| - 1]))
    ensures forall k | 0 <= k < |s| && !IsWhitespace(s[k]) :: s[k] in r
  {
    var t := TrimStart(s);
    var r := TrimEnd(t);
    TrimKeepsCore(s, t, r);
    r
  }

  /** What the two trims leave holds every non-whitespace character. */
  lemma TrimKeepsCore(s: string, t: string, r: string)
    requires |t| <= |s| && t == s[|s| - |t|..]
    requires forall i | 0 <= i < |s| - |t| :: IsWhitespace(s[i])
    requires |r| <= |t| && r == t[..|r|]
    requires forall i | |r| <= i < |t| :: IsWhitespace(t[i])
    ensures forall k | 0 <= k < |s| && !IsWhitespace(s[k]) :: s[k] in r
  {
    var i := |s| - |t|;
    forall k | 0 <= k < |s| && !IsWhitespace(s[k]) ensures s[k] in r {
      assert k >= i;
      assert t[k - i] == s[k];
      assert k - i < |r|;
      assert r[k - i] == s[k];
    }
  }

  /** A string padded with whitespace trims to its core, when the core
      neither starts nor ends with whitespace. */
  lemma TrimPadded(pre: string, core: string, post: string)
    requires forall k | 0 <= k < |pre| :: IsWhitespace(pre[k])
    requires forall k | 0 <= k < |post| :: IsWhitespace(post[k])
    requires core == [] || (!IsWhitespace(core[0]) && !IsWhitespace(core[|core| - 1]))
    ensures Trim(pre + core + post) == core
  {
    if core == [] {
      assert pre + core + post == (pre + post) + [];
      TrimStartPadded(pre + post, []);
    } else {
      TrimStartPadded(pre, core + post);
      assert pre + core + post == pre + (core + post);
      TrimEndPadded(core, post);
    }
  }

  lemma {:induction false} TrimStartPadded(pre: string, s: string)
    requires forall k | 0 <= k < |pre| :: IsWhitespace(pre[k])
    requires s == [] || !IsWhitespace(s[0])
    ensures TrimStart(pre + s) == s
    decreases |pre|
  {
    if pre != [] {
      assert (pre + s)[1..] == pre[1..] + s;
      TrimStartPadded(pre[1..], s);
    } else {
      assert pre + s == s;
    }
  }

  lemma {:induction false} TrimEndPadded(s: string, post: string)
    requires forall k | 0 <= k < |post| :: IsWhitespace(post[k])
    requires s == [] || !IsWhitespace(s[|s| - 1])
    ensures TrimEnd(s + post) == s
    decreases |post|
  {
    if post != [] {
      var p := post[..|post| - 1];
      assert (s + post)[..|s + post| - 1] == s + p;
      TrimEndPadded(s, p);
    } else {
      assert s + post == s;
    }
  }
}
