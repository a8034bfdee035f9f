/** First-occurrence deduplication, the `HashSet`-filter idiom used twice by
    the band scheduler (`resolve_task` and `Band::get_all_tasks`). */
module Deduplication {
  import opened Wrappers

  /** No element occurs twice. */
  ghost predicate NoDup<T>(s: seq<T>) {
    forall i, j | 0 <= i < j < |s| :: s[i] != s[j]
  }

  /** Reference definition: keep an element only if it did not occur earlier. */
  function Dedup<T(==)>(s: seq<T>): (r: seq<T>)
    ensures NoDup(r)
    ensures Elems(r) == Elems(s)
    ensures |r| <= |s|
    decreases |s|
  {
    if s == [] then []
    else
      var init, x := s[..|s| - 1], s[|s| - 1];
      assert s == init + [x];
      var p := Dedup(init);
      if x in init then p
      else
        assert x !in Elems(p);
        assert Elems(p + [x]) == Elems(p) + {x};
        p + [x]
  }

  /** The elements of `s` that are not in `seen`, in order. */
  function Unseen<T(==)>(s: seq<T>, seen: set<T>): (r: seq<T>)
    ensures Elems(r) == Elems(s) - seen
    ensures |r| <= |s|
  {
    if s == [] then []
    else if s[0] in seen then Unseen(s[1..], seen)
    else
      assert s == [s[0]] + s[1..];
      var rest := Unseen(s[1..], seen);
      assert Elems([s[0]] + rest) == {s[0]} + Elems(rest);
      [s[0]] + rest
  }

  lemma {:induction false} UnseenSnoc<T>(s: seq<T>, x: T, seen: set<T>)
    ensures Unseen(s + [x], seen) == Unseen(s, seen) + (if x in seen then [] else [x])
    decreases |s|
  {
    if s == [] {
      assert s + [x] == [x];
    } else {
      assert (s + [x])[1..] == s[1..] + [x];
      UnseenSnoc(s[1..], x, seen);
    }
  }

  lemma DedupSnoc<T>(c: seq<T>, x: T)
    ensures Dedup(c + [x]) == if x in c then Dedup(c) else Dedup(c) + [x]
  {
    assert (c + [x])[..|c + [x]| - 1] == c;
  }

  lemma {:induction false} UnseenMember<T>(s: seq<T>, seen: set<T>, x: T)
    ensures x in Unseen(s, seen) <==> x in s && x !in seen
    decreases |s|
  {
    if s != [] {
      UnseenMember(s[1..], seen, x);
      assert s == [s[0]] + s[1..];
    }
  }

  /** The sequence algebra behind `DedupAppendSnoc`, with the
      deduplications as plain values. */
  lemma SnocAlgebra<T>(dc: seq<T>, da: seq<T>, du: seq<T>, dcx: seq<T>, dux: seq<T>, x: T, seen: bool)
    requires dc == da + du
    requires dcx == (if seen then dc else dc + [x])
    requires dux == (if seen then du else du + [x])
    ensures dcx == da + dux
  {
  }

  /** One more element at the end of `b`: the first-occurrence split of
      `a + b` extends to `a + b + [x]`. */
  lemma DedupAppendSnoc<T>(a: seq<T>, init: seq<T>, x: T)
    requires Dedup(a + init) == Dedup(a) + Dedup(Unseen(init, Elems(a)))
    ensures Dedup(a + init + [x]) == Dedup(a) + Dedup(Unseen(init + [x], Elems(a)))
  {
    var c, u := a + init, Unseen(init, Elems(a));
    var inA := x in a;
    assert inA == (x in Elems(a));
    assert (x in c) == (inA || x in init);
    UnseenSnoc(init, x, Elems(a));
    DedupSnoc(c, x);
    if inA {
      assert Unseen(init + [x], Elems(a)) == u;
    } else {
      assert Unseen(init + [x], Elems(a)) == u + [x];
      UnseenMember(init, Elems(a), x);
      assert (x in u) == (x in c);
      DedupSnoc(u, x);
      SnocAlgebra(Dedup(c), Dedup(a), Dedup(u), Dedup(c + [x]), Dedup(u + [x]), x, x in c);
    }
  }

  /** First occurrence wins: deduplicating `a + b` keeps the deduplicated `a`
      and then only those elements of `b` that `a` did not already contain. */
  lemma {:induction false} DedupAppend<T>(a: seq<T>, b: seq<T>)
    ensures Dedup(a + b) == Dedup(a) + Dedup(Unseen(b, Elems(a)))
    decreases |b|
  {
    if b == [] {
      assert a + b == a;
    } else {
      var init, x := b[..|b| - 1], b[|b| - 1];
      assert b == init + [x];
      assert a + b == a + init + [x];
      DedupAppend(a, init);
      DedupAppendSnoc(a, init, x);
    }
  }

  /** A sequence without duplicates is its own deduplication. */
  lemma {:induction false} DedupOfDistinct<T>(s: seq<T>)
    requires NoDup(s)
    ensures Dedup(s) == s
    decreases |s|
  {
    if s != [] {
      var init := s[..|s| - 1];
      assert NoDup(init);
      DedupOfDistinct(init);
      assert s == init + [s[|s| - 1]];
    }
  }

  /** Deduplication is idempotent. */
  lemma DedupIdempotent<T>(s: seq<T>)
    ensures Dedup(Dedup(s)) == Dedup(s)
  {
    DedupOfDistinct(Dedup(s));
  }

  /** The source's filter: walk the sequence once with a set of seen
      elements, keeping an element the first time it is met. */
  method DedupFirstSeen<T(==)>(s: seq<T>) returns (r: seq<T>)
    ensures r == Dedup(s)
  {
    var seen: set<T> := {};
    r := [];
    var i := 0;
    while i < |s|
      invariant 0 <= i <= |s|
      invariant r == Dedup(s[..i])
      invariant seen == Elems(s[..i])
    {
      assert s[..i + 1] == s[..i] + [s[i]];
      assert s[..i + 1][..i] == s[..i];
      if s[i] !in seen {
        seen := seen + {s[i]};
        r := r + [s[i]];
      }
      i := i + 1;
    }
    assert s[..i] == s;
  }
}
