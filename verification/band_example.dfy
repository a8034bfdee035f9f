/** The registration in the test of band/src/band.rs: `main` depends on
    `build`, `build` on `build:sass`, `clean` and `build:sass` on
    `clean:sass`, which depends on nothing. */
module BandExample {
  import opened Wrappers
  import opened Deduplication
  import opened Band

  function ExampleGraph(): Graph {
    map["main" := ["build"], "build" := ["build:sass"], "clean" := ["clean:sass"],
        "build:sass" := ["clean:sass"], "clean:sass" := []]
  }

  /** The lists `sort` computes for the example, task by task. */
  function ExampleLists(): map<Name, seq<Name>> {
    map["clean:sass" := ["clean:sass"],
        "build:sass" := ["clean:sass", "build:sass"],
        "clean" := ["clean:sass", "clean"],
        "build" := ["clean:sass", "build:sass", "build"],
        "main" := ["clean:sass", "build:sass", "build", "main"]]
  }

  /** A task without dependencies resolves to itself alone. */
  lemma ResolveLeaf(g: Graph, path: seq<Name>)
    requires Closed(g) && |path| > 0
    ensures ResolveTask(g, path, []) == Ok([Last(path)])
  {
    assert [] + [Last(path)] == [Last(path)];
    DedupOfDistinct([Last(path)]);
  }

  /** Expanding a single dependency `m` not on the path gives its closure. */
  lemma ResolveDepsSingle(g: Graph, path: seq<Name>, m: Name, closure: seq<Name>)
    requires Closed(g) && |path| > 0 && m in g && m !in path
    requires ResolveTask(g, path + [m], g[m]) == Ok(closure)
    ensures ResolveDeps(g, path, [m]) == Ok(closure)
  {
    assert [m][0] == m && [m][1..] == [];
    assert ResolveDeps(g, path, []) == Ok([]);
    assert closure + [] == closure;
  }

  /** Appending a new element keeps a list free of repeats. */
  lemma DistinctSnoc(s: seq<Name>, x: Name)
    requires NoDup(s) && x !in s
    ensures NoDup(s + [x])
  {
    forall i, j | 0 <= i < j < |s| + 1
      ensures (s + [x])[i] != (s + [x])[j]
    {
      if j == |s| {
        assert (s + [x])[i] == s[i];
      }
    }
  }

  /** A task with the single dependency `m`, not on the path, resolves to
      the closure of `m` followed by the task, when the closure does not
      already hold the task. */
  lemma ResolveSingleDep(g: Graph, path: seq<Name>, m: Name, closure: seq<Name>)
    requires Closed(g) && |path| > 0 && m in g && m !in path
    requires ResolveTask(g, path + [m], g[m]) == Ok(closure)
    requires NoDup(closure) && Last(path) !in closure
    ensures ResolveTask(g, path, [m]) == Ok(closure + [Last(path)])
  {
    ResolveDepsSingle(g, path, m, closure);
    DistinctSnoc(closure, Last(path));
    DedupOfDistinct(closure + [Last(path)]);
  }

  lemma ExampleClosed()
    ensures Closed(ExampleGraph())
  {
  }

  /** A two-step chain below the path: `bs` depends on `cs` alone, which
      depends on nothing, and neither is on the path. */
  lemma ChainResolves(g: Graph, p1: seq<Name>, bs: Name, cs: Name)
    requires Closed(g) && |p1| > 0 && bs in g && cs in g && bs != cs
    requires g[bs] == [cs] && g[cs] == [] && bs !in p1 && cs !in p1
    ensures ResolveTask(g, p1, [bs]) == Ok([cs, bs, Last(p1)])
  {
    var p2 := p1 + [bs];
    var p3 := p2 + [cs];
    assert Last(p2) == bs && Last(p3) == cs && cs !in p2;
    ResolveLeaf(g, p3);
    ResolveSingleDep(g, p2, cs, [cs]);
    assert [cs] + [bs] == [cs, bs];
    ResolveSingleDep(g, p1, bs, [cs, bs]);
    assert [cs, bs] + [Last(p1)] == [cs, bs, Last(p1)];
  }

  /** The `build` chain, expanded under a path that starts with `prefix`. */
  lemma BuildChain(prefix: seq<Name>)
    requires prefix == [] || prefix == ["main"]
    ensures ResolveTask(ExampleGraph(), prefix + ["build"], ["build:sass"])
            == Ok(["clean:sass", "build:sass", "build"])
  {
    var g := ExampleGraph();
    ExampleClosed();
    var p1 := prefix + ["build"];
    assert Last(p1) == "build";
    assert "build:sass" !in p1 && "clean:sass" !in p1;
    ChainResolves(g, p1, "build:sass", "clean:sass");
  }

  /** A single dependency `cs` below the path, which depends on nothing. */
  lemma LeafDepResolves(g: Graph, p: seq<Name>, cs: Name)
    requires Closed(g) && |p| > 0 && cs in g && g[cs] == [] && cs !in p
    ensures ResolveTask(g, p, [cs]) == Ok([cs, Last(p)])
  {
    ResolveLeaf(g, p + [cs]);
    assert Last(p + [cs]) == cs;
    ResolveSingleDep(g, p, cs, [cs]);
    assert [cs] + [Last(p)] == [cs, Last(p)];
  }

  lemma SassResolves()
    ensures ResolveTask(ExampleGraph(), ["clean:sass"], []) == Ok(["clean:sass"])
    ensures ResolveTask(ExampleGraph(), ["build:sass"], ["clean:sass"]) == Ok(["clean:sass", "build:sass"])
  {
    var g := ExampleGraph();
    ExampleClosed();
    ResolveLeaf(g, ["clean:sass"]);
    assert Last(["clean:sass"]) == "clean:sass";
    LeafDepResolves(g, ["build:sass"], "clean:sass");
    assert Last(["build:sass"]) == "build:sass";
  }

  lemma CleanResolves()
    ensures ResolveTask(ExampleGraph(), ["clean"], ["clean:sass"]) == Ok(["clean:sass", "clean"])
  {
    var g := ExampleGraph();
    ExampleClosed();
    LeafDepResolves(g, ["clean"], "clean:sass");
    assert Last(["clean"]) == "clean";
  }

  lemma MainResolves()
    ensures ResolveTask(ExampleGraph(), ["main"], ["build"]) == Ok(["clean:sass", "build:sass", "build", "main"])
  {
    var g := ExampleGraph();
    ExampleClosed();
    BuildChain(["main"]);
    assert ["main"] + ["build"] == ["main", "build"];
    assert g["build"] == ["build:sass"];
    ResolveSingleDep(g, ["main"], "build", ["clean:sass", "build:sass", "build"]);
    assert ["clean:sass", "build:sass", "build"] + ["main"] == ["clean:sass", "build:sass", "build", "main"];
  }

  /** One task of the example resolves to its list in `ExampleLists`. */
  lemma ExampleResolvesAt(t: Name)
    requires t in ExampleGraph()
    ensures Closed(ExampleGraph())
    ensures ResolveTask(ExampleGraph(), [t], ExampleGraph()[t]) == Ok(ExampleLists()[t])
  {
    ExampleClosed();
    if t == "clean:sass" || t == "build:sass" {
      SassResolves();
    } else if t == "clean" {
      CleanResolves();
    } else if t == "build" {
      BuildChain([]);
      assert [] + ["build"] == ["build"];
    } else {
      MainResolves();
    }
  }

  /** `sort` on the example resolves every task to its list in `ExampleLists`. */
  lemma ExampleResolves()
    ensures Closed(ExampleGraph())
    ensures forall t | t in ExampleGraph() ::
              ResolveTask(ExampleGraph(), [t], ExampleGraph()[t]) == Ok(ExampleLists()[t])
  {
    ExampleClosed();
    forall t | t in ExampleGraph()
      ensures ResolveTask(ExampleGraph(), [t], ExampleGraph()[t]) == Ok(ExampleLists()[t])
    {
      ExampleResolvesAt(t);
    }
  }

  /** The requested lists of the crate's `get_tasks` call, over four
      names: `cs` (clean:sass), `c` (clean), `bs` (build:sass) and `b`
      (build). */
  lemma RequestedShape<C>(band: Band<C>, cs: Name, c: Name, bs: Name, b: Name)
    requires c in band.dependencies && band.dependencies[c] == [cs, c]
    requires b in band.dependencies && band.dependencies[b] == [cs, bs, b]
    requires bs in band.dependencies && band.dependencies[bs] == [cs, bs]
    ensures Requested(band, [c, b, bs]) == Ok([cs, c, cs, bs, b, cs, bs])
  {
    assert [bs][1..] == [];
    assert Requested(band, [bs]) == Ok([cs, bs] + []);
    assert [cs, bs] + [] == [cs, bs];
    assert [b, bs][1..] == [bs];
    assert Requested(band, [b, bs]) == Ok([cs, bs, b] + [cs, bs]);
    assert [cs, bs, b] + [cs, bs] == [cs, bs, b, cs, bs];
    assert [c, b, bs][1..] == [b, bs];
    assert Requested(band, [c, b, bs]) == Ok([cs, c] + [cs, bs, b, cs, bs]);
    assert [cs, c] + [cs, bs, b, cs, bs] == [cs, c, cs, bs, b, cs, bs];
  }

  /** Deduplication of the requested lists, one name at a time: the
      repeated `clean:sass` is dropped. */
  lemma DedupThree(cs: Name, c: Name)
    requires cs != c
    ensures Dedup([cs, c, cs]) == [cs, c]
  {
    DedupOfDistinct([cs, c]);
    assert [cs, c] + [cs] == [cs, c, cs];
    DedupSnoc([cs, c], cs);
  }

  lemma DedupFour(cs: Name, c: Name, bs: Name)
    requires cs != c && cs != bs && c != bs
    ensures Dedup([cs, c, cs, bs]) == [cs, c, bs]
  {
    DedupThree(cs, c);
    assert [cs, c, cs] + [bs] == [cs, c, cs, bs];
    assert bs !in [cs, c, cs];
    DedupSnoc([cs, c, cs], bs);
  }

  lemma DedupFive(cs: Name, c: Name, bs: Name, b: Name)
    requires cs != c && cs != bs && cs != b && c != bs && c != b && bs != b
    ensures Dedup([cs, c, cs, bs, b]) == [cs, c, bs, b]
  {
    DedupFour(cs, c, bs);
    assert [cs, c, cs, bs] + [b] == [cs, c, cs, bs, b];
    assert b !in [cs, c, cs, bs];
    DedupSnoc([cs, c, cs, bs], b);
    assert [cs, c, bs] + [b] == [cs, c, bs, b];
  }

  lemma DedupSix(cs: Name, c: Name, bs: Name, b: Name)
    requires cs != c && cs != bs && cs != b && c != bs && c != b && bs != b
    ensures Dedup([cs, c, cs, bs, b, cs]) == [cs, c, bs, b]
  {
    DedupFive(cs, c, bs, b);
    assert [cs, c, cs, bs, b] + [cs] == [cs, c, cs, bs, b, cs];
    assert cs in [cs, c, cs, bs, b];
    DedupSnoc([cs, c, cs, bs, b], cs);
  }

  /** Deduplicating all the requested lists keeps the first occurrence of
      each name. */
  lemma ScheduleShape(cs: Name, c: Name, bs: Name, b: Name)
    requires cs != c && cs != bs && cs != b && c != bs && c != b && bs != b
    ensures Dedup([cs, c, cs, bs, b, cs, bs]) == [cs, c, bs, b]
  {
    DedupSix(cs, c, bs, b);
    assert [cs, c, cs, bs, b, cs] + [bs] == [cs, c, cs, bs, b, cs, bs];
    assert bs in [cs, c, cs, bs, b, cs];
    DedupSnoc([cs, c, cs, bs, b, cs], bs);
  }

  /** `get_tasks(&["clean", "build", "build:sass"])` on the example runs
      `clean:sass` once, first, then `clean`, `build:sass` and `build`. */
  lemma ExampleGetTasks<C>(band: Band<C>)
    requires band.dependencies == ExampleLists()
    ensures GetTasks(band, ["clean", "build", "build:sass"])
            == Some(["clean:sass", "clean", "build:sass", "build"])
  {
    RequestedShape(band, "clean:sass", "clean", "build:sass", "build");
    ScheduleShape("clean:sass", "clean", "build:sass", "build");
  }
}
