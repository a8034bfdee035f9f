/** What the band scheduler guarantees: the properties of `resolve_task`,
    `sort`, `get_all_tasks` and `run_tasks` modelled in module `Band`. */
module BandTheory {
  import opened Wrappers
  import opened Deduplication
  import opened Rejections
  import opened Band

  /** Every task of `s` is registered and is preceded in `s` by all of its
      direct dependencies (so, inductively, by all transitive ones). */
  ghost predicate DepsBefore(g: Graph, s: seq<Name>) {
    forall i | 0 <= i < |s| :: s[i] in g && forall d | d in g[s[i]] :: d in s[..i]
  }

  lemma DepsBeforeConcat(g: Graph, a: seq<Name>, b: seq<Name>)
    requires DepsBefore(g, a) && DepsBefore(g, b)
    ensures DepsBefore(g, a + b)
  {
    forall i | 0 <= i < |a + b|
      ensures (a + b)[i] in g && forall d | d in g[(a + b)[i]] :: d in (a + b)[..i]
    {
      if i < |a| {
        assert (a + b)[..i] == a[..i];
      } else {
        var j := i - |a|;
        assert (a + b)[i] == b[j];
        assert (a + b)[..i] == a + b[..j];
      }
    }
  }

  lemma DepsBeforeSnoc(g: Graph, a: seq<Name>, x: Name)
    requires DepsBefore(g, a) && x in g && forall d | d in g[x] :: d in a
    ensures DepsBefore(g, a + [x])
  {
    forall i | 0 <= i < |a + [x]|
      ensures (a + [x])[i] in g && forall d | d in g[(a + [x])[i]] :: d in (a + [x])[..i]
    {
      if i < |a| {
        assert (a + [x])[..i] == a[..i];
      } else {
        assert (a + [x])[..i] == a;
      }
    }
  }

  lemma DepsBeforePrefix(g: Graph, s: seq<Name>, k: nat)
    requires DepsBefore(g, s) && k <= |s|
    ensures DepsBefore(g, s[..k])
  {
    forall i | 0 <= i < k
      ensures s[..k][i] in g && forall d | d in g[s[..k][i]] :: d in s[..k][..i]
    {
      assert s[..k][..i] == s[..i];
    }
  }

  /** Removing repeats keeps every task after its dependencies. */
  lemma {:induction false} DepsBeforeDedup(g: Graph, s: seq<Name>)
    requires DepsBefore(g, s)
    ensures DepsBefore(g, Dedup(s))
    decreases |s|
  {
    if s != [] {
      var init, x := s[..|s| - 1], s[|s| - 1];
      assert s == init + [x];
      DepsBeforePrefix(g, s, |s| - 1);
      DepsBeforeDedup(g, init);
      DedupSnoc(init, x);
      if x !in init {
        assert s[..|s| - 1] == init;
        forall d | d in g[x]
          ensures d in Dedup(init)
        {
          assert d in Elems(init);
        }
        DepsBeforeSnoc(g, Dedup(init), x);
      }
    }
  }

  /** What a successful expansion of direct dependencies yields: nothing on
      the current path (so no task is reached twice along one chain), every
      task after its own dependencies, and every direct dependency. */
  lemma {:induction false} ResolveDepsSound(g: Graph, path: seq<Name>, deps: seq<Name>)
    requires Closed(g) && |path| > 0 && forall d | d in deps :: d in g
    requires ResolveDeps(g, path, deps).Ok?
    ensures forall x | x in ResolveDeps(g, path, deps).value :: x !in path
    ensures DepsBefore(g, ResolveDeps(g, path, deps).value)
    ensures forall d | d in deps :: d in ResolveDeps(g, path, deps).value
    decreases |g.Keys - Elems(path)|, |deps|
  {
    if deps != [] {
      var m := deps[0];
      PathGrows(g.Keys, path, m);
      ResolveTaskSound(g, path + [m]);
      ResolveDepsSound(g, path, deps[1..]);
      var closure := ResolveTask(g, path + [m], g[m]).value;
      var rest := ResolveDeps(g, path, deps[1..]).value;
      assert ResolveDeps(g, path, deps).value == closure + rest;
      DepsBeforeConcat(g, closure, rest);
      assert deps == [m] + deps[1..];
    }
  }

  /** `resolve_task` for the last task `t` of `path`, expanding its declared
      dependencies: the list has no repeats, keeps every task after its
      dependencies, meets the path only in `t`, and ends with `t`. */
  lemma {:induction false} ResolveTaskSound(g: Graph, path: seq<Name>)
    requires Closed(g) && |path| > 0 && Last(path) in g
    requires ResolveTask(g, path, g[Last(path)]).Ok?
    ensures var r := ResolveTask(g, path, g[Last(path)]).value;
      && NoDup(r)
      && DepsBefore(g, r)
      && (forall x | x in r && x in path :: x == Last(path))
      && |r| > 0 && r[|r| - 1] == Last(path)
    decreases |g.Keys - Elems(path)|, |g[Last(path)]| + 1
  {
    var t := Last(path);
    ResolveDepsSound(g, path, g[t]);
    var flat := ResolveDeps(g, path, g[t]).value;
    var r := Dedup(flat + [t]);
    assert ResolveTask(g, path, g[t]) == Ok(r);
    assert t !in flat;
    DepsBeforeSnoc(g, flat, t);
    DepsBeforeDedup(g, flat + [t]);
    DedupSnoc(flat, t);
    assert r == Dedup(flat) + [t];
    forall x | x in r
      ensures x == t || x in flat
    {
      if x != t {
        assert x in Elems(Dedup(flat));
      }
    }
  }

  /** `w` follows dependency edges: each element depends directly on the next. */
  ghost predicate IsWalk(g: Graph, w: seq<Name>) {
    |w| >= 1 && forall i | 0 <= i < |w| - 1 :: w[i] in g && w[i + 1] in g[w[i]]
  }

  /** `t` depends on itself, directly or through other tasks. */
  ghost predicate OnCycle(g: Graph, t: Name) {
    exists w :: IsWalk(g, w) && |w| >= 2 && w[0] == t && w[|w| - 1] == t
  }

  ghost predicate Acyclic(g: Graph) {
    forall t | t in g :: !OnCycle(g, t)
  }

  lemma WalkExtend(g: Graph, w: seq<Name>, m: Name)
    requires IsWalk(g, w) && Last(w) in g && m in g[Last(w)]
    ensures IsWalk(g, w + [m])
  {
    var w' := w + [m];
    forall i | 0 <= i < |w'| - 1
      ensures w'[i] in g && w'[i + 1] in g[w'[i]]
    {
      if i == |w| - 1 {
        assert w'[i] == Last(w);
      } else {
        assert w'[i] == w[i] && w'[i + 1] == w[i + 1];
      }
    }
  }

  lemma WalkSuffix(g: Graph, w: seq<Name>, j: nat)
    requires IsWalk(g, w) && j < |w|
    ensures IsWalk(g, w[j..]) && Last(w[j..]) == Last(w)
  {
    forall i | 0 <= i < |w[j..]| - 1
      ensures w[j..][i] in g && w[j..][i + 1] in g[w[j..][i]]
    {
      assert w[j..][i] == w[j + i] && w[j..][i + 1] == w[j + i + 1];
    }
  }

  /** A dependency found on the expansion path closes a cycle. */
  lemma PathRevisitIsCycle(g: Graph, path: seq<Name>, m: Name)
    requires IsWalk(g, path) && Last(path) in g && m in g[Last(path)] && m in path
    ensures OnCycle(g, m)
  {
    var j :| 0 <= j < |path| && path[j] == m;
    WalkSuffix(g, path, j);
    WalkExtend(g, path[j..], m);
    var w := path[j..] + [m];
    assert IsWalk(g, w) && |w| >= 2 && w[0] == m && w[|w| - 1] == m;
  }

  /** Expansion fails only by meeting a dependency cycle, and the error
      names a task on that cycle: `resolve_task` along a path of real
      dependency edges. */
  lemma {:induction false} ResolveDepsFailure(g: Graph, path: seq<Name>, deps: seq<Name>)
    requires Closed(g) && IsWalk(g, path) && Last(path) in g
    requires forall d | d in deps :: d in g[Last(path)]
    requires ResolveDeps(g, path, deps).Fail?
    ensures exists m :: ResolveDeps(g, path, deps).error == SelfDependency(m) && OnCycle(g, m)
    decreases |g.Keys - Elems(path)|, |deps|
  {
    var m := deps[0];
    if m in path {
      PathRevisitIsCycle(g, path, m);
    } else {
      PathGrows(g.Keys, path, m);
      WalkExtend(g, path, m);
      assert Last(path + [m]) == m;
      if ResolveTask(g, path + [m], g[m]).Fail? {
        ResolveDepsFailure(g, path + [m], g[m]);
      } else {
        ResolveDepsFailure(g, path, deps[1..]);
      }
    }
  }

  lemma OnCycleRegistered(g: Graph, t: Name)
    requires OnCycle(g, t)
    ensures t in g
  {
    var w :| IsWalk(g, w) && |w| >= 2 && w[0] == t && w[|w| - 1] == t;
  }

  /** In a closed graph without cycles every task resolves. */
  lemma ResolveAcyclic(g: Graph, t: Name)
    requires Closed(g) && Acyclic(g) && t in g
    ensures ResolveTask(g, [t], g[t]).Ok?
  {
    if ResolveDeps(g, [t], g[t]).Fail? {
      ResolveDepsFailure(g, [t], g[t]);
      assert false;
    }
  }

  lemma WalkInside(g: Graph, s: seq<Name>, w: seq<Name>, k: nat)
    requires IsWalk(g, w) && DepsBefore(g, s) && |w| >= 2 && w[1] in s
    requires 1 <= k < |w|
    ensures w[k] in s
    decreases k
  {
    if k > 1 {
      WalkInside(g, s, w, k - 1);
      var i :| 0 <= i < |s| && s[i] == w[k - 1];
      assert w[k] in g[s[i]];
      assert w[k] in s[..i];
    }
  }

  /** A task whose expansion succeeds does not depend on itself, directly
      or transitively. */
  lemma ResolvedNotOnCycle(g: Graph, t: Name)
    requires Closed(g) && t in g
    requires ResolveTask(g, [t], g[t]).Ok?
    ensures !OnCycle(g, t)
  {
    ResolveDepsSound(g, [t], g[t]);
    var flat := ResolveDeps(g, [t], g[t]).value;
    if OnCycle(g, t) {
      var w :| IsWalk(g, w) && |w| >= 2 && w[0] == t && w[|w| - 1] == t;
      assert w[1] in g[t];
      WalkInside(g, flat, w, |w| - 1);
      assert false;
    }
  }

  lemma {:induction false} ResolveAllOutcome(g: Graph, order: seq<Name>)
    requires Closed(g) && forall n | n in order :: n in g
    ensures ResolveAll(g, order).Ok? <==> forall t | t in order :: ResolveTask(g, [t], g[t]).Ok?
    ensures ResolveAll(g, order).Fail? ==>
              exists t | t in order :: ResolveTask(g, [t], g[t]) == Fail(ResolveAll(g, order).error)
  {
    if order != [] {
      var t, rest := order[0], order[1..];
      ResolveAllOutcome(g, rest);
      assert forall x | x in order :: x == t || x in rest;
      assert forall x | x in rest :: x in order;
      if ResolveTask(g, [t], g[t]).Fail? {
        assert ResolveAll(g, order) == Fail(ResolveTask(g, [t], g[t]).error);
      } else if ResolveAll(g, rest).Fail? {
        assert ResolveAll(g, order) == Fail(ResolveAll(g, rest).error);
      }
    }
  }

  /** `sort` succeeds exactly when every declared dependency is registered
      and no task depends on itself, directly or transitively; in
      particular its success does not depend on hash map iteration order. */
  lemma BuildSucceedsIff<C>(input: seq<TaskDesc<C>>, pendingOrder: seq<Name>, resolveOrder: seq<Name>)
    requires Enumerates(pendingOrder, Registry(input).Keys)
    requires Enumerates(resolveOrder, Registry(input).Keys)
    ensures var g := GraphOf(Registry(input));
      Build(input, pendingOrder, resolveOrder).Ok? <==> Closed(g) && Acyclic(g)
  {
    var g := GraphOf(Registry(input));
    assert forall n | n in pendingOrder :: n in Elems(pendingOrder);
    assert forall n | n in resolveOrder :: n in Elems(resolveOrder);
    if Build(input, pendingOrder, resolveOrder).Ok? {
      assert Closed(g) by {
        forall n, d | n in g && d in g[n]
          ensures d in g
        {
          assert n in Elems(pendingOrder);
        }
      }
      ResolveAllOutcome(g, resolveOrder);
      forall t | t in g
        ensures !OnCycle(g, t)
      {
        assert t in Elems(resolveOrder);
        ResolvedNotOnCycle(g, t);
      }
    }
    if Closed(g) && Acyclic(g) {
      forall t | t in resolveOrder
        ensures ResolveTask(g, [t], g[t]).Ok?
      {
        ResolveAcyclic(g, t);
      }
      ResolveAllOutcome(g, resolveOrder);
    }
  }

  /** Why `sort` fails: a dependency that was never registered, reported as
      `TaskNotFound` of that name; or, when every dependency is registered,
      a dependency cycle, reported as `InvalidDepency` naming a task on it. */
  lemma BuildFailure<C>(input: seq<TaskDesc<C>>, pendingOrder: seq<Name>, resolveOrder: seq<Name>)
    requires Enumerates(pendingOrder, Registry(input).Keys)
    requires Enumerates(resolveOrder, Registry(input).Keys)
    requires Build(input, pendingOrder, resolveOrder).Fail?
    ensures var g := GraphOf(Registry(input));
      var e := Build(input, pendingOrder, resolveOrder).error;
      || (!Closed(g) && e.TaskNotFound? && e.name !in g && exists n | n in g :: e.name in g[n])
      || (Closed(g) && exists m :: e == SelfDependency(m) && OnCycle(g, m))
  {
    var g := GraphOf(Registry(input));
    var e := Build(input, pendingOrder, resolveOrder).error;
    assert forall n | n in pendingOrder :: n in Elems(pendingOrder);
    assert forall n | n in resolveOrder :: n in Elems(resolveOrder);
    if !Closed(g) {
      var n, d :| n in g && d in g[n] && d !in g;
      assert n in Elems(pendingOrder);
    } else {
      ResolveAllOutcome(g, resolveOrder);
      var t :| t in resolveOrder && ResolveTask(g, [t], g[t]) == Fail(e);
      ResolveDepsFailure(g, [t], g[t]);
    }
  }

  /** A dependency already on the expansion path, the task itself included,
      is refused with `InvalidDepency` naming it, before anything else is
      expanded. */
  lemma DependencyOnPathRefused(g: Graph, path: seq<Name>, m: Name, rest: seq<Name>)
    requires Closed(g) && |path| > 0 && m in g && forall d | d in rest :: d in g
    requires m in path
    ensures ResolveDeps(g, path, [m] + rest) == Fail(SelfDependency(m))
  {
  }

  /** The per-task lists of a band: one per task of `g`, each without
      repeats, each task after its dependencies, each ending with its task. */
  ghost predicate Scheduled<C>(g: Graph, band: Band<C>) {
    && band.dependencies.Keys == g.Keys
    && forall t | t in band.dependencies ::
         var list := band.dependencies[t];
         NoDup(list) && DepsBefore(g, list) && |list| > 0 && list[|list| - 1] == t
  }

  /** Every list `ResolveAll` computes is a valid schedule for its task,
      made of tasks of the graph. */
  lemma ResolvedListsSound(g: Graph, order: seq<Name>)
    requires Closed(g) && (forall n | n in order :: n in g) && ResolveAll(g, order).Ok?
    ensures var deps := ResolveAll(g, order).value;
      forall t | t in deps ::
        NoDup(deps[t]) && DepsBefore(g, deps[t]) && |deps[t]| > 0 && deps[t][|deps[t]| - 1] == t
    ensures var deps := ResolveAll(g, order).value;
      forall t, n | t in deps && n in deps[t] :: n in g
  {
    var deps := ResolveAll(g, order).value;
    forall t | t in deps
      ensures NoDup(deps[t]) && DepsBefore(g, deps[t]) && |deps[t]| > 0 && deps[t][|deps[t]| - 1] == t
    {
      assert Last([t]) == t;
      ResolveTaskSound(g, [t]);
    }
    forall t, n | t in deps && n in deps[t]
      ensures n in g
    {
      var list := deps[t];
      var i :| 0 <= i < |list| && list[i] == n;
      assert DepsBefore(g, list);
    }
  }

  /** What `sort` builds: every task's list is a valid schedule for it, and
      every name in the lists is a registered task. */
  lemma BuildSchedules<C>(input: seq<TaskDesc<C>>, pendingOrder: seq<Name>, resolveOrder: seq<Name>)
    requires Enumerates(pendingOrder, Registry(input).Keys)
    requires Enumerates(resolveOrder, Registry(input).Keys)
    requires Build(input, pendingOrder, resolveOrder).Ok?
    ensures Scheduled(GraphOf(Registry(input)), Build(input, pendingOrder, resolveOrder).value)
    ensures Runnable(Build(input, pendingOrder, resolveOrder).value)
  {
    var reg := Registry(input);
    var g := GraphOf(reg);
    BuildSucceedsIff(input, pendingOrder, resolveOrder);
    assert forall n | n in resolveOrder :: n in Elems(resolveOrder);
    assert CheckDeps(g, pendingOrder).Ok?;
    ResolvedListsSound(g, resolveOrder);
    assert Build(input, pendingOrder, resolveOrder).value == Band(reg, ResolveAll(g, resolveOrder).value);
  }

  lemma {:induction false} RequestedOrdered<C>(g: Graph, band: Band<C>, names: seq<Name>)
    requires Scheduled(g, band) && Requested(band, names).Ok?
    ensures DepsBefore(g, Requested(band, names).value)
    ensures forall n | n in names :: n in Requested(band, names).value
  {
    if names != [] {
      RequestedOrdered(g, band, names[1..]);
      var list := band.dependencies[names[0]];
      DepsBeforeConcat(g, list, Requested(band, names[1..]).value);
      assert list[|list| - 1] in list;
      assert names == [names[0]] + names[1..];
    }
  }

  /** `get_all_tasks` on a band `sort` built: the schedule runs every
      requested task once, after all of its dependencies. */
  lemma GetAllTasksOrdered<C>(g: Graph, band: Band<C>, names: seq<Name>)
    requires Scheduled(g, band) && GetAllTasks(band, names).Ok?
    ensures var s := GetAllTasks(band, names).value;
      NoDup(s) && DepsBefore(g, s) && forall n | n in names :: n in s
  {
    var all := Requested(band, names).value;
    RequestedOrdered(g, band, names);
    DepsBeforeDedup(g, all);
    assert Elems(Dedup(all)) == Elems(all);
    forall n | n in names
      ensures n in Dedup(all)
    {
      assert n in Elems(all);
    }
  }

  /** Requesting tasks one after the other schedules the first request's
      tasks first and then only what the first did not already run. */
  lemma GetAllTasksAppend<C>(band: Band<C>, a: seq<Name>, b: seq<Name>)
    requires GetAllTasks(band, a).Ok? && GetAllTasks(band, b).Ok?
    ensures GetAllTasks(band, a + b).Ok?
    ensures GetAllTasks(band, a + b).value ==
              GetAllTasks(band, a).value
              + Dedup(Unseen(Requested(band, b).value, Elems(Requested(band, a).value)))
  {
    RequestedAppend(band, a, b);
    DedupAppend(Requested(band, a).value, Requested(band, b).value);
  }

  lemma {:induction false} RequestedAppend<C>(band: Band<C>, a: seq<Name>, b: seq<Name>)
    requires Requested(band, a).Ok? && Requested(band, b).Ok?
    ensures Requested(band, a + b) == Ok(Requested(band, a).value + Requested(band, b).value)
  {
    if a != [] {
      assert (a + b)[1..] == a[1..] + b;
      assert (a + b)[0] == a[0];
      RequestedAppend(band, a[1..], b);
      var head := band.dependencies[a[0]];
      var ra, rb := Requested(band, a[1..]).value, Requested(band, b).value;
      assert Requested(band, a).value == head + ra;
      assert Requested(band, a + b).value == head + (ra + rb);
      assert head + (ra + rb) == (head + ra) + rb;
    } else {
      assert a + b == b;
      assert Requested(band, a).value == [];
      assert [] + Requested(band, b).value == Requested(band, b).value;
    }
  }

  /** Running a schedule in two parts is running the first part and then,
      from the context it leaves, the second; a failure stops the run. */
  lemma {:induction false} RunScheduleAppend<C(!new)>(tasks: map<Name, TaskDesc<C>>, a: seq<Name>, b: seq<Name>, ctx: C)
    requires forall n | n in a + b :: n in tasks
    ensures RunSchedule(tasks, a + b, ctx) ==
              match RunSchedule(tasks, a, ctx)
              case Ok(next) => RunSchedule(tasks, b, next)
              case Fail(e) => Fail(e)
  {
    if a == [] {
      assert a + b == b;
    } else {
      assert (a + b)[1..] == a[1..] + b;
      assert (a + b)[0] == a[0];
      match tasks[a[0]].action(ctx)
      case Fail(_) =>
      case Ok(next) => RunScheduleAppend(tasks, a[1..], b, next);
    }
  }

  /** Once an action fails the rest of the schedule never runs: the result is
      that action's error, `Rejected` when it rejected without one. */
  lemma RunStopsAtFailure<C(!new)>(tasks: map<Name, TaskDesc<C>>, done: seq<Name>, t: Name, rest: seq<Name>, ctx: C)
    requires forall n | n in done + [t] + rest :: n in tasks
    requires RunSchedule(tasks, done, ctx).Ok?
    requires tasks[t].action(RunSchedule(tasks, done, ctx).value).Fail?
    ensures RunSchedule(tasks, done + [t] + rest, ctx)
            == Fail(AsError(tasks[t].action(RunSchedule(tasks, done, ctx).value).error))
  {
    assert done + [t] + rest == done + ([t] + rest);
    RunScheduleAppend(tasks, done, [t] + rest, ctx);
  }

  /** Later registrations under a name replace earlier ones. */
  lemma {:induction false} RegistryLastWins<C>(input: seq<TaskDesc<C>>, i: nat)
    requires i < |input|
    requires forall j | i < j < |input| :: input[j].name != input[i].name
    ensures input[i].name in Registry(input) && Registry(input)[input[i].name] == input[i]
    decreases |input|
  {
    if i < |input| - 1 {
      RegistryLastWins(input[..|input| - 1], i);
    }
  }

  lemma {:induction false} RegistryNames<C>(input: seq<TaskDesc<C>>)
    ensures forall n :: n in Registry(input) <==> exists i | 0 <= i < |input| :: input[i].name == n
    decreases |input|
  {
    if input != [] {
      RegistryNames(input[..|input| - 1]);
    }
  }
}