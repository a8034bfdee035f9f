/** The `band` dependency scheduler (band/src/band.rs, band/src/error.rs):
    tasks are registered by name with the names they depend on; `sort`
    expands every task into the ordered list of tasks that must run before
    it, rejecting unknown names and dependency cycles; a request for several
    tasks runs the union of their lists once each, in order, threading a
    context value through the actions. */
module Band {
  import opened Wrappers
  import opened Deduplication
  import opened Rejections

  type Name = string

  /** band/src/error.rs, plus `Rejected`, which `run_tasks` returns for a
      rejection without a diagnostic but which that file does not declare. */
  datatype Error =
    | TaskNotFound(name: Name)
    | InvalidDepency(message: string)
    | External(message: string)
    | Rejected

  /** The error for a dependency that is already on the expansion path. */
  function SelfDependency(n: Name): Error {
    InvalidDepency("task '" + n + "' cannot depend on self")
  }

  /** A boxed action: a service from the context to the context. */
  type Action<!C> = C -> Outcome<C, C, Error>

  /** `ActionBox::call`: the wrapped service's errors are converted with
      `into`; successes and the kind of failure are kept. */
  function BoxAction<C, E>(action: C -> Outcome<C, C, E>, into: E -> Error): Action<C> {
    (c: C) => MapOutcomeError(action(c), into)
  }

  /** A boxed action succeeds with the same context exactly when the wrapped
      one does, rejects exactly when it rejects (handing back the same
      context, keeping whether a diagnostic is present), and the error
      `run_tasks` reports is the converted error. */
  lemma BoxActionKeepsOutcome<C, E>(action: C -> Outcome<C, C, E>, into: E -> Error, c: C)
    ensures BoxAction(action, into)(c).Ok? <==> action(c).Ok?
    ensures action(c).Ok? ==> BoxAction(action, into)(c).value == action(c).value
    ensures action(c).Fail? ==>
              BoxAction(action, into)(c).error.Reject? == action(c).error.Reject?
    ensures action(c).Fail? && Source(action(c).error).Some? ==>
              AsError(BoxAction(action, into)(c).error) == into(Source(action(c).error).value)
    ensures action(c).Fail? && Source(action(c).error).None? ==>
              AsError(BoxAction(action, into)(c).error) == Rejected
  {
  }

  datatype TaskDesc<!C> = TaskDesc(name: Name, action: Action<C>, dependencies: seq<Name>)

  /** Each registered name with the names it depends on. */
  type Graph = map<Name, seq<Name>>

  /** The registration loop of `sort`: inserting by name into a hash map, so
      a later registration under the same name replaces an earlier one. */
  function Registry<C>(input: seq<TaskDesc<C>>): (r: map<Name, TaskDesc<C>>)
    ensures forall n | n in r :: r[n].name == n
    ensures |input| > 0 ==> input[|input| - 1].name in r
    decreases |input|
  {
    if input == [] then map[]
    else
      var last := input[|input| - 1];
      Registry(input[..|input| - 1])[last.name := last]
  }

  function GraphOf<C>(reg: map<Name, TaskDesc<C>>): (g: Graph)
    ensures g.Keys == reg.Keys
  {
    map n | n in reg :: reg[n].dependencies
  }

  /** Every dependency of every task is itself registered. */
  ghost predicate Closed(g: Graph) {
    forall n, d | n in g && d in g[n] :: d in g
  }

  function Last(path: seq<Name>): Name
    requires |path| > 0
  {
    path[|path| - 1]
  }

  lemma PathGrows(keys: set<Name>, path: seq<Name>, m: Name)
    requires m in keys && m !in path
    ensures |keys - Elems(path + [m])| < |keys - Elems(path)|
  {
    var before := keys - Elems(path);
    assert keys - Elems(path + [m]) == before - {m};
    assert before == (before - {m}) + {m};
  }

  /** `resolve_task`: the dependency list of the last task on `path`, whose
      direct dependencies are `deps`: the closures of the direct
      dependencies, in declaration order, then the task itself, with
      repeats removed (first occurrence wins). */
  function ResolveTask(g: Graph, path: seq<Name>, deps: seq<Name>): (r: Result<seq<Name>, Error>)
    requires Closed(g) && |path| > 0 && forall d | d in deps :: d in g
    ensures r.Ok? ==> NoDup(r.value) && Last(path) in r.value
    ensures r.Ok? ==> forall n | n in r.value :: n in g || n == Last(path)
    ensures r.Fail? ==> r.error.InvalidDepency?
    decreases |g.Keys - Elems(path)|, |deps| + 1
  {
    match ResolveDeps(g, path, deps)
    case Fail(e) => Fail(e)
    case Ok(flat) =>
      var all := flat + [Last(path)];
      assert Last(path) in Elems(all);
      var r := Dedup(all);
      assert forall n | n in r :: n in Elems(r);
      assert forall n | n in Elems(all) :: n in all;
      Ok(r)
  }

  /** The `try_collect` over the direct dependencies: each one is expanded
      with itself appended to the path; one already on the path is an
      `InvalidDepency`; the first error stops the walk. */
  function ResolveDeps(g: Graph, path: seq<Name>, deps: seq<Name>): (r: Result<seq<Name>, Error>)
    requires Closed(g) && |path| > 0 && forall d | d in deps :: d in g
    ensures r.Ok? ==> forall n | n in r.value :: n in g
    ensures r.Fail? ==> r.error.InvalidDepency?
    decreases |g.Keys - Elems(path)|, |deps|
  {
    if deps == [] then Ok([])
    else
      var m := deps[0];
      if m in path then Fail(SelfDependency(m))
      else
        PathGrows(g.Keys, path, m);
        match ResolveTask(g, path + [m], g[m])
        case Fail(e) => Fail(e)
        case Ok(closure) =>
          match ResolveDeps(g, path, deps[1..])
          case Fail(e) => Fail(e)
          case Ok(rest) => Ok(closure + rest)
  }

  /** The first name in `deps` that is not in `known`. */
  function FirstUnknown(deps: seq<Name>, known: set<Name>): (r: Option<Name>)
    ensures r.None? <==> forall d | d in deps :: d in known
    ensures r.Some? ==> r.value in deps && r.value !in known
  {
    if deps == [] then None
    else if deps[0] !in known then Some(deps[0])
    else FirstUnknown(deps[1..], known)
  }

  /** The first loop over `pending`, in the hash map's iteration order
      `order`: the first task with an unregistered dependency fails with
      `TaskNotFound` naming that dependency. */
  function CheckDeps(g: Graph, order: seq<Name>): (r: Result<(), Error>)
    requires forall n | n in order :: n in g
    ensures r.Ok? <==> forall n, d | n in order && d in g[n] :: d in g
    ensures r.Fail? ==> r.error.TaskNotFound? && r.error.name !in g
                        && exists n | n in order :: r.error.name in g[n]
  {
    if order == [] then Ok(())
    else
      match FirstUnknown(g[order[0]], g.Keys)
      case Some(d) => Fail(TaskNotFound(d))
      case None => CheckDeps(g, order[1..])
  }

  /** The second loop, over `byname_tmp` in its iteration order `order`:
      every task is resolved starting from the path `[task]`; the first
      failure is returned. */
  function ResolveAll(g: Graph, order: seq<Name>): (r: Result<map<Name, seq<Name>>, Error>)
    requires Closed(g) && forall n | n in order :: n in g
    ensures r.Ok? ==> r.value.Keys == Elems(order)
    ensures r.Ok? ==> forall n | n in r.value :: ResolveTask(g, [n], g[n]) == Ok(r.value[n])
  {
    if order == [] then Ok(map[])
    else
      var t := order[0];
      match ResolveTask(g, [t], g[t])
      case Fail(e) => Fail(e)
      case Ok(list) =>
        match ResolveAll(g, order[1..])
        case Fail(e) => Fail(e)
        case Ok(m) =>
          assert order == [t] + order[1..];
          Ok(m[t := list])
  }

  /** An iteration order of a hash map with key set `keys`: every key once. */
  ghost predicate Enumerates(order: seq<Name>, keys: set<Name>) {
    NoDup(order) && Elems(order) == keys
  }

  datatype Band<!C> = Band(tasks: map<Name, TaskDesc<C>>, dependencies: map<Name, seq<Name>>)

  /** `sort` (what `BandBuilder::build` returns), for the iteration orders
      `pendingOrder` and `resolveOrder` of its two hash maps. */
  function Build<C>(input: seq<TaskDesc<C>>, pendingOrder: seq<Name>, resolveOrder: seq<Name>)
    : (r: Result<Band<C>, Error>)
    requires Enumerates(pendingOrder, Registry(input).Keys)
    requires Enumerates(resolveOrder, Registry(input).Keys)
    ensures r.Ok? ==> r.value.tasks == Registry(input)
    ensures r.Ok? ==> r.value.dependencies.Keys == Registry(input).Keys
  {
    var reg := Registry(input);
    var g := GraphOf(reg);
    match CheckDeps(g, pendingOrder)
    case Fail(e) => Fail(e)
    case Ok(_) =>
      match ResolveAll(g, resolveOrder)
      case Fail(e) => Fail(e)
      case Ok(deps) => Ok(Band(reg, deps))
  }

  /** `names[i]` is the first requested name, in request order, that is
      not a registered task. */
  ghost predicate FirstUnregistered<C>(band: Band<C>, names: seq<Name>, i: int) {
    && 0 <= i < |names| && names[i] !in band.dependencies
    && forall j | 0 <= j < i :: names[j] in band.dependencies
  }

  /** Behind a registered first name, the first unregistered name of the
      rest is the first of the whole request. */
  lemma FirstUnregisteredShift<C>(band: Band<C>, names: seq<Name>, e: Error)
    requires names != [] && names[0] in band.dependencies
    requires exists i | FirstUnregistered(band, names[1..], i) :: e == TaskNotFound(names[1..][i])
    ensures exists i | FirstUnregistered(band, names, i) :: e == TaskNotFound(names[i])
  {
    var i :| FirstUnregistered(band, names[1..], i) && e == TaskNotFound(names[1..][i]);
    assert FirstUnregistered(band, names, i + 1) by {
      forall j | 0 <= j < i + 1 ensures names[j] in band.dependencies {
        if j > 0 { assert names[j] == names[1..][j - 1]; }
      }
    }
  }

  /** The loop of `get_all_tasks` before deduplication: the dependency lists
      of the requested names, concatenated in request order; the first
      unknown name fails with `TaskNotFound`. */
  function Requested<C>(band: Band<C>, names: seq<Name>): (r: Result<seq<Name>, Error>)
    ensures r.Fail? <==> exists n | n in names :: n !in band.dependencies
    ensures r.Fail? ==> r.error.TaskNotFound? && r.error.name in names
                        && r.error.name !in band.dependencies
    ensures r.Fail? ==> exists i | FirstUnregistered(band, names, i) :: r.error == TaskNotFound(names[i])
  {
    if names == [] then Ok([])
    else if names[0] !in band.dependencies then
      assert FirstUnregistered(band, names, 0);
      Fail(TaskNotFound(names[0]))
    else
      match Requested(band, names[1..])
      case Fail(e) =>
        FirstUnregisteredShift(band, names, e);
        Fail(e)
      case Ok(rest) =>
        assert names == [names[0]] + names[1..];
        Ok(band.dependencies[names[0]] + rest)
  }

  /** `Band::get_all_tasks`. */
  function GetAllTasks<C>(band: Band<C>, names: seq<Name>): (r: Result<seq<Name>, Error>)
    ensures r.Fail? <==> exists n | n in names :: n !in band.dependencies
    ensures r.Fail? ==> r.error.TaskNotFound? && r.error.name in names
    ensures r.Fail? ==> exists i | FirstUnregistered(band, names, i) :: r.error == TaskNotFound(names[i])
    ensures r.Ok? ==> NoDup(r.value)
  {
    match Requested(band, names)
    case Fail(e) => Fail(e)
    case Ok(all) => Ok(Dedup(all))
  }

  /** `Band::get_tasks`: the schedule by name, or nothing on any error. */
  function GetTasks<C>(band: Band<C>, names: seq<Name>): (r: Option<seq<Name>>)
    ensures r.None? <==> GetAllTasks(band, names).Fail?
  {
    match GetAllTasks(band, names)
    case Fail(_) => None
    case Ok(s) => Some(s)
  }

  /** How `run_tasks` turns an action's rejection into the band's error. */
  function AsError<C>(rej: Rejection<C, Error>): (e: Error)
    ensures Source(rej).Some? ==> e == Source(rej).value
    ensures Source(rej).None? ==> e == Rejected
  {
    match rej
    case Err(e) => e
    case Reject(_, Some(e)) => e
    case Reject(_, None) => Rejected
  }

  /** Every name a band's dependency lists mention is a registered task. */
  ghost predicate Runnable<C>(band: Band<C>) {
    forall t, n | t in band.dependencies && n in band.dependencies[t] :: n in band.tasks
  }

  /** The loop of `run_tasks`: the actions of `schedule`, in order, each
      given the context the previous one returned; the final context. */
  function RunSchedule<C(!new)>(tasks: map<Name, TaskDesc<C>>, schedule: seq<Name>, ctx: C): (r: Result<C, Error>)
    requires forall n | n in schedule :: n in tasks
    ensures (forall n, c: C | n in schedule :: tasks[n].action(c).Ok?) ==> r.Ok?
    ensures r.Fail? ==> exists n, c: C | n in schedule :: tasks[n].action(c).Fail? && AsError(tasks[n].action(c).error) == r.error
    decreases |schedule|
  {
    if schedule == [] then Ok(ctx)
    else
      match tasks[schedule[0]].action(ctx)
      case Fail(rej) => Fail(AsError(rej))
      case Ok(next) => RunSchedule(tasks, schedule[1..], next)
  }

  lemma {:induction false} RequestedFromLists<C>(band: Band<C>, names: seq<Name>)
    requires Requested(band, names).Ok?
    ensures forall n | n in Requested(band, names).value ::
              exists t | t in names :: t in band.dependencies && n in band.dependencies[t]
  {
    if names != [] {
      RequestedFromLists(band, names[1..]);
    }
  }

  lemma ScheduleRunnable<C>(band: Band<C>, names: seq<Name>)
    requires Runnable(band) && GetAllTasks(band, names).Ok?
    ensures forall n | n in GetAllTasks(band, names).value :: n in band.tasks
  {
    var all := Requested(band, names).value;
    RequestedFromLists(band, names);
    assert Elems(Dedup(all)) == Elems(all);
    forall n | n in GetAllTasks(band, names).value
      ensures n in band.tasks
    {
      assert n in Elems(all);
    }
  }

  /** `Band::run_tasks`. */
  function RunTasks<C(!new)>(band: Band<C>, names: seq<Name>, ctx: C): (r: Result<(), Error>)
    requires Runnable(band)
    ensures (exists n | n in names :: n !in band.dependencies) ==> r.Fail? && r.error.TaskNotFound? && r.error.name in names
    ensures (exists n | n in names :: n !in band.dependencies) ==>
              exists i | FirstUnregistered(band, names, i) :: r == Fail(TaskNotFound(names[i]))
    ensures (forall n | n in names :: n in band.dependencies) && (forall n, c: C | n in band.tasks :: band.tasks[n].action(c).Ok?) ==> r == Ok(())
  {
    match GetAllTasks(band, names)
    case Fail(e) => Fail(e)
    case Ok(schedule) =>
      ScheduleRunnable(band, names);
      match RunSchedule(band.tasks, schedule, ctx)
      case Fail(e) => Fail(e)
      case Ok(_) => Ok(())
  }

  /** `Band::run`. */
  function RunTask<C(!new)>(band: Band<C>, name: Name, ctx: C): (r: Result<(), Error>)
    requires Runnable(band)
    ensures name !in band.dependencies ==> r == Fail(TaskNotFound(name))
    ensures name in band.dependencies && (forall n, c: C | n in band.tasks :: band.tasks[n].action(c).Ok?) ==> r == Ok(())
  {
    RunTasks(band, [name], ctx)
  }
}
