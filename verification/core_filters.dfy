/** Filters in `tasks-core` (tasks-core/src/filter/, tasks-core/src/_filter/,
    tasks-core/src/filters2/): a filter answers a request with values
    extracted from it, or fails with a plain error; it never rejects. The
    extracted tuple is a sequence, and combining tuples is concatenation.
    Two shapes occur: an owned filter hands the request back with its
    extract, a by-reference filter only reads it. */
module CoreFilters {
  import opened Wrappers
  import opened CoreTasks
  import Service
  import Rejections
  import TasksExamples
  import Decimal

  type Filter<!R, V, F> = R -> Result<(R, seq<V>), F>

  type RefFilter<!R, V, F> = R -> Result<seq<V>, F>

  /** `FilterFn::filter` (filter/filter.rs): the closure works on the
      request in place; its error is the filter's error, its values the
      extract, returned with the request as the closure left it. */
  function FilterFn<R, V, F>(func: R -> (R, Result<seq<V>, F>), req: R): (r: Result<(R, seq<V>), F>)
    ensures r.Ok? <==> func(req).1.Ok?
    ensures r.Ok? ==> r.value.0 == func(req).0 && r.value.1 == func(req).1.value
    ensures r.Fail? ==> r.error == func(req).1.error
  {
    match func(req).1
    case Ok(ex) => Ok((func(req).0, ex))
    case Fail(e) => Fail(e)
  }

  /** `filter_fn_one`: a closure giving one value extracts a one-element
      tuple. */
  function FilterFnOne<R, V, F>(func: R -> (R, Result<V, F>), req: R): (r: Result<(R, seq<V>), F>)
    ensures r.Ok? <==> func(req).1.Ok?
    ensures r.Ok? ==> r.value == (func(req).0, [func(req).1.value])
    ensures r.Fail? ==> r.error == func(req).1.error
  {
    FilterFn((q: R) => (func(q).0, match func(q).1 case Ok(v) => Ok([v]) case Fail(e) => Fail(e)), req)
  }

  /** `FilteredTaskFuture::poll` (filter/filter.rs) and `MapTaskFuture::poll`
      (_filter/map.rs, filters2/map.rs, for a one-element extract): a
      filter's result as a task outcome, the request dropped on success and
      the error made hard. */
  function AsTask<R, O, F>(o: Result<(R, O), F>): (r: CoreTasks.Outcome<O, R, F>)
    ensures r.Ok? <==> o.Ok?
    ensures r.Ok? ==> r.value == o.value.1
    ensures r.Fail? ==> r == Fail(Err(o.error))
  {
    match o
    case Ok((_, v)) => Ok(v)
    case Fail(e) => Fail(Err(e))
  }

  /** A filter run as a task never rejects, and it fails exactly when the
      filter does. */
  lemma FilteredTaskNeverRejects<R, V, F>(func: R -> (R, Result<seq<V>, F>), req: R)
    ensures AsTask(FilterFn(func, req)).Fail? ==> AsTask(FilterFn(func, req)).error.Err?
    ensures AsTask(FilterFn(func, req)) ==
              match func(req).1
              case Ok(ex) => Ok(ex)
              case Fail(e) => Fail(Err(e))
  {
  }

  /** `AndFuture::poll` of filter/and.rs: both filters read the same
      request; the first error stops, the second's is returned through the
      identity conversion; the extracts are concatenated. */
  function RefAnd<R, V, F>(f1: RefFilter<R, V, F>, f2: RefFilter<R, V, F>, req: R): (r: Result<seq<V>, F>)
    ensures r.Ok? <==> f1(req).Ok? && f2(req).Ok?
    ensures r.Ok? ==> r.value == f1(req).value + f2(req).value
    ensures f1(req).Fail? ==> r == Fail(f1(req).error)
    ensures f1(req).Ok? && f2(req).Fail? ==> r == Fail(f2(req).error)
  {
    match f1(req)
    case Fail(e) => Fail(e)
    case Ok(ex1) =>
      match f2(req)
      case Fail(e) => Fail(e)
      case Ok(ex2) => Ok(ex1 + ex2)
  }

  /** By-reference `and` groups either way. */
  lemma RefAndAssociative<R, V, F>(a: RefFilter<R, V, F>, b: RefFilter<R, V, F>, c: RefFilter<R, V, F>, req: R)
    ensures RefAnd((q: R) => RefAnd(a, b, q), c, req) == RefAnd(a, (q: R) => RefAnd(b, c, q), req)
  {
    match a(req)
    case Fail(_) =>
    case Ok(ex1) =>
      match b(req)
      case Fail(_) =>
      case Ok(ex2) =>
        match c(req)
        case Fail(_) =>
        case Ok(ex3) =>
          assert (ex1 + ex2) + ex3 == ex1 + (ex2 + ex3);
  }

  /** `map` on a by-reference filter: the callback turns the extract into
      one value. */
  function RefMap<R, V, W, F>(f: RefFilter<R, V, F>, cb: seq<V> -> W, req: R): (r: Result<seq<W>, F>)
    ensures r.Ok? <==> f(req).Ok?
    ensures r.Ok? ==> r.value == [cb(f(req).value)]
    ensures r.Fail? ==> r.error == f(req).error
  {
    match f(req)
    case Ok(ex) => Ok([cb(ex)])
    case Fail(e) => Fail(e)
  }

  /** The crate's filter test: two constant one-value filters joined and
      formatted give the two texts separated by a space. */
  function Greeting(req: string): Result<seq<string>, ()> { Ok(["Hello, World"]) }

  function Greeting2(req: string): Result<seq<string>, ()> { Ok(["Hello, World2"]) }

  function JoinTwo(ex: seq<string>): string {
    if |ex| == 2 then ex[0] + " " + ex[1] else ""
  }

  lemma GreetingsJoined(req: string)
    ensures RefMap((q: string) => RefAnd(Greeting, Greeting2, q), JoinTwo, req) == Ok(["Hello, World Hello, World2"])
  {
    assert ["Hello, World"] + ["Hello, World2"] == ["Hello, World", "Hello, World2"];
    assert "Hello, World" + " " + "Hello, World2" == "Hello, World Hello, World2";
  }

  /** `AndThenFuture::poll` (filter/and_then.rs): the callback gets the
      extract while the request is held; its value is extracted next to the
      request, its error converted into the filter's. */
  function AndThen<R, V, W, F, G>(f: Filter<R, V, F>, cb: seq<V> -> Result<W, G>, into: G -> F, req: R): (r: Result<(R, seq<W>), F>)
    ensures r.Ok? <==> f(req).Ok? && cb(f(req).value.1).Ok?
    ensures r.Ok? ==> r.value == (f(req).value.0, [cb(f(req).value.1).value])
    ensures f(req).Fail? ==> r == Fail(f(req).error)
    ensures f(req).Ok? && cb(f(req).value.1).Fail? ==> r == Fail(into(cb(f(req).value.1).error))
  {
    match f(req)
    case Fail(e) => Fail(e)
    case Ok((q, ex)) =>
      match cb(ex)
      case Ok(w) => Ok((q, [w]))
      case Fail(g) => Fail(into(g))
  }

  /** `MapFuture::poll` of _filter/map.rs: the callback turns the extract
      into one value and the request is kept. */
  function Map<R, V, W, F>(f: Filter<R, V, F>, cb: seq<V> -> W, req: R): (r: Result<(R, seq<W>), F>)
    ensures r.Ok? <==> f(req).Ok?
    ensures r.Ok? ==> r.value == (f(req).value.0, [cb(f(req).value.1)])
    ensures r.Fail? ==> r == Fail(f(req).error)
  {
    match f(req)
    case Ok((q, ex)) => Ok((q, [cb(ex)]))
    case Fail(e) => Fail(e)
  }

  /** A callback that cannot fail makes `and_then` a `map`. */
  lemma AndThenOfTotal<R, V, W, F, G>(f: Filter<R, V, F>, cb: seq<V> -> W, into: G -> F, req: R)
    ensures AndThen(f, (ex: seq<V>) => Ok(cb(ex)), into, req) == Map(f, cb, req)
  {
  }

  /** A mapped filter run as a task is the callback's value and never
      rejects. */
  lemma MapAsTask<R, V, W, F>(f: Filter<R, V, F>, cb: seq<V> -> W, req: R)
    ensures AsTask(Map(f, cb, req)).Ok? ==> AsTask(Map(f, cb, req)).value == [cb(f(req).value.1)]
    ensures AsTask(Map(f, cb, req)).Fail? ==> AsTask(Map(f, cb, req)) == Fail(Err(f(req).error))
  {
  }

  /** `Extract::unpack` for `(R, U)`: the pair as it is. */
  function Unpack<R, U>(out: (R, U)): (r: (R, U))
    ensures r.0 == out.0 && r.1 == out.1
  {
    out
  }

  /** `MapFuture::poll` of filters2/map.rs: `map` on a task whose output is
      a request with an extract; an upstream rejection of either kind is
      returned as it is. */
  function TaskMap<R, V, W, E>(t: Task<R, (R, seq<V>), E>, cb: seq<V> -> W, req: R): (r: CoreTasks.Outcome<(R, seq<W>), R, E>)
    ensures r.Ok? <==> t(req).Ok?
    ensures r.Ok? ==> r.value == (t(req).value.0, [cb(t(req).value.1)])
    ensures r.Fail? ==> r == Fail(t(req).error)
  {
    match t(req)
    case Ok(out) => var (q, ex) := Unpack(out); Ok((q, [cb(ex)]))
    case Fail(rej) => Fail(rej)
  }

  /** The same `map` as the `service` crate's, for tasks without
      diagnostics. */
  lemma TaskMapIsServiceMap<R, V, W, E>(t: Task<R, (R, seq<V>), E>, cb: seq<V> -> W, req: R)
    ensures TaskMap(t, cb, req) == Lower(Service.Map((q: R) => Lift(t(q)), cb, req))
  {
  }

  function NameTask(p: TasksExamples.Person): CoreTasks.Outcome<(TasksExamples.Person, seq<TasksExamples.Field>), TasksExamples.Person, ()> {
    Ok((p, [TasksExamples.Text(p.name)]))
  }

  function AgeTask(p: TasksExamples.Person): CoreTasks.Outcome<(TasksExamples.Person, seq<TasksExamples.Field>), TasksExamples.Person, ()> {
    Ok((p, [TasksExamples.Age(p.age)]))
  }

  /** The `filters2` test: name and age extracted, formatted, unrolled and
      taken out of the one-element tuple. */
  function DescribePerson(p: TasksExamples.Person): CoreTasks.Outcome<string, TasksExamples.Person, ()> {
    match TaskMap((q: TasksExamples.Person) => Service.And(NameTask, AgeTask, q), TasksExamples.Describe, p)
    case Ok((_, one)) => if |one| == 1 then Ok(one[0]) else Ok("")
    case Fail(rej) => Fail(rej)
  }

  lemma DescribesEveryPerson(p: TasksExamples.Person)
    ensures DescribePerson(p) == Ok("name: " + p.name + ", age: " + Decimal.Format(p.age))
    ensures DescribePerson(TasksExamples.Person("Rasmus", 36)) == Ok("name: Rasmus, age: 36")
  {
    assert [TasksExamples.Text(p.name)] + [TasksExamples.Age(p.age)] == [TasksExamples.Text(p.name), TasksExamples.Age(p.age)];
    var rasmus := TasksExamples.Person("Rasmus", 36);
    assert [TasksExamples.Text(rasmus.name)] + [TasksExamples.Age(rasmus.age)] == [TasksExamples.Text(rasmus.name), TasksExamples.Age(rasmus.age)];
    TasksExamples.DescribeExample();
    TasksExamples.DescribesEveryPerson(rasmus);
  }
}
