/** The combinators of the `tasks` crate (tasks/src) that differ from the
    `service` ones. Tasks share the `Rejection` of `service`; `And`,
    `MapErr` and `FilterPipe` of this crate behave exactly as `Service.And`,
    `Service.MapErr` and `Service.AndThenReject`. */
module Tasks {
  import opened Wrappers
  import opened Rejections
  import Service

  type Task<!R, O, E> = Service.Svc<R, O, E>

  /** `RejectFuture::poll` (tasks/src/task.rs): a rejection that carries a
      diagnostic is promoted to a hard error with it. */
  function RejectWrap<R, O, E>(o: Outcome<O, R, E>): (r: Outcome<O, R, E>)
    ensures r.Ok? <==> o.Ok?
    ensures r.Ok? ==> r.value == o.value
    ensures r.Fail? ==> Source(r.error) == Source(o.error)
    ensures r.Fail? && r.error.Reject? ==> r.error.cause.None? && r == o
  {
    match o
    case Ok(v) => Ok(v)
    case Fail(Err(e)) => Fail(Err(e))
    case Fail(Reject(_, Some(e))) => Fail(Err(e))
    case Fail(Reject(q, None)) => Fail(Reject(q, None))
  }

  /** Wrapping twice is wrapping once. */
  lemma RejectWrapIdempotent<R, O, E>(o: Outcome<O, R, E>)
    ensures RejectWrap(RejectWrap(o)) == RejectWrap(o)
  {
  }

  /** `OrFuture::poll` (tasks/src/or.rs): outputs are tagged, errors are
      not; whatever the second task fails with is returned as it is. */
  function Or<R, O1, O2, E>(t1: Task<R, O1, E>, t2: Task<R, O2, E>, req: R): (r: Outcome<Either<O1, O2>, R, E>)
    ensures r.Ok? && r.value.A? <==> t1(req).Ok?
    ensures t1(req).Ok? ==> r == Ok(A(t1(req).value))
    ensures t1(req).Fail? && t1(req).error.Reject? && t2(t1(req).error.request).Ok? ==>
              r == Ok(B(t2(t1(req).error.request).value))
    ensures t1(req).Fail? && t1(req).error.Err? ==> r == Fail(t1(req).error)
    ensures t1(req).Fail? && t1(req).error.Reject? && t2(t1(req).error.request).Fail? ==>
              r == Fail(t2(t1(req).error.request).error)
  {
    match t1(req)
    case Ok(o) => Ok(A(o))
    case Fail(Err(e)) => Fail(Err(e))
    case Fail(Reject(q, _)) =>
      match t2(q)
      case Ok(o) => Ok(B(o))
      case Fail(rej) => Fail(rej)
  }

  /** `UnifyFuture::poll` (tasks/src/unify.rs): only the output tag is
      removed. */
  function Unify<R, T, E>(o: Outcome<Either<T, T>, R, E>): (r: Outcome<T, R, E>)
    ensures r.Ok? <==> o.Ok?
    ensures r.Fail? ==> r.error == o.error
  {
    match o
    case Ok(A(a)) => Ok(a)
    case Ok(B(b)) => Ok(b)
    case Fail(rej) => Fail(rej)
  }

  /** Unified, this crate's `or` is exactly the fallback, diagnostics of the
      second task included. */
  lemma OrUnifiesToFallback<R, O, E>(t1: Task<R, O, E>, t2: Task<R, O, E>, req: R)
    ensures Unify(Or(t1, t2, req)) == Service.Fallback(t1, t2, req)
  {
  }

  /** `AndThenFuture::poll` (tasks/src/and_then.rs): the callback gets the
      extract while the request is held; its value is returned next to the
      request; its error is converted into a hard error. */
  function AndThen<R, V, O, E, F>(t: Service.Extracting<R, V, E>, f: seq<V> -> Result<O, F>, into: F -> E, req: R)
    : (r: Outcome<(R, seq<O>), R, E>)
    ensures r.Ok? <==> t(req).Ok? && f(t(req).value.1).Ok?
    ensures r.Ok? ==> r.value == (t(req).value.0, [f(t(req).value.1).value])
    ensures t(req).Fail? ==> r == Fail(t(req).error)
    ensures t(req).Ok? && f(t(req).value.1).Fail? ==> r == Fail(Err(into(f(t(req).value.1).error)))
  {
    match t(req)
    case Fail(rej) => Fail(rej)
    case Ok((q, ex)) =>
      match f(ex)
      case Ok(item) => Ok((q, [item]))
      case Fail(e) => Fail(Err(into(e)))
  }

  /** `AndThenRejectFuture::poll` (tasks/src/and_then_reject.rs): as
      `AndThen`, but the callback fails with a rejection of its own, which
      is returned as it is. */
  function AndThenReject<R, V, O, E>(t: Service.Extracting<R, V, E>, f: seq<V> -> Outcome<O, R, E>, req: R)
    : (r: Outcome<(R, seq<O>), R, E>)
    ensures r.Ok? <==> t(req).Ok? && f(t(req).value.1).Ok?
    ensures r.Ok? ==> r.value == (t(req).value.0, [f(t(req).value.1).value])
    ensures t(req).Fail? ==> r == Fail(t(req).error)
    ensures t(req).Ok? && f(t(req).value.1).Fail? ==> r == Fail(f(t(req).value.1).error)
  {
    match t(req)
    case Fail(rej) => Fail(rej)
    case Ok((q, ex)) =>
      match f(ex)
      case Ok(item) => Ok((q, [item]))
      case Fail(rej) => Fail(rej)
  }

  /** A callback that cannot fail makes both `and_then`s the plain `map`. */
  lemma AndThenOfTotal<R, V, O, E, F>(t: Service.Extracting<R, V, E>, g: seq<V> -> O, into: F -> E, req: R)
    ensures AndThen(t, (ex: seq<V>) => Ok(g(ex)), into, req) == Service.Map(t, g, req)
    ensures AndThenReject(t, (ex: seq<V>) => Ok(g(ex)), req) == Service.Map(t, g, req)
  {
  }

  /** `FilterFn::run` (tasks/src/filter.rs): the closure sees the request
      mutably, so it returns the possibly changed request with its result;
      an error becomes a hard error, never a rejection. */
  function FilterFn<R, U, E>(func: R -> (R, Result<U, E>), req: R): (r: Outcome<(R, U), R, E>)
    ensures r.Ok? <==> func(req).1.Ok?
    ensures r.Ok? ==> r.value == (func(req).0, func(req).1.value)
    ensures r.Fail? ==> r.error == Err(func(req).1.error)
  {
    match func(req).1
    case Ok(u) => Ok((func(req).0, u))
    case Fail(e) => Fail(Err(e))
  }

  /** `filter_fn_one`: the single value becomes a one-element extract. */
  function FilterFnOne<R, U, E>(func: R -> (R, Result<U, E>), req: R): (r: Outcome<(R, seq<U>), R, E>)
    ensures r.Ok? <==> FilterFn(func, req).Ok?
    ensures r.Ok? ==> r.value == (FilterFn(func, req).value.0, [FilterFn(func, req).value.1])
    ensures r.Fail? ==> r.error == FilterFn(func, req).error
  {
    match FilterFn(func, req)
    case Ok((q, u)) => Ok((q, [u]))
    case Fail(rej) => Fail(rej)
  }

  /** `FilteredTaskFuture::poll`: a filter's result as a task's outcome,
      the request dropped on success and the error made hard. */
  function Unextract<R, O, E>(o: Result<(R, O), E>): (r: Outcome<O, R, E>)
    ensures r.Ok? <==> o.Ok?
    ensures r.Ok? ==> r.value == o.value.1
    ensures r.Fail? ==> r.error == Err(o.error)
  {
    match o
    case Ok((_, v)) => Ok(v)
    case Fail(e) => Fail(Err(e))
  }

  /** The filter result of a filter function, before it is made a task. */
  function FilterResult<R, U, E>(func: R -> (R, Result<U, E>), req: R): Result<(R, U), E> {
    match func(req).1
    case Ok(u) => Ok((func(req).0, u))
    case Fail(e) => Fail(e)
  }

  /** Running a filter function as a task and unextracting its filter
      result agree on the output and the error. */
  lemma FilterFnUnextract<R, U, E>(func: R -> (R, Result<U, E>), req: R)
    ensures Unextract(FilterResult(func, req)).Ok? <==> FilterFn(func, req).Ok?
    ensures FilterFn(func, req).Ok? ==> Unextract(FilterResult(func, req)).value == FilterFn(func, req).value.1
    ensures FilterFn(func, req).Fail? ==> Unextract(FilterResult(func, req)).error == FilterFn(func, req).error
  {
  }

  /** `BoxOrFuture::poll` (tasks/src/boxed.rs): the tasks are tried in
      order, each on the request the previous one handed back; when the
      last one rejects, its rejection, diagnostic included, is the outcome. */
  function BoxOr<R, O, E>(tasks: seq<Task<R, O, E>>, req: R): (r: Outcome<O, R, E>)
    ensures tasks == [] ==> r == Fail(Reject(req, None))
    ensures |tasks| == 1 ==> r == tasks[0](req)
    decreases |tasks|
  {
    if tasks == [] then Fail(Reject(req, None))
    else if |tasks| == 1 then tasks[0](req)
    else
      match tasks[0](req)
      case Fail(Reject(q, _)) => BoxOr(tasks[1..], q)
      case other => other
  }

  /** Where the state machine stands after an outcome `r`, with the tasks
      `rest` not yet tried. */
  function Resume<R, O, E>(r: Outcome<O, R, E>, rest: seq<Task<R, O, E>>): Outcome<O, R, E> {
    if rest == [] then r
    else
      match r
      case Fail(Reject(q, _)) => BoxOr(rest, q)
      case other => other
  }

  /** The state machine, as a loop over the index `next`. */
  method BoxOrRun<R, O, E>(tasks: seq<Task<R, O, E>>, req: R) returns (r: Outcome<O, R, E>)
    ensures r == BoxOr(tasks, req)
  {
    if tasks == [] {
      return Fail(Reject(req, None));
    }
    r := tasks[0](req);
    var next := 1;
    while next < |tasks| && r.Fail? && r.error.Reject?
      invariant 1 <= next <= |tasks|
      invariant Resume(r, tasks[next..]) == BoxOr(tasks, req)
      decreases |tasks| - next
    {
      assert tasks[next..][1..] == tasks[next + 1..];
      r := tasks[next](r.error.request);
      next := next + 1;
    }
  }

  /** `BoxOr` and `VecService` agree on every success and hard error and on
      the request handed back; only `BoxOr` keeps the last diagnostic. */
  lemma {:induction false} BoxOrAgreesWithVec<R, O, E>(tasks: seq<Task<R, O, E>>, req: R)
    ensures var b := BoxOr(tasks, req);
            var v := Service.VecCall(tasks, req);
            (b.Fail? && b.error.Reject? ==> v == Fail(Reject(b.error.request, None)))
            && (!(b.Fail? && b.error.Reject?) ==> v == b)
    decreases |tasks|
  {
    if |tasks| == 1 {
      assert tasks[1..] == [];
    } else if |tasks| > 1 {
      match tasks[0](req)
      case Fail(Reject(q, _)) => BoxOrAgreesWithVec(tasks[1..], q);
      case _ =>
    }
  }

  /** The request that reaches the last task when every earlier one
      rejects, each handing its request on. */
  function HandedDown<R, O, E>(tasks: seq<Task<R, O, E>>, req: R): R
    decreases |tasks|
  {
    if |tasks| <= 1 then req
    else
      match tasks[0](req)
      case Fail(Reject(q, _)) => HandedDown(tasks[1..], q)
      case _ => req
  }

  /** A rejection of a non-empty `BoxOr` is the last task's own answer, on
      the request handed down to it, so its diagnostic survives. */
  lemma {:induction false} BoxOrLastRejection<R, O, E>(tasks: seq<Task<R, O, E>>, req: R)
    requires |tasks| > 0
    ensures BoxOr(tasks, req).Fail? && BoxOr(tasks, req).error.Reject? ==>
              BoxOr(tasks, req) == tasks[|tasks| - 1](HandedDown(tasks, req))
    decreases |tasks|
  {
    if |tasks| > 1 {
      match tasks[0](req)
      case Fail(Reject(q, _)) =>
        BoxOrLastRejection(tasks[1..], q);
        assert tasks[1..][|tasks[1..]| - 1] == tasks[|tasks| - 1];
      case _ =>
    }
  }

  /** Two boxed tasks are `or` followed by `unify`. */
  lemma BoxOrPairIsOr<R, O, E>(t1: Task<R, O, E>, t2: Task<R, O, E>, req: R)
    ensures BoxOr([t1, t2], req) == Unify(Or(t1, t2, req))
  {
    assert [t1, t2][1..] == [t2];
  }

  /** `MapRejectionFuture::poll` (tasks/src/_map_rejection.rs): the
      callback converts the handed-back request of a rejection only. */
  function MapRejection<R1, R2, O, E>(o: Outcome<O, R1, E>, cb: R1 -> R2): (r: Outcome<O, R2, E>)
    ensures r.Ok? <==> o.Ok?
    ensures r.Ok? ==> r.value == o.value
    ensures r.Fail? ==> (r.error.Err? <==> o.error.Err?)
    ensures r.Fail? && r.error.Err? ==> r.error.error == o.error.error
    ensures r.Fail? && r.error.Reject? ==>
              r.error.request == cb(o.error.request) && r.error.cause == o.error.cause
  {
    match o
    case Ok(v) => Ok(v)
    case Fail(Err(e)) => Fail(Err(e))
    case Fail(Reject(q, e)) => Fail(Reject(cb(q), e))
  }

  /** Mapping rejections is a functor on the request: the identity changes
      nothing and two mappings compose. */
  lemma MapRejectionLaws<R1, R2, R3, O, E>(o: Outcome<O, R1, E>, f: R1 -> R2, g: R2 -> R3)
    ensures MapRejection(o, (q: R1) => q) == o
    ensures MapRejection(MapRejection(o, f), g) == MapRejection(o, (q: R1) => g(f(q)))
  {
  }
}
