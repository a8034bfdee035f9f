/** The `tasks-core` crate's task combinators (tasks-core/src/or.rs,
    tasks-core/src/pipe.rs, tasks-core/src/map.rs,
    tasks-core/src/task_ext.rs). Its rejection carries no diagnostic: a
    task either fails with an error or hands its request back. */
module CoreTasks {
  import opened Wrappers
  import Rejections
  import Service
  import Decimal

  datatype Rejection<R, E> = Err(error: E) | Reject(request: R)

  type Outcome<O, R, E> = Result<O, Rejection<R, E>>

  type Task<!R, O, E> = R -> Outcome<O, R, E>

  /** `OrFuture::poll`: both tasks share one output and error type, so
      nothing is tagged; the second task runs on the rejected request and
      its outcome is the result. */
  function Or<R, O, E>(t1: Task<R, O, E>, t2: Task<R, O, E>, req: R): (r: Outcome<O, R, E>)
    ensures t1(req).Ok? || t1(req).error.Err? ==> r == t1(req)
    ensures t1(req).Fail? && t1(req).error.Reject? ==> r == t2(t1(req).error.request)
  {
    match t1(req)
    case Ok(o) => Ok(o)
    case Fail(Err(e)) => Fail(Err(e))
    case Fail(Reject(q)) => t2(q)
  }

  /** A rejection of this crate as one of the `service` crate, and back. */
  function Lift<O, R, E>(o: Outcome<O, R, E>): Rejections.Outcome<O, R, E> {
    match o
    case Ok(v) => Ok(v)
    case Fail(Err(e)) => Fail(Rejections.Err(e))
    case Fail(Reject(q)) => Fail(Rejections.Reject(q, None))
  }

  function Lower<O, R, E>(o: Rejections.Outcome<O, R, E>): Outcome<O, R, E> {
    match o
    case Ok(v) => Ok(v)
    case Fail(rej) => if rej.Err? then Fail(Err(rej.error)) else Fail(Reject(rej.request))
  }

  lemma LowerLift<O, R, E>(o: Outcome<O, R, E>)
    ensures Lower(Lift(o)) == o
  {
  }

  /** This crate's `or` is the fallback of the `service` crate on tasks
      that never give a diagnostic. */
  lemma OrIsFallback<R, O, E>(t1: Task<R, O, E>, t2: Task<R, O, E>, req: R)
    ensures Or(t1, t2, req) == Lower(Service.Fallback((q: R) => Lift(t1(q)), (q: R) => Lift(t2(q)), req))
  {
  }

  /** Chained `or`s group either way: the first task that does not reject
      decides. */
  lemma OrAssociative<R, O, E>(a: Task<R, O, E>, b: Task<R, O, E>, c: Task<R, O, E>, req: R)
    ensures Or((q: R) => Or(a, b, q), c, req) == Or(a, (q: R) => Or(b, c, q), req)
  {
  }

  /** `PipeFuture::poll`: the second task runs on the first's output. A
      rejection by the second cannot hand back the original request, and
      the code panics on it. */
  function Pipe<R, M, O, E>(t1: Task<R, M, E>, t2: Task<M, O, E>, req: R): (r: Run<Outcome<O, R, E>>)
    ensures r.Panic? <==> t1(req).Ok? && t2(t1(req).value).Fail? && t2(t1(req).value).error.Reject?
    ensures r.Done? && r.value.Ok? <==> t1(req).Ok? && t2(t1(req).value).Ok?
    ensures r.Done? && r.value.Fail? && r.value.error.Reject? ==> t1(req) == Fail(r.value.error)
  {
    match t1(req)
    case Fail(Err(e)) => Done(Fail(Err(e)))
    case Fail(Reject(q)) => Done(Fail(Reject(q)))
    case Ok(m) =>
      match t2(m)
      case Ok(o) => Done(Ok(o))
      case Fail(Err(e)) => Done(Fail(Err(e)))
      case Fail(Reject(_)) => Panic("should propragate cause")
  }

  function LowerRun<O, R, E>(r: Run<Rejections.Outcome<O, R, E>>): Run<Outcome<O, R, E>> {
    match r
    case Done(o) => Done(Lower(o))
    case Panic(m) => Panic(m)
  }

  /** The pipe is the `service` crate's `then` on tasks that never give a
      diagnostic: there a diagnostic-free late rejection panics too. */
  lemma PipeIsThen<R, M, O, E>(t1: Task<R, M, E>, t2: Task<M, O, E>, req: R)
    ensures Pipe(t1, t2, req).Done? == Service.Then((q: R) => Lift(t1(q)), (m: M) => Lift(t2(m)), req).Done?
    ensures Pipe(t1, t2, req).Done? ==>
              Pipe(t1, t2, req) == LowerRun(Service.Then((q: R) => Lift(t1(q)), (m: M) => Lift(t2(m)), req))
  {
  }

  /** The error type of `Map`: `MapError::Err` carries a task's error,
      `MapError::Reject` marks a rejection the second task can no longer
      hand back. */
  datatype MapError<E> = Failed(cause: E) | Rejected

  /** `MapFuture::poll`, the combinator `then` builds: like the pipe, but a
      late rejection becomes the hard error `MapError::Reject`, and both
      tasks' errors are wrapped. */
  function Map<R, M, O, E>(t1: Task<R, M, E>, t2: Task<M, O, E>, req: R): (r: Outcome<O, R, MapError<E>>)
    ensures r.Ok? <==> t1(req).Ok? && t2(t1(req).value).Ok?
    ensures r.Fail? && r.error.Reject? <==> t1(req).Fail? && t1(req).error.Reject?
    ensures r.Fail? && r.error.Reject? ==> r.error.request == t1(req).error.request
    ensures r.Fail? && r.error.Err? && r.error.error.Rejected? <==>
              t1(req).Ok? && t2(t1(req).value).Fail? && t2(t1(req).value).error.Reject?
  {
    match t1(req)
    case Fail(Err(e)) => Fail(Err(Failed(e)))
    case Fail(Reject(q)) => Fail(Reject(q))
    case Ok(m) =>
      match t2(m)
      case Ok(o) => Ok(o)
      case Fail(Err(e)) => Fail(Err(Failed(e)))
      case Fail(Reject(_)) => Fail(Err(Rejected))
  }

  function WrapError<O, R, E>(o: Outcome<O, R, E>): Outcome<O, R, MapError<E>> {
    match o
    case Ok(v) => Ok(v)
    case Fail(Err(e)) => Fail(Err(Failed(e)))
    case Fail(Reject(q)) => Fail(Reject(q))
  }

  /** `Map` is the pipe with its panic replaced by `MapError::Reject`. */
  lemma MapIsPipeWithoutPanic<R, M, O, E>(t1: Task<R, M, E>, t2: Task<M, O, E>, req: R)
    ensures Pipe(t1, t2, req).Done? ==> Map(t1, t2, req) == WrapError(Pipe(t1, t2, req).value)
    ensures Pipe(t1, t2, req).Panic? ==> Map(t1, t2, req) == Fail(Err(Rejected))
  {
  }

  /** The three tasks of the crate's `or` test, and the chain. */
  function AcceptOne(req: int): Outcome<int, int, ()> {
    if req != 1 then Fail(Reject(req)) else Ok(req + 1)
  }

  function AcceptTwo(req: int): Outcome<int, int, ()> {
    if req != 2 then Fail(Reject(req)) else Ok(req + 2)
  }

  function AcceptAll(req: int): Outcome<int, int, ()> {
    Ok(req + 3)
  }

  function OrChain(req: int): Outcome<int, int, ()> {
    Or((q: int) => Or(AcceptOne, AcceptTwo, q), AcceptAll, req)
  }

  /** The first accepting task answers: 1 gives 2, 2 gives 4, any other
      `i32` n gives n + 3, as long as that sum fits an `i32`. */
  lemma OrChainFirstAcceptingWins(n: int)
    requires Decimal.I32Min <= n && n + 3 <= Decimal.I32Max
    ensures OrChain(n) == Ok(if n == 1 then 2 else if n == 2 then 4 else n + 3)
  {
  }

  /** The stages of the crate's `then` test: increment and format; parse
      and increment; increment. The test's `unwrap` would panic on text that
      does not parse as an `i32`; the chain never produces any, so that
      branch is given a plain error. */
  function FormatNext(n: int): Outcome<string, int, ()> {
    Ok(Decimal.FormatInt(n + 1))
  }

  function ParseNext(s: string): Outcome<int, string, ()> {
    match Decimal.ParseInt(s, Decimal.I32Min, Decimal.I32Max)
    case Some(p) => Ok(p + 1)
    case None => Fail(Err(()))
  }

  function Next(n: int): Outcome<int, int, MapError<()>> {
    Ok(n + 1)
  }

  /** `t1.then(t2).then(t3)`: two nested `Map`s. */
  function ThenChain(n: int): Outcome<int, int, MapError<MapError<()>>> {
    Map((q: int) => Map(FormatNext, ParseNext, q), Next, n)
  }

  /** Every stage adds one, for every `i32` input whose last sum still fits
      an `i32`, so 1 gives 4; the crate's test expects 3. */
  lemma ThenChainAddsThree(n: int)
    requires Decimal.I32Min <= n && n + 3 <= Decimal.I32Max
    ensures ThenChain(n) == Ok(n + 3)
    ensures ThenChain(1) != Ok(3)
  {
    Decimal.ParseFormatInt(n + 1, Decimal.I32Min, Decimal.I32Max);
    Decimal.ParseFormatInt(2, Decimal.I32Min, Decimal.I32Max);
  }
}
