/** The combinators of the `service` crate (service/src): a service takes a
    request and completes with an output, or with a `Rejection` that either
    is a hard error or hands the request back. Futures are modelled by what
    they complete with, so a service is a function of its request. */
module Service {
  import opened Wrappers
  import opened Rejections

  type Svc<!R, O, E> = R -> Outcome<O, R, E>

  /** Extracting services complete with the request and the values they
      extracted from it; the heterogeneous list of extracted values is a
      sequence, and `Combine` is concatenation. */
  type Extracting<!R, V, E> = Svc<R, (R, seq<V>), E>

  /** The reference meaning of every "or" combinator: the first service's
      outcome, unless it rejects, in which case the second service is asked
      with the request the first handed back. */
  function Fallback<R, O, E>(t1: Svc<R, O, E>, t2: Svc<R, O, E>, req: R): Outcome<O, R, E> {
    match t1(req)
    case Fail(Reject(q, _)) => t2(q)
    case other => other
  }

  /** `OrFuture::poll` (service/src/or.rs). A hard error of the second
      service is tagged `A`, as if the first service had failed. */
  function Or<R, O1, O2, E>(t1: Svc<R, O1, E>, t2: Svc<R, O2, E>, req: R)
    : (r: Outcome<Either<O1, O2>, R, Either<E, E>>)
    ensures r.Ok? && r.value.A? <==> t1(req).Ok?
    ensures t1(req).Fail? && t1(req).error.Err? ==> r == Fail(Err(A(t1(req).error.error)))
    ensures r.Ok? && r.value.B? <==>
              t1(req).Fail? && t1(req).error.Reject? && t2(t1(req).error.request).Ok?
    ensures t1(req).Ok? ==> r == Ok(A(t1(req).value))
    ensures t1(req).Fail? && t1(req).error.Reject? ==>
              var o2 := t2(t1(req).error.request);
              && (o2.Ok? ==> r == Ok(B(o2.value)))
              && (o2.Fail? && o2.error.Err? ==> r == Fail(Err(A(o2.error.error))))
              && (o2.Fail? && o2.error.Reject? && o2.error.cause.Some? ==>
                    r == Fail(Reject(o2.error.request, Some(B(o2.error.cause.value)))))
              && (o2.Fail? && o2.error.Reject? && o2.error.cause.None? ==>
                    r == Fail(Reject(o2.error.request, None)))
  {
    match t1(req)
    case Ok(o) => Ok(A(o))
    case Fail(Err(e)) => Fail(Err(A(e)))
    case Fail(Reject(q, _)) =>
      match t2(q)
      case Ok(o) => Ok(B(o))
      case Fail(Err(e)) => Fail(Err(A(e)))
      case Fail(Reject(q2, Some(e))) => Fail(Reject(q2, Some(B(e))))
      case Fail(Reject(q2, None)) => Fail(Reject(q2, None))
  }

  /** `OrElseFuture::poll` (service/src/or_else.rs): as `Or`, but the second
      service's hard error is tagged `B`. */
  function OrElse<R, O1, O2, E1, E2>(t1: Svc<R, O1, E1>, t2: Svc<R, O2, E2>, req: R)
    : (r: Outcome<Either<O1, O2>, R, Either<E1, E2>>)
    ensures r.Ok? && r.value.A? <==> t1(req).Ok?
    ensures t1(req).Fail? && t1(req).error.Err? ==> r == Fail(Err(A(t1(req).error.error)))
    ensures r.Ok? && r.value.B? <==>
              t1(req).Fail? && t1(req).error.Reject? && t2(t1(req).error.request).Ok?
    ensures t1(req).Ok? ==> r == Ok(A(t1(req).value))
    ensures t1(req).Fail? && t1(req).error.Reject? ==>
              var o2 := t2(t1(req).error.request);
              && (o2.Ok? ==> r == Ok(B(o2.value)))
              && (o2.Fail? && o2.error.Err? ==> r == Fail(Err(B(o2.error.error))))
              && (o2.Fail? && o2.error.Reject? && o2.error.cause.Some? ==>
                    r == Fail(Reject(o2.error.request, Some(B(o2.error.cause.value)))))
              && (o2.Fail? && o2.error.Reject? && o2.error.cause.None? ==>
                    r == Fail(Reject(o2.error.request, None)))
  {
    match t1(req)
    case Ok(o) => Ok(A(o))
    case Fail(Err(e)) => Fail(Err(A(e)))
    case Fail(Reject(q, _)) =>
      match t2(q)
      case Ok(o) => Ok(B(o))
      case Fail(Err(e)) => Fail(Err(B(e)))
      case Fail(Reject(q2, Some(e))) => Fail(Reject(q2, Some(B(e))))
      case Fail(Reject(q2, None)) => Fail(Reject(q2, None))
  }

  /** `UnifyFuture::poll` (service/src/unify.rs): both tags removed. */
  function Unify<R, T, E>(o: Outcome<Either<T, T>, R, Either<E, E>>): (r: Outcome<T, R, E>)
    ensures r.Ok? <==> o.Ok?
    ensures r.Fail? ==> (r.error.Err? <==> o.error.Err?)
  {
    match o
    case Ok(A(a)) => Ok(a)
    case Ok(B(b)) => Ok(b)
    case Fail(Err(A(a))) => Fail(Err(a))
    case Fail(Err(B(b))) => Fail(Err(b))
    case Fail(Reject(q, Some(A(a)))) => Fail(Reject(q, Some(a)))
    case Fail(Reject(q, Some(B(b)))) => Fail(Reject(q, Some(b)))
    case Fail(Reject(q, None)) => Fail(Reject(q, None))
  }

  /** Tags every value of an outcome with `A` (resp. `B`). */
  function TagA<R, T, E>(o: Outcome<T, R, E>): Outcome<Either<T, T>, R, Either<E, E>> {
    match o
    case Ok(v) => Ok(A(v))
    case Fail(rej) => Fail(MapError(rej, (e: E) => A(e)))
  }

  function TagB<R, T, E>(o: Outcome<T, R, E>): Outcome<Either<T, T>, R, Either<E, E>> {
    match o
    case Ok(v) => Ok(B(v))
    case Fail(rej) => Fail(MapError(rej, (e: E) => B(e)))
  }

  /** `unify` undoes either tagging. */
  lemma UnifyUntags<R, T, E>(o: Outcome<T, R, E>)
    ensures Unify(TagA(o)) == o
    ensures Unify(TagB(o)) == o
  {
    match o
    case Ok(_) =>
    case Fail(Err(_)) =>
    case Fail(Reject(_, None)) =>
    case Fail(Reject(_, Some(_))) =>
  }

  /** With the tags removed, `or` and `or_else` are both the plain fallback:
      the second service is consulted exactly when the first rejects. */
  lemma OrUnifiesToFallback<R, O, E>(t1: Svc<R, O, E>, t2: Svc<R, O, E>, req: R)
    ensures Unify(Or(t1, t2, req)) == Fallback(t1, t2, req)
    ensures Unify(OrElse(t1, t2, req)) == Fallback(t1, t2, req)
  {
    match t1(req)
    case Ok(_) =>
    case Fail(Err(_)) =>
    case Fail(Reject(q, _)) =>
      match t2(q)
      case Ok(_) =>
      case Fail(Err(_)) =>
      case Fail(Reject(_, None)) =>
      case Fail(Reject(_, Some(_))) =>
  }

  /** The second service is never called unless the first rejects: two
      `or`s whose first services agree on a request and do not reject it
      agree on it, whatever their second services. */
  lemma OrSecondUnused<R, O1, O2, E>(t1: Svc<R, O1, E>, t2: Svc<R, O2, E>, u2: Svc<R, O2, E>, req: R)
    requires !(t1(req).Fail? && t1(req).error.Reject?)
    ensures Or(t1, t2, req) == Or(t1, u2, req)
    ensures OrElse(t1, t2, req) == OrElse(t1, u2, req)
  {
  }

  /** In `or_else` the tag of a hard error names the service that failed. */
  lemma OrElseTagIdentifiesBranch<R, O1, O2, E1, E2>(t1: Svc<R, O1, E1>, t2: Svc<R, O2, E2>, req: R, e: E2)
    ensures OrElse(t1, t2, req) == Fail(Err(B(e))) <==>
              t1(req).Fail? && t1(req).error.Reject? && t2(t1(req).error.request) == Fail(Err(e))
  {
  }

  /** In `or`, a hard error of the second service is reported with the tag
      of the first: whenever the first service rejects and the second fails
      with `e`, the answer is `Err(A(e))`, indistinguishable from a first
      service failing with `e`; `or_else` answers `Err(B(e))`. */
  lemma OrTagMisattributed<R, O1, O2, E>(t1: Svc<R, O1, E>, t2: Svc<R, O2, E>, u1: Svc<R, O1, E>, req: R, e: E)
    requires t1(req).Fail? && t1(req).error.Reject? && t2(t1(req).error.request) == Fail(Err(e))
    requires u1(req) == Fail(Err(e))
    ensures Or(t1, t2, req) == Fail(Err(A(e)))
    ensures Or(u1, t2, req) == Or(t1, t2, req)
    ensures OrElse(t1, t2, req) == Fail(Err(B(e)))
  {
  }

  /** `AndFuture::poll` (service/src/and.rs): the second service gets the
      request the first one returned; the extracts are concatenated; any
      failure of either is passed through. Only the request and extract
      matter, so the failure type is left open: the owned `and` of
      tasks-core/src/_filter/and.rs, whose failures are filter errors, is
      the same combinator. */
  function And<R, V, F>(t1: R -> Result<(R, seq<V>), F>, t2: R -> Result<(R, seq<V>), F>, req: R): (r: Result<(R, seq<V>), F>)
    ensures r.Ok? <==> t1(req).Ok? && t2(t1(req).value.0).Ok?
    ensures t1(req).Fail? ==> r == t1(req)
    ensures t1(req).Ok? && t2(t1(req).value.0).Fail? ==> r == t2(t1(req).value.0)
    ensures r.Ok? ==> r.value == (t2(t1(req).value.0).value.0, t1(req).value.1 + t2(t1(req).value.0).value.1)
  {
    match t1(req)
    case Fail(rej) => Fail(rej)
    case Ok((q, ex1)) =>
      match t2(q)
      case Fail(rej) => Fail(rej)
      case Ok((q2, ex2)) => Ok((q2, ex1 + ex2))
  }

  /** The extracting service that extracts nothing. */
  function Unit<R, V, E>(): Extracting<R, V, E> {
    (q: R) => Ok((q, []))
  }

  /** `and` is associative and has the empty extractor as unit on either
      side. */
  lemma AndAssociative<R, V, F>(a: R -> Result<(R, seq<V>), F>, b: R -> Result<(R, seq<V>), F>, c: R -> Result<(R, seq<V>), F>, req: R)
    ensures And((q: R) => And(a, b, q), c, req) == And(a, (q: R) => And(b, c, q), req)
  {
    match a(req)
    case Fail(_) =>
    case Ok((q, ex1)) =>
      match b(q)
      case Fail(_) =>
      case Ok((q2, ex2)) =>
        match c(q2)
        case Fail(_) =>
        case Ok((q3, ex3)) =>
          assert (ex1 + ex2) + ex3 == ex1 + (ex2 + ex3);
  }

  lemma AndUnit<R, V, E>(t: Extracting<R, V, E>, req: R)
    ensures And(Unit(), t, req) == t(req)
    ensures And(t, Unit(), req) == t(req)
  {
    match t(req)
    case Fail(_) =>
    case Ok((q, ex)) =>
      assert [] + ex == ex && ex + [] == ex;
  }

  /** `ThenFuture::poll` (service/src/then.rs): the second service gets the
      first's output. A rejection by the second cannot hand back the
      original request, so one with a diagnostic becomes that error and one
      without panics. */
  function Then<R, M, O, E>(t1: Svc<R, M, E>, t2: Svc<M, O, E>, req: R): (r: Run<Outcome<O, R, E>>)
    ensures r.Panic? <==> t1(req).Ok? && t2(t1(req).value).Fail?
                          && t2(t1(req).value).error.Reject? && t2(t1(req).value).error.cause.None?
    ensures r.Done? && r.value.Fail? && r.value.error.Reject? ==>
              t1(req) == Fail(r.value.error)
    ensures t1(req).Fail? ==> r == Done(Fail(t1(req).error))
    ensures t1(req).Ok? ==>
              var o2 := t2(t1(req).value);
              && (o2.Ok? ==> r == Done(Ok(o2.value)))
              && (o2.Fail? && o2.error.Err? ==> r == Done(Fail(Err(o2.error.error))))
              && (o2.Fail? && o2.error.Reject? && o2.error.cause.Some? ==>
                    r == Done(Fail(Err(o2.error.cause.value))))
  {
    match t1(req)
    case Fail(Err(e)) => Done(Fail(Err(e)))
    case Fail(Reject(q, e)) => Done(Fail(Reject(q, e)))
    case Ok(m) =>
      match t2(m)
      case Ok(o) => Done(Ok(o))
      case Fail(Err(e)) => Done(Fail(Err(e)))
      case Fail(Reject(_, Some(e))) => Done(Fail(Err(e)))
      case Fail(Reject(_, None)) => Panic("rejected")
  }

  /** A rejection turned into a hard error when it carries one. */
  function Harden<O, R, S, E>(o: Outcome<O, R, E>, q: S): Run<Outcome<O, S, E>> {
    match o
    case Ok(v) => Done(Ok(v))
    case Fail(Err(e)) => Done(Fail(Err(e)))
    case Fail(Reject(_, Some(e))) => Done(Fail(Err(e)))
    case Fail(Reject(_, None)) => Panic("rejected")
  }

  /** `then` with a pass-through second service is the first service; with
      a pass-through first service it is the second, with its rejections
      hardened. */
  lemma ThenIdentities<R, O, E>(t: Svc<R, O, E>, u: Svc<R, O, E>, req: R)
    ensures Then(t, (o: O) => Ok(o), req) == Done(t(req))
    ensures Then((q: R) => Ok(q), u, req) == Harden(u(req), req)
  {
  }

  /** `AndThenRejectFuture::poll` (service/src/and_then_reject.rs): like
      `then`, but the second service receives the request together with the
      first's extract, and its rejection hands back that request. */
  function AndThenReject<R, X, O, E>(t1: Svc<R, (R, X), E>, t2: Svc<(R, X), O, E>, req: R): (r: Outcome<O, R, E>)
    ensures r.Ok? <==> t1(req).Ok? && t2(t1(req).value).Ok?
    ensures r.Fail? && r.error.Reject? ==>
              (t1(req) == Fail(r.error))
              || (t1(req).Ok? && t2(t1(req).value).Fail? && t2(t1(req).value).error.Reject?
                  && r.error.request == t2(t1(req).value).error.request.0)
    ensures t1(req).Fail? ==> r == Fail(t1(req).error)
    ensures t1(req).Ok? ==>
              var o2 := t2(t1(req).value);
              && (o2.Ok? ==> r == Ok(o2.value))
              && (o2.Fail? && o2.error.Err? ==> r == Fail(Err(o2.error.error)))
              && (o2.Fail? && o2.error.Reject? ==>
                    r == Fail(Reject(o2.error.request.0, o2.error.cause)))
  {
    match t1(req)
    case Fail(Err(e)) => Fail(Err(e))
    case Fail(Reject(q, e)) => Fail(Reject(q, e))
    case Ok(m) =>
      match t2(m)
      case Ok(o) => Ok(o)
      case Fail(Err(e)) => Fail(Err(e))
      case Fail(Reject(p, e)) => Fail(Reject(p.0, e))
  }

  /** When the first service keeps the request and both hand back their
      input on rejection, a rejection of `and_then_reject` hands back the
      original request, so a following `or` can retry it. */
  lemma AndThenRejectRestoresRequest<R, X, O, E>(t1: Svc<R, (R, X), E>, t2: Svc<(R, X), O, E>, req: R)
    requires t1(req).Fail? && t1(req).error.Reject? ==> t1(req).error.request == req
    requires t1(req).Ok? ==> t1(req).value.0 == req
    requires t1(req).Ok? && t2(t1(req).value).Fail? && t2(t1(req).value).error.Reject? ==>
               t2(t1(req).value).error.request == t1(req).value
    ensures AndThenReject(t1, t2, req).Fail? && AndThenReject(t1, t2, req).error.Reject? ==>
              AndThenReject(t1, t2, req).error.request == req
  {
  }

  /** `MapFuture::poll` (service/src/map.rs): the callback turns the whole
      extract into a single value. */
  function Map<R, V, W, E>(t: Extracting<R, V, E>, f: seq<V> -> W, req: R): (r: Outcome<(R, seq<W>), R, E>)
    ensures r.Ok? <==> t(req).Ok?
    ensures r.Ok? ==> r.value == (t(req).value.0, [f(t(req).value.1)])
    ensures r.Fail? ==> r == Fail(t(req).error)
  {
    match t(req)
    case Fail(rej) => Fail(rej)
    case Ok((q, ex)) => Ok((q, [f(ex)]))
  }

  /** Mapping twice is mapping once with the composed callback. */
  lemma MapCompose<R, V, W, Z, E>(t: Extracting<R, V, E>, f: seq<V> -> W, g: seq<W> -> Z, req: R)
    ensures Map((q: R) => Map(t, f, q), g, req) == Map(t, (ex: seq<V>) => g([f(ex)]), req)
  {
  }

  /** `MapServiceFuture::poll`: the single extracted value becomes the
      output; the inner error becomes a hard error. */
  function MapServiceOutcome<R, I, E>(o: Result<(R, seq<I>), E>): (r: Outcome<I, R, E>)
    requires o.Ok? ==> |o.value.1| == 1
    ensures r.Ok? <==> o.Ok?
    ensures r.Fail? ==> r.error == Err(o.error)
    ensures r.Ok? ==> [r.value] == o.value.1
  {
    match o
    case Ok((_, one)) => Ok(one[0])
    case Fail(e) => Fail(Err(e))
  }

  /** `MapErrFuture::poll` (service/src/map_err.rs) and `ErrIntoFuture::poll`
      (service/src/err_into.rs, with `into` for `cb`). */
  function MapErr<R, O, E, F>(t: Svc<R, O, E>, cb: E -> F, req: R): (r: Outcome<O, R, F>)
    ensures r.Ok? <==> t(req).Ok?
    ensures r.Ok? ==> r.value == t(req).value
    ensures r.Fail? ==> (r.error.Err? <==> t(req).error.Err?)
    ensures r.Fail? ==> (Source(r.error).None? <==> Source(t(req).error).None?)
    ensures r.Fail? && Source(t(req).error).Some? ==>
              Source(r.error) == Some(cb(Source(t(req).error).value))
    ensures r.Fail? && r.error.Reject? ==> r.error.request == t(req).error.request
  {
    MapOutcomeError(t(req), cb)
  }

  /** Mapping the identity changes nothing; mapping twice maps the
      composition. */
  lemma MapErrLaws<R, O, E, F, G>(t: Svc<R, O, E>, f: E -> F, g: F -> G, req: R)
    ensures MapErr(t, (e: E) => e, req) == t(req)
    ensures MapErr((q: R) => MapErr(t, f, q), g, req) == MapErr(t, (e: E) => g(f(e)), req)
  {
    match t(req)
    case Ok(_) =>
    case Fail(rej) =>
      MapErrorIdentity(rej);
      MapErrorCompose(rej, f, g);
  }

  /** The loop of `VecService::call` (service/src/vec.rs): each service in
      turn gets the request the previous one handed back; the first success
      or hard error is the outcome; when all reject, the last request is
      rejected without a diagnostic. */
  function VecCall<R, O, E>(tasks: seq<Svc<R, O, E>>, req: R): (r: Outcome<O, R, E>)
    ensures tasks == [] ==> r == Fail(Reject(req, None))
    ensures r.Fail? && r.error.Reject? ==> r.error.cause.None?
  {
    if tasks == [] then Fail(Reject(req, None))
    else
      match tasks[0](req)
      case Fail(Reject(q, _)) => VecCall(tasks[1..], q)
      case other => other
  }

  /** The same loop, as the source writes it. */
  method VecService<R, O, E>(tasks: seq<Svc<R, O, E>>, req: R) returns (r: Outcome<O, R, E>)
    ensures r == VecCall(tasks, req)
  {
    var q := req;
    var i := 0;
    while i < |tasks|
      invariant 0 <= i <= |tasks|
      invariant VecCall(tasks[i..], q) == VecCall(tasks, req)
    {
      assert tasks[i..][1..] == tasks[i + 1..];
      match tasks[i](q)
      case Ok(o) => return Ok(o);
      case Fail(Err(e)) => return Fail(Err(e));
      case Fail(Reject(q2, _)) => q := q2;
      i := i + 1;
    }
    assert tasks[i..] == [];
    r := Fail(Reject(q, None));
  }

  /** A vector of services tries them in order: splitting it anywhere is
      trying the first part, then the second with the handed-back request. */
  lemma {:induction false} VecCallAppend<R, O, E>(a: seq<Svc<R, O, E>>, b: seq<Svc<R, O, E>>, req: R)
    ensures VecCall(a + b, req) ==
              match VecCall(a, req)
              case Fail(Reject(q, _)) => VecCall(b, q)
              case other => other
  {
    if a == [] {
      assert a + b == b;
    } else {
      assert (a + b)[0] == a[0];
      assert (a + b)[1..] == a[1..] + b;
      match a[0](req)
      case Fail(Reject(q, _)) => VecCallAppend(a[1..], b, q);
      case _ =>
    }
  }

  /** Two services in a vector behave as their fallback, except that a
      final rejection loses its diagnostic. */
  lemma VecPairIsFallback<R, O, E>(t1: Svc<R, O, E>, t2: Svc<R, O, E>, req: R)
    ensures var v := VecCall([t1, t2], req);
            var f := Fallback(t1, t2, req);
            (f.Fail? && f.error.Reject? ==> v == Fail(Reject(f.error.request, None)))
            && (!(f.Fail? && f.error.Reject?) ==> v == f)
  {
    assert [t1, t2][1..] == [t2];
    assert [t2][1..] == [];
  }
}
