/** The `Rejection` of the `service` and `tasks` crates
    (service/src/rejection.rs, tasks/src/task.rs): a service either fails
    hard, or declines the request and hands it back, optionally with a
    diagnostic error. */
module Rejections {
  import opened Wrappers

  datatype Rejection<R, E> = Reject(request: R, cause: Option<E>) | Err(error: E)

  /** The completed output of a service or task future. */
  type Outcome<O, R, E> = Result<O, Rejection<R, E>>

  const RejectedWithError := "rejected with error: "

  /** `Display`, given the rendering `show` of the error type. */
  function Display<R, E>(rej: Rejection<R, E>, show: E -> string): (s: string)
    ensures rej.Err? ==> s == show(rej.error)
    ensures rej.Reject? && rej.cause.Some? ==> s == RejectedWithError + show(rej.cause.value)
    ensures rej.Reject? && rej.cause.None? ==> s == "rejected"
  {
    match rej
    case Err(e) => show(e)
    case Reject(_, Some(e)) => RejectedWithError + show(e)
    case Reject(_, None) => "rejected"
  }

  /** `Error::source`: the carried error, if there is one. */
  function Source<R, E>(rej: Rejection<R, E>): (r: Option<E>)
    ensures r.None? <==> rej.Reject? && rej.cause.None?
  {
    match rej
    case Err(e) => Some(e)
    case Reject(_, Some(e)) => Some(e)
    case Reject(_, None) => None
  }

  /** `From<E>`: a plain error becomes a hard failure. */
  function FromError<R, E>(e: E): (r: Rejection<R, E>)
    ensures r.Err?
  {
    Err(e)
  }

  /** `source()` undoes `from`: converting an error and asking for its
      source gives the error back. */
  lemma SourceOfFromError<R, E>(e: E)
    ensures Source<R, E>(FromError(e)) == Some(e)
  {
  }

  /** Display and `source()` agree: a rejection with a source renders as
      that source's text, prefixed by "rejected with error: " exactly when
      it is a `Reject`; one without a source renders as "rejected". */
  lemma DisplayFollowsSource<R, E>(rej: Rejection<R, E>, show: E -> string)
    ensures Source(rej).None? ==> Display(rej, show) == "rejected"
    ensures Source(rej).Some? && rej.Err? ==> Display(rej, show) == show(Source(rej).value)
    ensures Source(rej).Some? && rej.Reject? ==>
              Display(rej, show) == RejectedWithError + show(Source(rej).value)
  {
  }

  /** Converts the error inside a rejection, leaving the request and the
      kind of rejection alone: the `map_err` arms of service/src/map_err.rs,
      `ErrInto`, and band's `ActionBox::call`. */
  function MapError<R, E, F>(rej: Rejection<R, E>, f: E -> F): (r: Rejection<R, F>)
    ensures r.Err? <==> rej.Err?
    ensures r.Reject? ==> r.request == rej.request && (r.cause.None? <==> rej.cause.None?)
  {
    match rej
    case Err(e) => Err(f(e))
    case Reject(q, Some(e)) => Reject(q, Some(f(e)))
    case Reject(q, None) => Reject(q, None)
  }

  /** `MapError` lifted to a whole outcome: successes are untouched. */
  function MapOutcomeError<O, R, E, F>(o: Outcome<O, R, E>, f: E -> F): (r: Outcome<O, R, F>)
    ensures r.Ok? <==> o.Ok?
    ensures r.Ok? ==> r.value == o.value
  {
    match o
    case Ok(v) => Ok(v)
    case Fail(rej) => Fail(MapError(rej, f))
  }

  /** Converting the error converts the source and nothing else. */
  lemma SourceOfMapError<R, E, F>(rej: Rejection<R, E>, f: E -> F)
    ensures Source(MapError(rej, f)).None? <==> Source(rej).None?
    ensures Source(rej).Some? ==> Source(MapError(rej, f)) == Some(f(Source(rej).value))
  {
  }

  /** Functor laws: mapping the identity changes nothing, and mapping twice
      is mapping the composition. */
  lemma MapErrorIdentity<R, E>(rej: Rejection<R, E>)
    ensures MapError(rej, (e: E) => e) == rej
  {
  }

  lemma MapErrorCompose<R, E, F, G>(rej: Rejection<R, E>, f: E -> F, g: F -> G)
    ensures MapError(MapError(rej, f), g) == MapError(rej, (e: E) => g(f(e)))
  {
  }
}
