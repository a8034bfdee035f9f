/** The capability-gated tasks of the earlier `Task { Input }` design
    (tasks/src/either.rs, tasks/src/pipe.rs, tasks/src/sync/either.rs,
    tasks/src/sync/pipe.rs, _tasks/src/sync/task.rs, _tasks/src/macros.rs):
    a task runs on an input to a plain `Result`, and says beforehand whether
    it can run on that input. The asynchronous and synchronous variants
    complete with the same results, so one model serves both. */
module Gated {
  import opened Wrappers

  datatype Gated<!I, O, E> = Gated(exec: I -> Result<O, E>, canExec: I -> bool)

  /** `SyncTaskFn::new` (and `task_fn!` with its check): `exec` applies the
      function and `can_exec` the check. */
  function TaskFnWith<I, O, E>(handler: I -> Result<O, E>, check: I -> bool): Gated<I, O, E> {
    Gated(handler, check)
  }

  /** `task_fn!` with one argument, and `SyncTask`'s default `can_exec`:
      every input is accepted. */
  function TaskFn<I, O, E>(handler: I -> Result<O, E>): Gated<I, O, E> {
    TaskFnWith(handler, (x: I) => true)
  }

  lemma TaskFnRunsHandler<I, O, E>(handler: I -> Result<O, E>, check: I -> bool, x: I)
    ensures TaskFnWith(handler, check).exec(x) == handler(x)
    ensures TaskFnWith(handler, check).canExec(x) == check(x)
    ensures TaskFn(handler).canExec(x)
  {
  }

  /** `Either::exec`: the first eligible branch runs; with none eligible
      the result is the error made from `TaskError::InvalidRequest`. */
  function EitherExec<I, O, E>(s1: Gated<I, O, E>, s2: Gated<I, O, E>, invalid: E, x: I): (r: Result<O, E>)
    ensures s1.canExec(x) ==> r == s1.exec(x)
    ensures !s1.canExec(x) && s2.canExec(x) ==> r == s2.exec(x)
    ensures !s1.canExec(x) && !s2.canExec(x) ==> r == Fail(invalid)
  {
    if s1.canExec(x) then s1.exec(x)
    else if s2.canExec(x) then s2.exec(x)
    else Fail(invalid)
  }

  /** `Either`, with `can_exec` the disjunction of the branches'. */
  function Either<I(!new), O, E>(s1: Gated<I, O, E>, s2: Gated<I, O, E>, invalid: E): (r: Gated<I, O, E>)
    ensures forall x: I :: r.canExec(x) <==> s1.canExec(x) || s2.canExec(x)
    ensures forall x: I | s1.canExec(x) :: r.exec(x) == s1.exec(x)
    ensures forall x: I | !s1.canExec(x) && s2.canExec(x) :: r.exec(x) == s2.exec(x)
    ensures forall x: I | !r.canExec(x) :: r.exec(x) == Fail(invalid)
  {
    Gated((x: I) => EitherExec(s1, s2, invalid, x), (x: I) => s1.canExec(x) || s2.canExec(x))
  }

  /** A branch never fails with the dispatch error on inputs it accepts. */
  ghost predicate Honest<I, O, E>(s: Gated<I, O, E>, invalid: E, x: I) {
    s.canExec(x) ==> s.exec(x) != Fail(invalid)
  }

  /** `exec` fails with the dispatch error exactly when `can_exec` is false,
      provided the branches never report that error themselves. */
  lemma EitherInvalidIffCannot<I(!new), O, E>(s1: Gated<I, O, E>, s2: Gated<I, O, E>, invalid: E, x: I)
    requires Honest(s1, invalid, x) && Honest(s2, invalid, x)
    ensures Either(s1, s2, invalid).exec(x) == Fail(invalid) <==> !Either(s1, s2, invalid).canExec(x)
  {
  }

  /** Nesting `Either` to the left or to the right chooses the same branch. */
  lemma EitherAssociative<I(!new), O, E>(a: Gated<I, O, E>, b: Gated<I, O, E>, c: Gated<I, O, E>, invalid: E, x: I)
    ensures Either(Either(a, b, invalid), c, invalid).exec(x) == Either(a, Either(b, c, invalid), invalid).exec(x)
    ensures Either(Either(a, b, invalid), c, invalid).canExec(x) == Either(a, Either(b, c, invalid), invalid).canExec(x)
  {
  }

  /** `Pipe::exec` with `PipeFuture::poll`, and `SyncPipe::exec`: the
      second task runs on the first's output; an error of the first is the
      result and the second never starts. */
  function PipeExec<I, M, O, E>(s1: Gated<I, M, E>, s2: Gated<M, O, E>, x: I): (r: Result<O, E>)
    ensures s1.exec(x).Fail? ==> r == Fail(s1.exec(x).error)
    ensures s1.exec(x).Ok? ==> r == s2.exec(s1.exec(x).value)
  {
    match s1.exec(x)
    case Ok(v) => s2.exec(v)
    case Fail(e) => Fail(e)
  }

  /** `Pipe`, whose `can_exec` asks the first task only. */
  function Pipe<I(!new), M, O, E>(s1: Gated<I, M, E>, s2: Gated<M, O, E>): (r: Gated<I, O, E>)
    ensures forall x: I :: r.canExec(x) == s1.canExec(x)
    ensures forall x: I | s1.exec(x).Fail? :: r.exec(x) == Fail(s1.exec(x).error)
    ensures forall x: I | s1.exec(x).Ok? :: r.exec(x) == s2.exec(s1.exec(x).value)
  {
    Gated((x: I) => PipeExec(s1, s2, x), s1.canExec)
  }

  /** Piping is associative, and a pass-through task is its unit. */
  lemma PipeAssociative<I(!new), M(!new), N, O, E>(a: Gated<I, M, E>, b: Gated<M, N, E>, c: Gated<N, O, E>, x: I)
    ensures Pipe(Pipe(a, b), c).exec(x) == Pipe(a, Pipe(b, c)).exec(x)
    ensures Pipe(Pipe(a, b), c).canExec(x) == Pipe(a, Pipe(b, c)).canExec(x)
  {
  }

  lemma PipeUnit<I(!new), O, E>(a: Gated<I, O, E>, x: I)
    ensures Pipe(TaskFn((y: I) => Ok(y)), a).exec(x) == a.exec(x)
    ensures Pipe(a, TaskFn((y: O) => Ok(y))).exec(x) == a.exec(x)
  {
  }

  /** `pipe![y, x1, .., xn]`: the left fold `y.pipe(x1)...pipe(xn)`; a
      single task is itself. */
  function PipeAll<T(!new), E>(first: Gated<T, T, E>, rest: seq<Gated<T, T, E>>): Gated<T, T, E>
    decreases |rest|
  {
    if rest == [] then first
    else Pipe(PipeAll(first, rest[..|rest| - 1]), rest[|rest| - 1])
  }

  /** Running the tasks one after the other from the left: the reference
      meaning of a chain. */
  function RunChain<T, E>(tasks: seq<Gated<T, T, E>>, x: T): Result<T, E>
    decreases |tasks|
  {
    if tasks == [] then Ok(x)
    else
      match tasks[0].exec(x)
      case Ok(v) => RunChain(tasks[1..], v)
      case Fail(e) => Fail(e)
  }

  lemma {:induction false} RunChainSnoc<T, E>(tasks: seq<Gated<T, T, E>>, last: Gated<T, T, E>, x: T)
    ensures RunChain(tasks + [last], x) ==
              match RunChain(tasks, x)
              case Ok(v) => last.exec(v)
              case Fail(e) => Fail(e)
    decreases |tasks|
  {
    if tasks == [] {
      assert ([last])[1..] == [];
    } else {
      assert (tasks + [last])[1..] == tasks[1..] + [last];
      match tasks[0].exec(x)
      case Ok(v) => RunChainSnoc(tasks[1..], last, v);
      case Fail(_) =>
    }
  }

  /** The left fold built by `pipe!` runs its tasks in the order written,
      stopping at the first error, and can run where the first task can. */
  lemma {:induction false} PipeAllRunsInOrder<T(!new), E>(first: Gated<T, T, E>, rest: seq<Gated<T, T, E>>, x: T)
    ensures PipeAll(first, rest).exec(x) == RunChain([first] + rest, x)
    ensures PipeAll(first, rest).canExec(x) == first.canExec(x)
    decreases |rest|
  {
    if rest == [] {
      assert ([first])[1..] == [];
    } else {
      var init := rest[..|rest| - 1];
      PipeAllRunsInOrder(first, init, x);
      assert [first] + rest == ([first] + init) + [rest[|rest| - 1]];
      RunChainSnoc([first] + init, rest[|rest| - 1], x);
    }
  }

  /** `either![y, x1, .., xn]`: the left fold `y.or(x1)...or(xn)`, where
      `or` builds the gated `Either`. */
  function EitherAll<I(!new), O, E>(first: Gated<I, O, E>, rest: seq<Gated<I, O, E>>, invalid: E): Gated<I, O, E>
    decreases |rest|
  {
    if rest == [] then first
    else Either(EitherAll(first, rest[..|rest| - 1], invalid), rest[|rest| - 1], invalid)
  }

  /** The first task of a list that accepts an input, if any. */
  function FirstEligible<I, O, E>(tasks: seq<Gated<I, O, E>>, x: I): (r: Option<nat>)
    ensures r.Some? ==> r.value < |tasks| && tasks[r.value].canExec(x)
                        && forall j | 0 <= j < r.value :: !tasks[j].canExec(x)
    ensures r.None? ==> forall j | 0 <= j < |tasks| :: !tasks[j].canExec(x)
    decreases |tasks|
  {
    if tasks == [] then None
    else if tasks[0].canExec(x) then Some(0)
    else
      match FirstEligible(tasks[1..], x)
      case None => None
      case Some(k) => Some(k + 1)
  }

  lemma {:induction false} FirstEligibleSnoc<I, O, E>(tasks: seq<Gated<I, O, E>>, last: Gated<I, O, E>, x: I)
    ensures FirstEligible(tasks + [last], x) ==
              match FirstEligible(tasks, x)
              case Some(k) => Some(k)
              case None => if last.canExec(x) then Some(|tasks|) else None
    decreases |tasks|
  {
    if tasks == [] {
      assert ([last])[1..] == [];
    } else {
      assert (tasks + [last])[1..] == tasks[1..] + [last];
      FirstEligibleSnoc(tasks[1..], last, x);
    }
  }

  /** The fold built by `either!` runs the first task of the list that
      accepts the input, and fails with the dispatch error when none does. */
  lemma {:induction false} EitherAllPicksFirstEligible<I(!new), O, E>(first: Gated<I, O, E>, rest: seq<Gated<I, O, E>>, invalid: E, x: I)
    ensures EitherAll(first, rest, invalid).canExec(x) <==> FirstEligible([first] + rest, x).Some?
    ensures FirstEligible([first] + rest, x).Some? ==>
              EitherAll(first, rest, invalid).exec(x) == ([first] + rest)[FirstEligible([first] + rest, x).value].exec(x)
    ensures FirstEligible([first] + rest, x).None? && rest != [] ==>
              EitherAll(first, rest, invalid).exec(x) == Fail(invalid)
    decreases |rest|
  {
    if rest == [] {
      assert ([first])[1..] == [];
    } else {
      var init := rest[..|rest| - 1];
      var last := rest[|rest| - 1];
      assert [first] + rest == ([first] + init) + [last];
      FirstEligibleSnoc([first] + init, last, x);
      EitherAllPicksFirstEligible(first, init, invalid, x);
    }
  }

  /** The pipe of four pass-through tasks returns its input unchanged. */
  lemma PipeOfIdentities<E>()
    ensures var id := TaskFn<string, string, E>((s: string) => Ok(s));
            PipeAll(id, [id, PipeAll(id, []), PipeAll(id, [])]).exec("Hello, World!") == Ok("Hello, World!")
  {
    var id := TaskFn<string, string, E>((s: string) => Ok(s));
    var x := "Hello, World!";
    assert PipeAll(id, []) == id;
    PipeAllRunsInOrder(id, [id, id, id], x);
    assert [id] + [id, id, id] == [id, id, id, id];
    assert RunChain([id], x) == Ok(x) by { assert ([id])[1..] == []; }
    assert RunChain([id, id], x) == Ok(x) by { assert ([id, id])[1..] == [id]; }
    assert RunChain([id, id, id], x) == Ok(x) by { assert ([id, id, id])[1..] == [id, id]; }
    assert RunChain([id, id, id, id], x) == Ok(x) by { assert ([id, id, id, id])[1..] == [id, id, id]; }
  }

  /** The length of "Hello!" piped into a multiplication by seven is 42. */
  lemma MeaningOfLife<E>()
    ensures Pipe(TaskFn<string, nat, E>((s: string) => Ok(|s|)),
                 TaskFn<nat, nat, E>((n: nat) => Ok(n * 7))).exec("Hello!") == Ok(42)
  {
  }
}
