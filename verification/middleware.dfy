/** Middleware composition in `tasks-core` (tasks-core/src/end.rs,
    tasks-core/src/and.rs, tasks-core/src/middleware_ext.rs): a middleware
    runs on a request and the rest of the chain, `next`, and decides when
    and whether to call it; `end` closes a chain with a task. */
module Middleware {
  import opened Wrappers
  import opened CoreTasks
  import Decimal

  type Next<!R, O, E> = R -> Outcome<O, R, E>

  type Middleware<!R, !O, !E> = (R, Next<R, O, E>) -> Outcome<O, R, E>

  /** `EndNext`: the rest of the chain is the terminal task. */
  function EndNext<R, O, E>(t: Task<R, O, E>): Next<R, O, E> {
    (q: R) => t(q)
  }

  /** `End::run`: the middleware runs with the terminal task as `next`. */
  function End<R, O, E>(m: Middleware<R, O, E>, t: Task<R, O, E>): Task<R, O, E> {
    (req: R) => m(req, EndNext(t))
  }

  /** `AndNext`: the next step runs the inner middleware with the original
      `next`. */
  function AndNext<R, O, E>(m: Middleware<R, O, E>, next: Next<R, O, E>): Next<R, O, E> {
    (q: R) => m(q, next)
  }

  /** `And::run`: the first middleware is the outer one. */
  function And<R, O, E>(m1: Middleware<R, O, E>, m2: Middleware<R, O, E>): Middleware<R, O, E> {
    (req: R, next: Next<R, O, E>) => m1(req, AndNext(m2, next))
  }

  /** A closed chain runs the terminal task only through its middleware:
      a middleware that answers without calling `next` makes the terminal
      task irrelevant. */
  lemma EndSkipsTerminal<R, O, E>(m: Middleware<R, O, E>, t1: Task<R, O, E>, t2: Task<R, O, E>, req: R)
    requires forall n: Next<R, O, E> :: m(req, n) == m(req, (q: R) => Fail(Reject(q)))
    ensures End(m, t1)(req) == End(m, t2)(req)
  {
    assert End(m, t1)(req) == m(req, EndNext(t1));
    assert End(m, t2)(req) == m(req, EndNext(t2));
  }

  /** Likewise for `and`: an outer middleware that does not call `next`
      runs neither the inner middleware nor the terminal task. */
  lemma AndSkipsInner<R, O, E>(m1: Middleware<R, O, E>, m2: Middleware<R, O, E>, m3: Middleware<R, O, E>, t: Task<R, O, E>, req: R)
    requires forall n: Next<R, O, E> :: m1(req, n) == m1(req, (q: R) => Fail(Reject(q)))
    ensures End(And(m1, m2), t)(req) == End(And(m1, m3), t)(req)
  {
    assert End(And(m1, m2), t)(req) == m1(req, AndNext(m2, EndNext(t)));
    assert End(And(m1, m3), t)(req) == m1(req, AndNext(m3, EndNext(t)));
  }

  /** Grouping `and` either way gives the same chain, for an outer
      middleware that depends only on what `next` answers and not on how
      `next` is written (as every middleware expressible in the source). */
  lemma AndAssociative<R, O, E>(a: Middleware<R, O, E>, b: Middleware<R, O, E>, c: Middleware<R, O, E>, req: R, next: Next<R, O, E>)
    requires forall n1: Next<R, O, E>, n2: Next<R, O, E> :: (forall q: R :: n1(q) == n2(q)) ==> a(req, n1) == a(req, n2)
    ensures And(And(a, b), c)(req, next) == And(a, And(b, c))(req, next)
  {
    var n1 := AndNext(b, AndNext(c, next));
    var n2 := AndNext(And(b, c), next);
    assert forall q: R :: n1(q) == n2(q);
    assert And(And(a, b), c)(req, next) == a(req, n1);
    assert And(a, And(b, c))(req, next) == a(req, n2);
  }

  /** A middleware that changes the request on the way in and the output on
      the way out; a failure of `next` is returned as it is (the `?` of the
      source's middleware functions). */
  function Around<R, O, E>(before: R -> R, after: O -> O): Middleware<R, O, E> {
    (req: R, next: Next<R, O, E>) =>
      match next(before(req))
      case Ok(o) => Ok(after(o))
      case Fail(rej) => Fail(rej)
  }

  /** The first middleware is the outermost layer of the onion: its
      before-step runs first and its after-step last, and a failure skips
      both after-steps. */
  lemma AndIsOnion<R, O, E>(b1: R -> R, a1: O -> O, b2: R -> R, a2: O -> O, t: Task<R, O, E>, req: R)
    ensures End(And(Around(b1, a1), Around(b2, a2)), t)(req) ==
              match t(b2(b1(req)))
              case Ok(o) => Ok(a1(a2(o)))
              case Fail(rej) => Fail(rej)
  {
    var m1: Middleware<R, O, E> := Around(b1, a1);
    var m2: Middleware<R, O, E> := Around(b2, a2);
    var inner := AndNext(m2, EndNext(t));
    assert inner(b1(req)) == m2(b1(req), EndNext(t));
    assert End(And(m1, m2), t)(req) == m1(req, inner);
  }

  function Same(q: int): int { q }

  function AddOne(n: int): int { n + 1 }

  function AddOneTask(q: int): Outcome<int, int, ()> { Ok(q + 1) }

  /** One input of the crate's test chain: the task adds one, then the
      middleware adds one to its answer. */
  lemma AddOneTwiceAt(k: int)
    ensures End(Around<int, int, ()>(Same, AddOne), AddOneTask)(k) == Ok(k + 2)
  {
    var m: Middleware<int, int, ()> := Around(Same, AddOne);
    assert End(m, AddOneTask)(k) == m(k, EndNext(AddOneTask));
    assert EndNext(AddOneTask)(Same(k)) == Ok(k + 1);
  }

  /** The crate's test: a middleware adding one after `next`, closed by a
      task adding one, maps 1 to 3, and every `i32` n to n + 2 as long as
      that sum fits an `i32`. */
  lemma AddOneTwice(n: int)
    requires Decimal.I32Min <= n && n + 2 <= Decimal.I32Max
    ensures End(Around<int, int, ()>(Same, AddOne), AddOneTask)(n) == Ok(n + 2)
    ensures End(Around<int, int, ()>(Same, AddOne), AddOneTask)(1) == Ok(3)
  {
    AddOneTwiceAt(n);
    AddOneTwiceAt(1);
  }
}
