/** The behaviours the `tasks` crate's own tests pin down
    (tasks/src/task_ext.rs), stated for every input where the test fixes
    only one. */
module TasksExamples {
  import opened Wrappers
  import opened Rejections
  import Service
  import Tasks
  import Gated
  import Decimal

  /** The three tasks of the `or` test: the first accepts only 1, the
      second only 2, the third everything. */
  function AcceptOne(req: int): Outcome<int, int, ()> {
    if req != 1 then Fail(Reject(req, None)) else Ok(req + 1)
  }

  function AcceptTwo(req: int): Outcome<int, int, ()> {
    if req != 2 then Fail(Reject(req, None)) else Ok(req + 2)
  }

  function AcceptAll(req: int): Outcome<int, int, ()> {
    Ok(req + 3)
  }

  /** `t1.or(t2).or(t3)`, with the tags removed. */
  function OrChain(req: int): Outcome<int, int, ()> {
    Tasks.Unify(Tasks.Or((q: int) => Tasks.Unify(Tasks.Or(AcceptOne, AcceptTwo, q)), AcceptAll, req))
  }

  /** The chain answers with the first task that accepts: 1 gives 2, 2 gives
      4, and any other `i32` n gives n + 3 (so 3 gives 6 and 6 gives 9), as
      long as that sum fits an `i32`. */
  lemma OrChainFirstAcceptingWins(n: int)
    requires Decimal.I32Min <= n && n + 3 <= Decimal.I32Max
    ensures OrChain(n) == Ok(if n == 1 then 2 else if n == 2 then 4 else n + 3)
  {
  }

  lemma OrChainExamples()
    ensures OrChain(1) == Ok(2) && OrChain(2) == Ok(4) && OrChain(3) == Ok(6) && OrChain(6) == Ok(9)
  {
    OrChainFirstAcceptingWins(1);
    OrChainFirstAcceptingWins(2);
    OrChainFirstAcceptingWins(3);
    OrChainFirstAcceptingWins(6);
  }

  /** The stages of the `then` test: increment and format; parse and
      increment; increment. The fixture's `unwrap` would panic on text that
      does not parse as an `i32`; that branch is a plain error here, and the
      lemma below shows the chain never takes it. */
  function FormatNext(n: int): Result<string, Rejection<int, ()>> {
    Ok(Decimal.FormatInt(n + 1))
  }

  function ParseNext(s: string): Result<int, Rejection<int, ()>> {
    match Decimal.ParseInt(s, Decimal.I32Min, Decimal.I32Max)
    case Some(p) => Ok(p + 1)
    case None => Fail(Err(()))
  }

  function Next(n: int): Result<int, Rejection<int, ()>> {
    Ok(n + 1)
  }

  /** `then` builds `Pipe` (tasks/src/pipe.rs), so the test's chain is a
      pipe of three tasks, each accepting every input, sharing the first
      stage's error type. */
  function ThenChain(n: int): Result<int, Rejection<int, ()>> {
    var ab := Gated.Pipe(Gated.TaskFn(FormatNext), Gated.TaskFn(ParseNext));
    Gated.Pipe(ab, Gated.TaskFn(Next)).exec(n)
  }

  /** Every stage adds one, for every `i32` input whose last sum still fits
      an `i32`, negative ones included; the test's 1 gives 4. */
  lemma ThenChainAddsThree(n: int)
    requires Decimal.I32Min <= n && n + 3 <= Decimal.I32Max
    ensures ThenChain(n) == Ok(n + 3)
  {
    Decimal.ParseFormatInt(n + 1, Decimal.I32Min, Decimal.I32Max);
  }

  lemma ThenChainExample()
    ensures ThenChain(1) == Ok(4)
  {
    ThenChainAddsThree(1);
  }

  /** The `map` test's request and the two kinds of value extracted from it. */
  datatype Person = Person(name: string, age: nat)
  datatype Field = Text(text: string) | Age(years: nat)

  function NameTask(p: Person): Outcome<(Person, seq<Field>), Person, ()> {
    Ok((p, [Text(p.name)]))
  }

  function AgeFilter(p: Person): (Person, Result<Field, ()>) {
    (p, Ok(Age(p.age)))
  }

  /** The formatting callback on the extract `(name, age)`; the types rule
      out any other extract, which is given the empty text. */
  function Describe(ex: seq<Field>): string {
    if |ex| == 2 && ex[0].Text? && ex[1].Age? then
      "name: " + ex[0].text + ", age: " + Decimal.Format(ex[1].years)
    else ""
  }

  /** `task.and(filter_fn_one(age)).map(describe)`, then the single value
      taken out of the one-element extract. */
  function DescribePerson(p: Person): Outcome<string, Person, ()> {
    var described := Service.Map((q: Person) => Service.And(NameTask, (r: Person) => Tasks.FilterFnOne(AgeFilter, r), q), Describe, p);
    match described
    case Ok((_, one)) => if |one| == 1 then Ok(one[0]) else Ok("")
    case Fail(rej) => Fail(rej)
  }

  /** The chain describes every person by name and decimal age. */
  lemma DescribesEveryPerson(p: Person)
    ensures DescribePerson(p) == Ok("name: " + p.name + ", age: " + Decimal.Format(p.age))
  {
    assert [Text(p.name)] + [Age(p.age)] == [Text(p.name), Age(p.age)];
  }

  lemma DescribeExample()
    ensures DescribePerson(Person("Rasmus", 36)) == Ok("name: Rasmus, age: 36")
  {
    DescribesEveryPerson(Person("Rasmus", 36));
    assert Decimal.DigitChar(3) == '3' && Decimal.DigitChar(6) == '6';
    assert Decimal.Format(3) == "3";
    assert Decimal.Format(36) == Decimal.Format(3) + [Decimal.DigitChar(6)] == "36";
    assert "name: " + "Rasmus" + ", age: " + "36" == "name: Rasmus, age: 36";
  }
}
