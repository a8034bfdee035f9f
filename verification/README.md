# tasks-rs, modelled in Dafny

A model of the sequential logic of the `tasks-rs` workspace. The workspace is a family of small async crates.
In all of them a *task* (or *service*) takes a request and answers with one of three things:
- an output;
- a hard error;
- a *rejection*. A rejection hands the request back, so another task can try it.

Combinators such as `or`, `and`, `then` and `map` build bigger tasks out of smaller ones. On top of those the workspace builds:
- a dependency scheduler (`band`);
- an HTTP layer (mounts, static files and directories, compression, response write-back); the handler mount, the filter mount and the asset mount each record their prefixes in a `MountPath` type of their own, and the `realpath()` filter reads only the filter mount's;
- a file pipeline (`tasks-vinyl`);
- an asset server (`tasks-assets`).

## Modelling choices

- **Tasks.** A task is a pure Dafny function value `R -> Result<O, Rejection<R, E>>`. Each future is collapsed to the outcome it completes with.
- **Panics.** A panic is an explicit outcome, `Run<T> = Done(T) | Panic(message)`.
- **Rejections.** The crates disagree on their shape, and each is modelled as written:
  - `service` and `tasks` carry a diagnostic: `Rejections.Rejection`, with `Err(e) | Reject(request, cause)`.
  - `tasks-core` does not: `CoreTasks.Rejection`, with `Err(e) | Reject(request)`.
- **Results.** Rust's `Result` is `Wrappers.Result`, whose arms are `Ok` and `Fail`. `Fail` is Rust's `Err`; the new name avoids a clash with `Rejection::Err`.
- **Extracts.** The heterogeneous tuples that filters extract are `seq<V>`. Combining extracts is concatenation.
- **Hash maps.** `band` iterates over hash maps, and their iteration orders are parameters. The model requires them to list every registered name once, and proves that `sort`'s success and its lists do not depend on them.
- **Foreign code and I/O are parameters.** The following are given as values:
  - what `urlencoding::decode` gives;
  - what `Path::ext` of the `pathutils` crate finds;
  - a file's mime type;
  - the rendering of an HTTP date;
  - the answers of successive reads;
  - what a cache's `get` and `set` answer.
- **HTTP dates** are whole seconds compared as numbers.
- **Headers** are single-valued, lower-case names mapped to text.

### Where the model follows the code rather than its documentation or tests

- **`Error::Rejected`.** band/src/band.rs:177 uses this variant, but band/src/error.rs does not declare it. The model adds it.
- **The `then` test of tasks-core.** The test (tasks-core/src/task_ext.rs:66-84) expects `Ok(3)`. Its three stages each add one, so the code gives `Ok(4)`. `CoreTasks.ThenChainAddsThree` proves 4, and proves that the answer is not 3.
- **Vinyl mime mismatches.** In `mime::match_exact` the error's `expected` field holds the file's own mime, not the one that was asked for.
- **Unmatched HTTP requests.** An unmatched request is answered 500 with an empty body, not 404. The pre-built response is never replaced on a rejection.
- **The static-file handler serves the byte range as written.** `FileHandler.Conditional` reads the range with `bytes_range`, suffix ranges included. `FileHandler.ConditionalCorrected` serves the range of section 2.1 of RFC 7233 instead; see Findings.
- **`MapError`.** `MapError::Err` and `MapError::Reject` of tasks-core are named `Failed` and `Rejected` here.
- **The vinyl `File` and the asset cache.** tasks-vinyl/src/file.rs and tasks-assets/src/cache.rs do not match how the crates use them. The model follows the usage:
  - a file has a mime field;
  - the crate's error has `InvalidMimeType`;
  - the asset cache is given by what its `get` and `set` answer, over a state of its own, and `set` takes the file by mutable reference as `entry_point` calls it. `NullCache`, the one cache of the crate, is one instance;
  - the cache key is a field of the asset request.
- **Shared models.** Several modules are structurally identical to another one, and the model gives them one definition:
  - tasks/src/and.rs, tasks/src/filter_pipe.rs and tasks/src/map_err.rs are, up to names, service/src/and.rs, service/src/and_then_reject.rs and service/src/map_err.rs, so `Service.And`, `Service.AndThenReject` and `Service.MapErr` model both crates.
  - service/src/err_into.rs is `Service.MapErr` with `into` as the callback.
  - tasks-core/src/_filter/and.rs is service/src/and.rs with filter errors in place of rejections. `Service.And` leaves the failure type open, so it models both, and also the `and` that the `filters2` builder of tasks-core composes.

## Model

| member | source | states |
|---|---|---|
| Rejections.Display | service/src/rejection.rs:14-24 | a hard error displays as its error's text; a rejection with a cause as "rejected with error: " and the cause; a bare rejection as "rejected" |
| Rejections.Source | service/src/rejection.rs:31-38 | there is no source exactly for a rejection without a cause |
| Rejections.FromError | service/src/rejection.rs:42-49 | converting an error always gives a hard error, never a rejection |
| Rejections.SourceOfFromError | service/src/rejection.rs:31-49 | asking a converted error for its source gives the error back |
| Rejections.DisplayFollowsSource | service/src/rejection.rs:14-38 | the text of a rejection is decided by its source and its kind, in the three cases |
| Rejections.MapError | service/src/map_err.rs:60-67 | converting the error keeps the kind of rejection, the handed-back request, and whether a cause is present |
| Rejections.SourceOfMapError | service/src/err_into.rs:58-65 | the source of a converted rejection is the converted source |
| Rejections.MapErrorCompose | service/src/map_err.rs:60-67 | converting twice is converting once with the composition, and the identity changes nothing (with MapErrorIdentity) |
| Service.Or | service/src/or.rs:66-116 | a success of the first service is the answer, tagged A; after a rejection the second service runs on the handed-back request: its output is tagged B, its hard error A, its diagnostic B, and a missing diagnostic stays missing |
| Service.OrElse | service/src/or_else.rs:66-116 | as `or`, except that the second service's hard error is tagged B |
| Service.OrUnifiesToFallback | service/src/unify.rs:49-58 | with the tags removed, `or` and `or_else` both equal the plain fallback: the first outcome unless it rejects, else the second service on the handed-back request |
| Service.OrSecondUnused | service/src/or.rs:70-81 | when the first service does not reject, the second service has no influence on the outcome |
| Service.OrElseTagIdentifiesBranch | service/src/or_else.rs:82-106 | in `or_else`, a hard error tagged B comes exactly from the second service failing after the first rejected |
| Service.OrTagMisattributed | service/src/or.rs:89-94 | for all services and every error `e`: in `or`, a rejecting first service followed by a second failing with `e` gives `Err(A(e))`, the answer of a first service that failed with `e` itself; `or_else` gives `Err(B(e))` |
| Service.Unify | service/src/unify.rs:49-58 | removing the tags keeps whether the outcome succeeded and whether it is a hard error |
| Service.UnifyUntags | service/src/unify.rs:49-58 | unify undoes tagging with A and with B |
| Service.And | service/src/and.rs:95-117 | success exactly when both succeed, the second running on the request the first returned, with the request it returns and the two extracts concatenated; a failure of either is returned as it is |
| Service.AndAssociative | service/src/and.rs:113-115 | `and(and(a,b),c)` and `and(a,and(b,c))` give the same outcome, flat extracts included |
| Service.AndUnit | service/src/and.rs:113-115 | the extractor of nothing is a unit of `and` on both sides |
| Service.Then | service/src/then.rs:74-100 | a failure of the first service is the answer; otherwise the second runs on its output: its success is the answer, its hard error and a diagnosed rejection's diagnostic become a hard error, and it panics exactly when the second rejects without a diagnostic |
| Service.ThenIdentities | service/src/then.rs:74-100 | `then` with a pass-through second service is the first service; with a pass-through first it is the second, its rejections hardened |
| Service.AndThenReject | service/src/and_then_reject.rs:79-104 | a failure of the first service is the answer; otherwise the second's output is the answer, its hard error passes through, and its rejection hands back the request part of what it was given, cause kept |
| Service.AndThenRejectRestoresRequest | service/src/and_then_reject.rs:83-101 | when both services hand back their input and the first keeps the request, every rejection hands back the original request |
| Service.Map | service/src/map.rs:66-82 | success exactly when the inner service succeeds, with its request and the single value the callback gives on its extract; a failure is passed on unchanged |
| Service.MapCompose | service/src/map.rs:70-80 | mapping twice is mapping once with the composed callback |
| Service.MapServiceOutcome | service/src/map.rs:40-50 | the single extracted value becomes the output, and the inner error becomes a hard error, never a rejection |
| Service.MapErr | service/src/map_err.rs:56-68 | the outcome kind and the output are kept; a rejection keeps its request and whether it has a cause; a cause is converted by the callback |
| Service.MapErrLaws | service/src/err_into.rs:55-66 | mapping the identity changes nothing; mapping twice maps the composition |
| Service.VecCall | service/src/vec.rs:26-43 | an empty list rejects the request without a diagnostic, and every final rejection has lost its diagnostic |
| Service.VecService | service/src/vec.rs:26-43 | the loop computes the ordered fallback of `VecCall` |
| Service.VecCallAppend | service/src/vec.rs:29-39 | trying a split list is trying the first part, then the second part on the handed-back request |
| Service.VecPairIsFallback | service/src/vec.rs:29-39 | two services in a list behave as their fallback, except that a final rejection loses its diagnostic |
| Tasks.RejectWrap | tasks/src/task.rs:98-110 | success and the source are kept; a rejection that survives carries no cause and is the input |
| Tasks.RejectWrapIdempotent | tasks/src/task.rs:104-107 | wrapping twice is wrapping once |
| Tasks.Or | tasks/src/or.rs:65-90 | a success of the first task is the answer tagged A; after a rejection, a success of the second on the handed-back request is the answer tagged B; the first's hard error and any failure of the second are returned as they are |
| Tasks.Unify | tasks/src/unify.rs:45-56 | only the output tag is removed: success is kept, and failures pass through unchanged |
| Tasks.OrUnifiesToFallback | tasks/src/unify.rs:49-54 | unified, this crate's `or` is exactly the fallback, the second task's diagnostics included |
| Tasks.AndThen | tasks/src/and_then.rs:74-92 | success exactly when the task and then the callback succeed, with the held request and the callback's value; a callback error becomes a hard error |
| Tasks.AndThenReject | tasks/src/and_then_reject.rs:80-102 | as `and_then`, but the callback's own rejection is returned as it is |
| Tasks.AndThenOfTotal | tasks/src/and_then.rs:78-87 | with a callback that cannot fail, both `and_then`s equal the plain `map` |
| Tasks.FilterFn | tasks/src/filter.rs:27-40 | success exactly when the closure succeeds, with the request as the closure left it; a closure error is a hard error, never a rejection |
| Tasks.FilterFnOne | tasks/src/filter.rs:56-69 | as `FilterFn`, with the value as a one-element extract |
| Tasks.Unextract | tasks/src/filter.rs:99-110 | a filter result as a task outcome: the extract on success, a hard error on failure |
| Tasks.FilterFnUnextract | tasks/src/filter.rs:95-111 | a filter function run as a task and its filter result made a task agree on the output and the error |
| Tasks.BoxOr | tasks/src/boxed.rs:139-192 | an empty list rejects the request without a diagnostic, and a single task is itself |
| Tasks.BoxOrRun | tasks/src/boxed.rs:139-192 | the index-driven state machine computes `BoxOr` |
| Tasks.BoxOrAgreesWithVec | tasks/src/boxed.rs:175-181 | `BoxOr` and `VecService` agree on every success, hard error and handed-back request, and where `BoxOr` rejects, `VecService` rejects without a diagnostic |
| Tasks.BoxOrLastRejection | tasks/src/boxed.rs:175-181 | a rejection of a non-empty `BoxOr` is the last task's own answer on the request handed down to it, so the last diagnostic is kept |
| Tasks.BoxOrPairIsOr | tasks/src/boxed.rs:157-184 | two boxed tasks are `or` followed by `unify` |
| Tasks.MapRejection | tasks/src/_map_rejection.rs:47-59 | only the request handed back by a rejection is converted; the kind, output, error and diagnostic are kept |
| Tasks.MapRejectionLaws | tasks/src/_map_rejection.rs:51-57 | mapping rejections is a functor on the request |
| TasksExamples.OrChainFirstAcceptingWins | tasks/src/task_ext.rs:96-123 | the three-way `or` chain answers with the first task that accepts: 1 gives 2, 2 gives 4, and any other `i32` n whose n+3 fits gives n+3 |
| TasksExamples.OrChainExamples | tasks/src/task_ext.rs:96-123 | the test's inputs 1, 2, 3 and 6 give 2, 4, 6 and 9 |
| TasksExamples.ThenChainAddsThree | tasks/src/task_ext.rs:126-143 | the three-stage `then` chain, through the decimal text and back, adds three to every `i32` n whose n+3 fits, negative ones included |
| TasksExamples.ThenChainExample | tasks/src/task_ext.rs:126-143 | 1 gives 4 |
| TasksExamples.DescribesEveryPerson | tasks/src/task_ext.rs:146-172 | `and` of the name task and the age filter, then `map`, describes every person as "name: N, age: A" |
| TasksExamples.DescribeExample | tasks/src/task_ext.rs:146-172 | Rasmus, 36 gives "name: Rasmus, age: 36" |
| Gated.TaskFnRunsHandler | _tasks/src/sync/task.rs:100-115 | a task function executes its handler and is eligible by its check; `task_fn!` with one argument accepts every input |
| Gated.EitherExec | tasks/src/either.rs:36-49 | the first branch runs when eligible, else the second when eligible, else the dispatch error |
| Gated.Either | tasks/src/either.rs:36-56 | the combined task accepts an input exactly when a branch does, runs the first eligible branch, and fails with the dispatch error when none is |
| Gated.EitherInvalidIffCannot | tasks/src/either.rs:53-56 | with branches that never fail with the dispatch error on inputs they accept, `exec` fails with it exactly when `can_exec` is false |
| Gated.EitherAssociative | tasks/src/sync/either.rs:28-56 | nesting `Either` left or right runs the same branch and accepts the same inputs |
| Gated.PipeExec | tasks/src/pipe.rs:74-90 | a failure of the first task is the answer; otherwise the second runs on its value |
| Gated.Pipe | tasks/src/pipe.rs:40-90 | the pipe is eligible as its first task; a failure of the first is the answer, otherwise the second runs on its value |
| Gated.PipeAssociative | tasks/src/sync/pipe.rs:14-26 | pipes group either way, in execution and in eligibility |
| Gated.PipeUnit | tasks/src/sync/pipe.rs:14-26 | a pass-through task is a unit of the pipe on both sides |
| Gated.PipeAllRunsInOrder | _tasks/src/macros.rs:23-41 | the left fold of `pipe!` runs its tasks in the order written and is eligible as its first task |
| Gated.EitherAllPicksFirstEligible | _tasks/src/macros.rs:43-61 | the left fold of `either!` accepts an input exactly when some task does, and then runs the first such task |
| Gated.PipeOfIdentities | _tasks/src/macros.rs:111-122 | a pipe of four pass-through tasks returns "Hello, World!" unchanged |
| Gated.MeaningOfLife | _tasks/src/macros.rs:124-134 | the length of "Hello!" piped into times seven is 42 |
| CoreTasks.Or | tasks-core/src/or.rs:66-95 | the first outcome stands unless it rejects; then the second task's outcome on the handed-back request is the answer, untagged |
| CoreTasks.OrIsFallback | tasks-core/src/or.rs:71-88 | this crate's `or` is the `service` fallback on tasks whose rejections carry no diagnostic |
| CoreTasks.OrAssociative | tasks-core/src/or.rs:71-88 | chained `or`s group either way |
| CoreTasks.Pipe | tasks-core/src/pipe.rs:76-100 | it panics exactly when the second task rejects; it succeeds exactly when both do; a rejection it returns is the first task's |
| CoreTasks.PipeIsThen | tasks-core/src/pipe.rs:80-95 | the pipe panics when the `service` crate's `then` does, and otherwise agrees with it |
| CoreTasks.Map | tasks-core/src/map.rs:76-102 | success exactly when both succeed; a rejection surfaces only from the first task; a rejection of the second becomes the hard `MapError::Reject` |
| CoreTasks.MapIsPipeWithoutPanic | tasks-core/src/map.rs:80-98 | `Map` is the pipe with its errors wrapped and its panic replaced by the hard `MapError::Reject` |
| CoreTasks.OrChainFirstAcceptingWins | tasks-core/src/task_ext.rs:36-64 | the three-way `or` chain answers with the first task that accepts: 1 gives 2, 2 gives 4, and any other `i32` n whose n+3 fits gives n+3 |
| CoreTasks.ThenChainAddsThree | tasks-core/src/task_ext.rs:66-84 | the `then` chain adds three to every `i32` n whose n+3 fits, so 1 gives 4 and not the 3 the test expects |
| Decimal.FormatInt | tasks-core/src/task_ext.rs:69 | the text of a negative integer is '-' followed by the digits of its magnitude, and that of any other integer is its digits alone |
| Decimal.ParseInt | tasks-core/src/task_ext.rs:72 | `parse::<i32>` accepts exactly an optional sign and one or more digits whose value is in range |
| Decimal.ParseFormatInt | tasks-core/src/task_ext.rs:69-72 | every `i32` formats to a text that parses back to it |
| Middleware.EndSkipsTerminal | tasks-core/src/end.rs:30-40 | a middleware that never calls `next` makes the terminal task irrelevant |
| Middleware.AndSkipsInner | tasks-core/src/and.rs:34-41 | an outer middleware that never calls `next` makes the inner middleware irrelevant |
| Middleware.AndAssociative | tasks-core/src/and.rs:34-75 | for an outer middleware that looks at `next` only through its answers, `and` groups either way |
| Middleware.AndIsOnion | tasks-core/src/and.rs:34-95 | the first middleware is the outermost layer: its request change happens first and its output change last |
| Middleware.AddOneTwice | tasks-core/src/middleware_ext.rs:23-34 | a middleware adding one after `next`, closed by a task adding one, maps every `i32` n whose n+2 fits to n+2, so 1 to 3 |
| CoreFilters.FilterFn | tasks-core/src/filter/filter.rs:41-55 | success exactly when the closure succeeds, with the request as the closure left it and its extract; an error stays a raw filter error |
| CoreFilters.FilterFnOne | tasks-core/src/filter/filter.rs:63-82 | as `FilterFn`, with the single value as a one-element extract |
| CoreFilters.AsTask | tasks-core/src/filter/filter.rs:110-123 | a filter result as a task outcome: the extract on success, a hard error on failure |
| CoreFilters.FilteredTaskNeverRejects | tasks-core/src/filter/filter.rs:115-121 | a filter run as a task never rejects, and it fails exactly when the closure fails |
| CoreFilters.RefAnd | tasks-core/src/filter/and.rs:65-82 | both filters read the same request; success exactly when both succeed, with the extracts concatenated; the first error wins |
| CoreFilters.RefAndAssociative | tasks-core/src/filter/and.rs:65-82 | by-reference `and` groups either way |
| CoreFilters.RefMap | tasks-core/src/filter/map.rs:41-58 | mapping a by-reference filter gives one value, the callback on the extract, and keeps its error |
| CoreFilters.GreetingsJoined | tasks-core/src/filter/mod.rs:14-27 | the crate's test joins the two greetings into "Hello, World Hello, World2" |
| CoreFilters.AndThen | tasks-core/src/filter/and_then.rs:79-102 | success exactly when the filter and the callback succeed, with the held request; a callback error is converted into the filter error |
| CoreFilters.Map | tasks-core/src/_filter/map.rs:84-97 | success exactly when the filter succeeds, with its request and one mapped value; its error is kept |
| CoreFilters.AndThenOfTotal | tasks-core/src/filter/and_then.rs:83-100 | with a callback that cannot fail, `and_then` is `map` |
| CoreFilters.MapAsTask | tasks-core/src/_filter/map.rs:60-67 | a mapped filter run as a task answers the callback's value, and a raw filter error becomes a hard error |
| CoreFilters.TaskMap | tasks-core/src/filters2/map.rs:84-102 | success exactly when the task succeeds, with its request and one mapped value; an upstream failure is returned unchanged |
| CoreFilters.TaskMapIsServiceMap | tasks-core/src/filters2/map.rs:88-100 | this `map` is the `service` crate's `map` on tasks whose rejections carry no diagnostic |
| CoreFilters.DescribesEveryPerson | tasks-core/src/filters2/mod.rs:107-129 | the `and`/`map`/`unroll`/`then` chain describes every person as "name: N, age: A", Rasmus 36 included |
| Band.BoxActionKeepsOutcome | band/src/band.rs:39-48 | a boxed action succeeds exactly when the wrapped one does; its error converts the wrapped error, and the source of a rejection is converted with it |
| Band.PathGrows | band/src/band.rs:61-69 | each recursive expansion adds a registered task not yet on the path, so expansion terminates |
| Band.ResolveTask | band/src/band.rs:51-90 | a resolved list has no repeats, contains the task, and names only registered tasks and the task itself; a failure is `InvalidDepency` |
| Band.ResolveDeps | band/src/band.rs:57-71 | the expanded dependencies name only registered tasks; a failure is `InvalidDepency` |
| Band.CheckDeps | band/src/band.rs:107-114 | the dependency check passes exactly when every declared dependency is registered, and otherwise names an unregistered dependency |
| Band.ResolveAll | band/src/band.rs:121-125 | on success, every task of the iteration order has the list `resolve_task` computes for it |
| Band.Build | band/src/band.rs:92-132 | a built band keeps the registered tasks and has one dependency list per task |
| Band.Registry | band/src/band.rs:99-105 | every registered name maps to a task of that name, and the last task given is registered |
| Band.Requested | band/src/band.rs:185-194 | collecting the requested lists fails exactly when a requested name is unknown, and the error is `TaskNotFound` of the first unknown name in request order |
| Band.GetAllTasks | band/src/band.rs:185-209 | it fails exactly when a requested name is unknown, with `TaskNotFound` of the first unknown name in request order; a schedule has no repeats |
| Band.GetTasks | band/src/band.rs:211-223 | there are no names exactly when `get_all_tasks` fails |
| Band.AsError | band/src/band.rs:174-178 | a rejection's cause, or the hard error, becomes the band's error; a rejection without a cause becomes `Rejected` |
| Band.RunSchedule | band/src/band.rs:169-183 | when no scheduled action can fail the run succeeds, and a failed run reports the converted error of a scheduled action |
| Band.RunTasks | band/src/band.rs:169-183 | an unknown requested name fails with `TaskNotFound` of the first unknown name in request order, before any action runs; when every name is known and no action can fail, the run succeeds |
| Band.RunTask | band/src/band.rs:165-167 | an unknown name fails with `TaskNotFound` of that name; a known one with actions that cannot fail succeeds |
| Band.ScheduleRunnable | band/src/band.rs:169-172 | every scheduled name of a runnable band is a registered task |
| BandTheory.ResolveTaskSound | band/src/band.rs:51-90 | a resolved list has no repeats, keeps every task after its dependencies, meets the path only in the task itself, and ends with it |
| BandTheory.DependencyOnPathRefused | band/src/band.rs:57-71 | a dependency already on the expansion path, the task itself included, fails with `InvalidDepency` naming it before anything else is expanded |
| BandTheory.ResolveDepsFailure | band/src/band.rs:57-71 | expansion fails only on a dependency cycle, and the error names a task on that cycle |
| BandTheory.ResolveAcyclic | band/src/band.rs:51-90 | in a closed graph without cycles every task resolves |
| BandTheory.ResolvedNotOnCycle | band/src/band.rs:51-90 | a task whose expansion succeeds does not depend on itself |
| BandTheory.BuildSucceedsIff | band/src/band.rs:92-132 | `sort` succeeds exactly when every dependency is registered and no task depends on itself, whatever the hash map orders |
| BandTheory.BuildFailure | band/src/band.rs:107-125 | a failing `sort` reports an unregistered dependency as `TaskNotFound`, or, when all are registered, a task on a cycle as `InvalidDepency` |
| BandTheory.BuildSchedules | band/src/band.rs:121-131 | every list `sort` builds is a valid schedule for its task, and every name in the lists is registered |
| BandTheory.GetAllTasksOrdered | band/src/band.rs:185-209 | the schedule runs every requested task once, after all of its dependencies |
| BandTheory.GetAllTasksAppend | band/src/band.rs:196-208 | requesting `a + b` schedules `a`'s tasks first, then only what `a` did not already run, first occurrence winning |
| BandTheory.RunScheduleAppend | band/src/band.rs:169-183 | running a schedule in two parts threads the context from the first part into the second, and a failure stops the run |
| BandTheory.RunStopsAtFailure | band/src/band.rs:171-179 | once an action fails the rest never runs, and the result is that action's error, or `Rejected` |
| BandTheory.RegistryLastWins | band/src/band.rs:99-105 | a later registration under a name replaces earlier ones |
| BandExample.ExampleResolves | band/src/band.rs:306-332 | on the crate's test graph, `sort` gives each task its list: clean:sass; clean:sass, build:sass; clean:sass, clean; clean:sass, build:sass, build; and main after build |
| BandExample.ExampleGetTasks | band/src/band.rs:334-337 | requesting clean, build and build:sass schedules clean:sass, clean, build:sass, build, with clean:sass once |
| Deduplication.Dedup | band/src/band.rs:196-208 | the reference deduplication has no repeats and the same elements as its input |
| Deduplication.DedupAppend | band/src/band.rs:77-89 | first occurrence wins: deduplicating `a + b` keeps deduplicated `a`, then the new elements of `b` |
| Deduplication.DedupFirstSeen | band/src/band.rs:77-89 | the filter with a set of seen elements computes the reference deduplication |
| Deduplication.DedupIdempotent | band/src/band.rs:196-208 | deduplicating twice is deduplicating once |
| Http.Apply | tasks-http/src/modifiers.rs:11-65 | a modifier writes only its own headers and keeps the rest; a byte or text body sets Content-Length to its UTF-8 byte length; a status changes only the status |
| Http.Utf8Length | tasks-http/src/modifiers.rs:18-23 | a text is one byte per character exactly when it is ASCII, and its encoding is never shorter than the text |
| Http.ApplyIdempotent | tasks-http/src/modifiers.rs:25-65 | applying the same modifier twice is applying it once |
| Http.StatusCommutes | tasks-http/src/modifiers.rs:48-52 | the status modifier commutes with every other modifier |
| Http.WriteBack | tasks-http/src/response.rs:42-64 | status and headers replace the target's; with a body, Content-Type defaults to text/plain only when absent; with none, any method but HEAD gets Content-Length "0" |
| Http.WriteBackLaws | tasks-http/src/response.rs:42-64 | writing back depends on the target only through its body, and writing back twice is writing back once |
| Http.ErrorSet | tasks-http/src/error.rs:24-31 | `set` changes the carried response only, as the modifier does |
| Http.ErrorNew | tasks-http/src/error.rs:16-22 | a new error keeps its cause and carries a 404 response without headers or body |
| Http.KnownDisplay | tasks-http/src/error.rs:63-72 | each text starts with the lead of its variant, and the header name or the path's debug text can be read back after the fixed words |
| Http.DebugPath | tasks-http/src/error.rs:67-68 | `None` is "None"; a path is `Some("` and its escaped text and `")` |
| Http.EscapeChar | tasks-http/src/error.rs:67-68 | a character is written as itself or as a backslash escape; quote, backslash, newline, return, tab and NUL get two-character escapes, and the other C0 and C1 controls `\u{hex}` |
| Http.EscapeInjective | tasks-http/src/error.rs:67-68 | different texts escape differently |
| Http.KnownDisplayInjective | tasks-http/src/error.rs:63-72 | different known errors display differently |
| Http.LeadOfDisplay | tasks-http/src/error.rs:63-72 | each known error's text starts with the lead that tells its variant |
| Http.DebugPathInjective | tasks-http/src/error.rs:67-68 | the debug text of an optional path determines the path |
| Http.IntoRejection | tasks-http/src/error.rs:76-86 | a known error becomes a hard error carrying the 404 response, and displays as the known error |
| Http.Respond | tasks-http/src/service.rs:108-126 | an answer, or a hard error's carried response, is written back onto the pre-built response; a rejection leaves the pre-built response |
| Http.RespondStatuses | tasks-http/src/service.rs:52-53 | an unmatched request gets 500 with an empty body; a fresh error answers 404; an error's set status is the answer's |
| Requests.HostHeader | tasks-http/src/request.rs:28-32 | the host is a colon-free prefix of the header, and a port, when present, fits 16 bits |
| Requests.HostPort | tasks-http/src/request.rs:26-47 | the URI's host wins, then the Host header, then the local address below HTTP/1.1; it panics exactly when none applies |
| Requests.UrlString | tasks-http/src/request.rs:49-59 | the URL is the scheme and "://", the host, ":" and the port when present, the path, and "?" and the query when present |
| Requests.FromHttp | tasks-http/src/request.rs:22-60 | the URL text is built from the chosen host and port, and it panics exactly when no host can be chosen |
| Requests.AuthorityWins | tasks-http/src/request.rs:26-27 | when the URI names a host, the Host header, version and local address do not matter |
| Requests.HostHeaderRoundTrip | tasks-http/src/request.rs:28-32 | a colon-free host with a port gives back that host and port, and one without gives no port |
| Requests.BracketedHostSplitsWrongly | tasks-http/src/request.rs:29-31 | "[::1]:8080" is split into the host "[" and no port |
| Requests.LocalFallbackExample | tasks-http/src/request.rs:33-39 | an HTTP/1.0 request without host on 127.0.0.1:8080 gets the URL "http://127.0.0.1:8080/index.html" |
| Compress.Recognise | tasks-http/src/compress.rs:29-34 | exactly the three tokens are recognised, each as its coding |
| Compress.RecognisedExactly | tasks-http/src/compress.rs:25-36 | pieces that trim to tokens give their codings, in order |
| Compress.ToTypeOfList | tasks-http/src/compress.rs:25-36 | a header listing codings, each padded with whitespace, gives those codings back in order |
| Compress.ToType | tasks-http/src/compress.rs:25-36 | every coding found comes from a piece that trims to its token, and every piece that trims to a token gives its coding |
| Compress.ParameterDropped | tasks-http/src/compress.rs:29-34 | a piece with parameters is never a token, so it is dropped whatever its weight |
| Compress.WeightedExample | tasks-http/src/compress.rs:25-36 | "gzip;q=1.0,br" gives only Brotli |
| Compress.ToCompression | tasks-http/src/compress.rs:38-80 | a response without body is unchanged; otherwise the body is wrapped in the coding, Content-Encoding names it, Content-Length is dropped, and every other header and the status are kept |
| Compress.CompressRun | tasks-http/src/compress.rs:93-120 | a failure of `next` passes through; it panics exactly on a non-ASCII header once an answer with a body arrives; an answer changes only by the first known coding |
| Compress.RunKeepsStatus | tasks-http/src/compress.rs:97-119 | compression never changes the status nor any header but the two encoding headers |
| Mounts.Normalize | tasks-http/src/mount.rs:23-33 | it panics exactly on the empty path and on a path holding a non-ASCII character; otherwise the result is ASCII, starts and ends with '/' and adds at most one character on each side |
| Mounts.NormalizeIdempotent | tasks-http/src/filters/mount.rs:26-36 | normalising a normalised path changes nothing |
| Mounts.NonAsciiMountPanics | tasks-http/src/mount.rs:30-32 | the mount "/é" panics |
| Mounts.StartsWithIsSegmentPrefix | tasks-http/src/mount.rs:36-43 | a path matches a mount exactly when it is the mount without its '/', or starts with the mount |
| Mounts.StartsWith | tasks-http/src/mount.rs:36-43 | a path matches exactly when it starts with the mount or is the mount without its last character |
| Mounts.StartsWithExamples | tasks-http/src/mount.rs:36-43 | "/test" and "/test/foo" match "/test/", "/testing" does not |
| Mounts.ReplacePath | tasks-http/src/mount.rs:46-57 | a path ending in '/' is the mount followed by the result, and panics when shorter than the mount; any other path is the mount without its '/' followed by the result |
| Mounts.ReplacePathPanics | tasks-http/src/mount.rs:46-57 | for a mount ending in '/', the slice panics exactly when the mount ends in "//" and the path is the mount without its last '/' |
| Mounts.ReplacePathPanicExample | tasks-http/src/mount.rs:23-57 | "/a//" is a valid mount, "/a/" matches it, and rewriting "/a/" panics |
| Mounts.ReplacePathExamples | tasks-http/src/mount.rs:46-57 | "/test/foo" gives "/foo" and "/test/foo/" gives "foo/" |
| Mounts.Push | tasks-http/src/mount.rs:60-69 | the prefix is appended to the recorded list, which is created when absent |
| Mounts.SetPath | tasks-http/src/mount.rs:86-91 | a path set on an HTTP URL starts with '/', and one that already does is kept |
| Mounts.HttpMounted | tasks-http/src/mount.rs:86-91 | a matched request panics exactly when `replace_path` does; otherwise its path is the rewritten one, the prefix is pushed onto the `MountPath` of the mount's own type, and every other `MountPath` entry and the rest of the request are untouched |
| Mounts.HttpMount | tasks-http/src/mount.rs:86-94 | an unmatched request is rejected untouched; a matched one panics exactly when `replace_path` does, and is otherwise rewritten, its prefix recorded in `tasks_http::MountPath` only, and run through the inner task |
| Mounts.FilterMount | tasks-http/src/filters/mount.rs:82-90 | success exactly on a match that `replace_path` can rewrite, with the rewritten request, its prefix recorded in `tasks_http::filters::MountPath` only, and nothing extracted; a panic only on a match; otherwise the request is rejected untouched |
| Mounts.PushRecorded | tasks-http/src/mount.rs:104-108 | pushing a prefix appends it to the joined prefixes |
| Mounts.MountRealPath | tasks-http/src/mount.rs:103-109 | `real_path` ends with the current path, is the current path when nothing was recorded, and is long enough to hold every recorded prefix before it |
| Mounts.RealPath | tasks-http/src/filters/mount.rs:10-18 | `realpath()` answers the plain path when the request has no `tasks_http::filters::MountPath`, and otherwise that list's `real_path` |
| Mounts.RealPathIgnoresOtherMounts | tasks-http/src/filters/mount.rs:10-18 | changing the handler or asset `MountPath` of a request never changes what `realpath()` answers |
| Mounts.HttpRealPathRestores | tasks-http/src/filters/mount.rs:10-18 | behind a filter mount ending in '/', for a path that is not the bare mount prefix and has no doubled separator after the mount, the filter mount succeeds and `realpath()` answers the request's original real path |
| Mounts.HandlerRealPathRestores | tasks-http/src/mount.rs:86-109 | behind a handler mount, under the same two conditions, `tasks_http::MountPath::real_path` is the prefixes earlier handler mounts recorded, then the original path |
| Mounts.HandlerMountHiddenFromRealPath | tasks-http/src/filters/mount.rs:10-18 | behind a handler mount, `realpath()` answers only the earlier filter mounts' prefixes and the stripped path |
| Mounts.HandlerMountExample | tasks-http/src/filters/mount.rs:10-18 | "/a/x" under the handler mount "/a/": `realpath()` answers "/x", the handler's `real_path` "/a/x" |
| Mounts.MixedMountsExample | tasks-http/src/filters/mount.rs:10-18 | "/a/b/x" through the filter mount "/a/" and then the handler mount "/b/": `realpath()` answers "/a/x", the handler's `real_path` "/b/x" |
| Mounts.AssetRealPath | tasks-assets/src/mount.rs:126-141 | behind an asset mount, the asset `MountPath::real_path` is the prefixes earlier asset mounts recorded, then the original path when it does not end in '/', which loses the separator after the prefix when it does |
| Mounts.AssetMount | tasks-assets/src/mount.rs:85-118 | an unmatched request is rejected untouched; a match panics exactly when `replace_path` does; an inner rejection gets back the original path; an inner answer or error passes through |
| Mounts.AssetRejectKeepsPrefix | tasks-assets/src/mount.rs:87-117 | after an inner rejection only the path is restored: the pushed prefix stays recorded |
| FileHandler.BytesRange | tasks-http/src/handlers/file.rs:236-270 | no range, or an empty set, is the whole file; otherwise success exactly when the first range converts to start < end <= length |
| FileHandler.FirstRangeOnly | tasks-http/src/handlers/file.rs:260-268 | only the first range of a multi-range header is used |
| FileHandler.InclusiveRange | tasks-http/src/handlers/file.rs:248-258 | "bytes=a-b" within the file is the half-open span from a to b+1 |
| FileHandler.SuffixServesPrefix | tasks-http/src/handlers/file.rs:248-258 | as written, "bytes=-n" within the file serves the first n+1 bytes |
| FileHandler.SuffixCounterexample | tasks-http/src/handlers/file.rs:248-258 | "bytes=-500" on a 1000-byte file is [0,501) as written and [500,1000) corrected |
| FileHandler.RangeOf | tasks-http/src/handlers/file.rs:236-270 | the corrected range: a suffix "-n" is the last min(n, length) bytes and fails when n or the length is 0; every other range is as written |
| FileHandler.RangeOfAgreesOffSuffix | tasks-http/src/handlers/file.rs:236-270 | apart from suffix ranges, the corrected and the as-written range agree |
| FileHandler.Check | tasks-http/src/handlers/file.rs:68-114 | 412 exactly when If-Unmodified-Since fails or the time is unknown; 304 exactly when it does not and If-Modified-Since finds no change; a failing If-Range drops the Range |
| FileHandler.CheckPrecedence | tasks-http/src/handlers/file.rs:68-114 | the order of section 6 of RFC 7232: a failing If-Unmodified-Since answers 412 whatever follows, a 304 is decided before If-Range and Range are read, and a passing condition acts as if absent |
| FileHandler.UnknownTimeIsModified | tasks-http/src/handlers/file.rs:69-102 | with an unknown modification time, If-Unmodified-Since always fails and If-Modified-Since never answers 304 |
| FileHandler.NoConditionsKeepsRange | tasks-http/src/handlers/file.rs:104-113 | without conditions the requested range is honoured |
| FileHandler.Served | tasks-http/src/handlers/file.rs:198-219 | 206 with Content-Range exactly for a sub-range, else 200; Content-Length is the span's length; Accept-Ranges, Content-Type and Last-Modified as given, and no other header |
| FileHandler.Unsatisfiable | tasks-http/src/handlers/file.rs:221-226 | 416 with "bytes */len" as the only header |
| FileHandler.Conditional | tasks-http/src/handlers/file.rs:179-232 | the status is one of 200, 206, 304, 412 and 416; 412 exactly as the precondition says; the precondition's bodiless answers are kept; a served body lies within the file; 416 carries the unsatisfied Content-Range |
| FileHandler.ConditionalCorrected | tasks-http/src/handlers/file.rs:179-232 | the same guarantees with the range read as section 2.1 of RFC 7233 reads it |
| FileHandler.SuffixAnswers | tasks-http/src/handlers/file.rs:191-219 | for "bytes=-n" inside the file, the handler as written answers 206 with the first n+1 bytes and the corrected one with the last n |
| FileHandler.ConditionalAgreesOffSuffix | tasks-http/src/handlers/file.rs:179-232 | on every request whose first range is not a suffix range, the two handlers answer the same |
| FileHandler.PartialContentEchoesRange | tasks-http/src/handlers/file.rs:198-219 | a range "a-b" that is not the whole file is answered 206 with Content-Range "bytes a-b/len" and Content-Length b-a+1 |
| FileHandler.OpenError | tasks-http/src/handlers/file.rs:146-163 | not-found opens become NotFound, permission failures FilePermission, and the rest FileOpen, without a path |
| FileHandler.FileReply | tasks-http/src/handlers/file.rs:139-177 | an opened file is answered conditionally; a failed open or a failed metadata read is the mapped error |
| FileHandler.FileErrorsAnswer404 | tasks-http/src/handlers/file.rs:139-177 | every failure to open a file is answered 404 |
| FileHandler.OptimalBufSize | tasks-http/src/handlers/file.rs:334-352 | the buffer never exceeds the file, is the whole file when that is small, and is at least 8192 otherwise |
| FileHandler.FileStream | tasks-http/src/handlers/file.rs:272-326 | the chunks are non-empty, a read error only comes last, the bytes are the file from the start and total at most end-start, and all of it when the reads succeed |
| DirHandler.Push | tasks-http/src/handlers/dir.rs:57-58 | an absolute segment replaces the buffer; otherwise the buffer is kept and the segment appended, with at most one separator between them |
| DirHandler.PushAll | tasks-http/src/handlers/dir.rs:50-60 | pushing fails exactly when some segment is refused, and then with NotFound |
| DirHandler.SanitizePath | tasks-http/src/handlers/dir.rs:39-62 | an undecodable tail fails with NotFound; a decoded one fails exactly when a segment starts with ".." or holds a backslash |
| DirHandler.SanitizedStaysUnderBase | tasks-http/src/handlers/dir.rs:39-62 | a sanitized path starts with the base, and every component added after it is one of the decoded segments, none of them refused |
| DirHandler.SanitizeExample | tasks-http/src/handlers/dir.rs:50-60 | "/a/b" under "/srv" gives "/srv/a/b" |
| DirHandler.ParentRefused | tasks-http/src/handlers/dir.rs:51-53 | a tail starting with ".." is refused |
| Vinyl.MatchExact | tasks-vinyl/src/filters/path.rs:11-26 | success exactly on an equal path, with the file; otherwise a rejection handing the file back without a cause |
| Vinyl.GetThenMatchExact | tasks-vinyl/src/filters/path.rs:4-26 | a file always matches the path `get` extracts from it |
| Vinyl.DotExt | tasks-vinyl/src/filters/path.rs:31-34 | the extension compared starts with '.', followed by the configured one without its own '.' |
| Vinyl.DotExtIdempotent | tasks-vinyl/src/filters/path.rs:31-34 | configuring "js" or ".js" is the same |
| Vinyl.MatchExt | tasks-vinyl/src/filters/path.rs:28-48 | success exactly when the path's extension is the dotted one; the file is handed back either way, rejected without a cause |
| Vinyl.MatchMime | tasks-vinyl/src/filters/mime.rs:5-21 | success exactly on an equal mime; a mismatch rejects with `InvalidMimeType` of the file's own mime |
| Vinyl.MatchType | tasks-vinyl/src/filters/mime.rs:23-37 | success exactly on an equal top-level type; a mismatch rejects without a cause |
| Vinyl.MimeFiltersAgree | tasks-vinyl/src/filters/mime.rs:5-37 | an exact mime match implies a type match; the converse fails only on the subtype |
| Vinyl.PipeRun | tasks-vinyl/src/traits.rs:104-133 | an item error is the answer; it panics exactly when the task rejects without a cause; an answer's error is the item's or the task's source |
| Vinyl.SourceErrorSkipsTask | tasks-vinyl/src/traits.rs:109-115 | an item that is already an error never reaches the task |
| Vinyl.CauselessFilterPanics | tasks-vinyl/src/traits.rs:116-126 | a path filter in a pipe panics on a file it does not match; a mime filter turns the mismatch into an error |
| Vinyl.Pipe | tasks-vinyl/src/traits.rs:73-80 | every item gets its own answer, in order: an item error comes through as it is, and an item panics exactly when it is a file the task rejects without a cause |
| Vinyl.PathPipePanics | tasks-vinyl/src/traits.rs:73-133 | piping a stream through `path::match_exact` panics on exactly the files with another path, and passes matching files on |
| Vinyl.WriteTo | tasks-vinyl/src/traits.rs:30-50 | the count of files written, or the first error of an item or a write; success exactly when every item is a file that is written |
| Vinyl.DrainAllWritten | tasks-vinyl/src/traits.rs:40-48 | draining succeeds exactly when every item is written, and counts them all |
| Assets.Get | tasks-assets/src/assets.rs:109-119 | success is kept; a failure becomes its source, and a rejection without a cause becomes NotFound |
| Assets.Run | tasks-assets/src/assets.rs:122-135 | as a task the assets never reject: success is kept and every failure is a hard error |
| Assets.RunNeverRejects | tasks-assets/src/assets.rs:122-135 | a bare rejection becomes the hard NotFound, and every failure is the hard error `get` gives |
| Assets.EntryPoint | tasks-assets/src/assets.rs:138-180 | it panics exactly without a key; a hit answers the cached file with the state unchanged; the state changes only by a successful `set` of the file the task answered, and the answer is the file as `set` left it |
| Assets.HitSkipsTask | tasks-assets/src/assets.rs:158-161 | on a cache hit the task does not matter |
| Assets.StoredFileIsServedNext | tasks-assets/src/assets.rs:158-176 | with a cache that keeps what `set` stored, a file answered once answers the next request with that key, whatever the task then does |
| Assets.NullCache | tasks-assets/src/cache.rs:13-25 | `NullCache` finds nothing, and storing in it succeeds and leaves the file as it is |
| Assets.NullCacheRunsTask | tasks-assets/src/assets.rs:98-105 | behind `NullCache`, the cache `Assets::new` installs, every request with a key runs the task and answers its outcome |
| Assets.NullCacheForgets | tasks-assets/src/cache.rs:13-25 | `NullCache` does not keep what it stores |
| Assets.MapCacheKeeps | tasks-assets/src/cache.rs:7-11 | a cache over a map keeps what it stores, so caches that keep exist |
| Assets.DirNotCached | tasks-assets/src/assets.rs:163-176 | a directory answer is returned and the cache is unchanged |
| Assets.Step | tasks-assets/src/transform.rs:80-163 | polling a finished future panics; every step without an answer moves strictly forward; an answer finishes, except an inner failure, which keeps the stage |
| Assets.Poll | tasks-assets/src/transform.rs:80-163 | polling to an answer panics exactly on a finished future |
| Assets.TransformAnswer | tasks-assets/src/transform.rs:83-158 | a failure of the asset task and a directory are answered as they are; a success or a rejection of the transform carries the request the asset task answered; a transform error is a vinyl error |
| Assets.PollAnswersTransform | tasks-assets/src/transform.rs:83-158 | a fresh future answers the transform's reference answer, finishes on success, and panics when polled again |
| Assets.TransformRejectsWithRequest | tasks-assets/src/transform.rs:124-133 | a transform rejection hands back the request the inner task answered, and an inner rejection is passed on as it is |

## Left out

- Futures, pinning, wakers and `Pending`: every future is its completed outcome. `Assets.Poll` keeps one state machine; the first/second/done state enum of the other futures is not modelled, nor is their "poll after done" panic.
- Boxing, type erasure and the type-level `HList`/`Combine`/`Func` machinery: extracts are sequences.
- Concurrency, thread pools, channels and streams of the `tasks` crate; the runtime crate.
- The HTTP server, WebSockets, `MakeTaskService`, and every example program.
- File-system and VFS I/O: the vinyl sources and destinations, willow, the asset file-system source, and the directory handler's metadata and `index.html` lookup. Reads are given by their answers.
- Foreign crates, given as parameters or left out:
  - `headers` date and ETag comparisons are whole seconds, and an ETag never satisfies If-Range;
  - `url` parsing beyond `set_path`;
  - `urlencoding::decode`, `mime_guess` and `pathutils`;
  - the compression encoders: an encoded body records its coding.
- Thin projections and one-line delegations: `flatten`, `unroll`, `untuple`, `pass`, `task_state`, `stack`, the header/query/body/ext filters, `tasks-assets/src/response.rs`, and the `rename` transform.
- Verbatim copies of modelled files: `tasks/src/_stack.rs`, `_tasks/src/either.rs` and `_tasks/src/pipe.rs`.
- `_tasks/src/persist.rs`: type maps behind locks.
- Stub snapshots that do not compile: `tasks-http/src/filters/method.rs`, `tasks-assets/src/request.rs` and `tasks-http/src/multipart.rs`.
- The stale single-field `Reject` assertion in tasks/src/task_ext.rs:92.
- Logging and `println!`.
- tasks-core/src/filters2/and.rs is not part of this model: `Service.And`, the combination of tasks/src/and.rs, stands in for it.
- FileHandler.BytesRange: the `u64` sums `s + 1` (tasks-http/src/handlers/file.rs:251,256) are unbounded here. "Range: bytes=0-18446744073709551615" overflows the end on any file. A debug build panics there, which is not modelled. A release build wraps the end to 0 and answers 416, as the model does, since its unbounded end exceeds the file length.
- FileHandler.Check: an ETag in If-Range is never taken as valid, because ETags are not modelled.
- Assets.Step: polling again after an inner task failed is not modelled; the stage is kept as the source leaves it.
- Mounts.HttpRealPathRestores: stated for mounts ending in '/' and for paths without a doubled separator after the mount, because `Url::set_path` is modelled for such paths only.
- Mounts.HandlerRealPathRestores: stated under the same two conditions, for the same reason.
- Middleware.AndAssociative: stated for an outer middleware that uses `next` only through its answers, which Dafny's function values cannot otherwise guarantee.
- Gated.EitherInvalidIffCannot: stated for branches that never fail with the dispatch error on inputs they accept; a branch that did would break the equivalence in the source as well.
- TasksExamples.ThenChainAddsThree: stated for `i32` inputs n whose n+3 fits; above that an `i32` addition of the test overflows, which panics in a debug build and wraps in a release build, and unbounded integers show neither.
- CoreTasks.ThenChainAddsThree: stated for `i32` inputs n whose n+3 fits; above that an `i32` addition of the test overflows, which panics in a debug build and wraps in a release build, and unbounded integers show neither.
- TasksExamples.OrChainFirstAcceptingWins: stated for `i32` inputs n whose n+3 fits; above that an `i32` addition of the test overflows, which panics in a debug build and wraps in a release build, and unbounded integers show neither.
- CoreTasks.OrChainFirstAcceptingWins: stated for `i32` inputs n whose n+3 fits; above that an `i32` addition of the test overflows, which panics in a debug build and wraps in a release build, and unbounded integers show neither.
- Middleware.AddOneTwice: stated for `i32` inputs n whose n+2 fits; above that an `i32` addition of the test overflows, which unbounded integers do not show.
- Http.EscapeChar: Rust's `{:?}` also writes `\u{..}` for the characters its Unicode tables call unprintable or grapheme-extending, beyond the C0 and C1 controls; those tables are not modelled, and such characters are written as they are.
- Http.DebugPathInjective: proved for the escaping of `Http.EscapeChar`, so it inherits the gap above.
- Assets.EntryPoint: the cache is a parameter. The crate's own `NullCache` (tasks-assets/src/cache.rs:13-25) never finds a file, so behind `Assets::new` no file is served from the cache (`Assets.NullCacheRunsTask`); `Assets.StoredFileIsServedNext` holds only for a cache that keeps what it stores, which the crate does not supply.
- Vinyl.GetPath: modelled with no row, since it hands the file back with its path copied out; `Vinyl.GetThenMatchExact` states what it is for.
- Vinyl.GetMime: modelled with no row, since it hands the file back with its MIME type copied out.
- CoreFilters.Unpack: modelled with no row, since it hands back the request and its extract; `CoreFilters.TaskMap` uses it.
- Middleware.End: modelled as the function value it builds, with no row of its own, since a contract would have to quantify over every request and every `next`; `Middleware.EndSkipsTerminal` states its behaviour.
- Middleware.And: modelled as the function value it builds, with no row of its own, for the same reason; `Middleware.AndSkipsInner`, `Middleware.AndAssociative` and `Middleware.AndIsOnion` state its behaviour.
- Http.Respond: the body of an answer is written as the body value; hyper's body streaming is not modelled.

## Findings

| source | as written | input that shows it | evidently intended | confidence | as-written member | corrected member |
|---|---|---|---|---|---|---|
| service/src/or.rs:89-94 | a hard error of the second service is tagged `Either::A` | a first service that rejects and a second that fails with `e`: the answer is `Err(A(e))`, as if the first had failed | `Err(B(e))`, as `or_else` does at service/src/or_else.rs:89-94 | high, not executed | Service.Or, Service.OrTagMisattributed | Service.OrElse, Service.OrElseTagIdentifiesBranch |
| tasks-http/src/handlers/file.rs:248-258 | an `Unbounded` start becomes 0, so the suffix range "-n" serves bytes 0 to n | "Range: bytes=-500" on a 1000-byte file serves [0,501) | the last 500 bytes, [500,1000), per section 2.1 of RFC 7233 | high, not executed | FileHandler.BytesRange, FileHandler.Conditional, FileHandler.SuffixAnswers | FileHandler.RangeOf, FileHandler.ConditionalCorrected, FileHandler.ConditionalAgreesOffSuffix |
