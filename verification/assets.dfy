/** `tasks-assets`: the `Assets` front (tasks-assets/src/assets.rs), which
    runs its task behind a cache and reports every failure as an error, and
    the `Transform` task (tasks-assets/src/transform.rs), whose future runs
    an asset task, then a vinyl task on the file it produced, then turns the
    vinyl reply back into a file. The cache and the request's cache key are
    given by what they answer. */
module Assets {
  import opened Wrappers
  import opened Rejections
  import Vinyl

  datatype Error = Unknown | NotFound | Io(text: string) | Custom(text: string) | VinylError(cause: Vinyl.Error)

  /** An asset request: its path, and the key `cache_key` gives for it,
      if any. */
  datatype AssetRequest = AssetRequest(path: string, key: Option<string>)

  datatype NodeFile = NodeFile(path: string, mime: Vinyl.Mime, size: nat)

  /** A node: a file with its content, or a directory listing. */
  datatype Node = File(file: Vinyl.File) | Dir(path: string, children: seq<NodeFile>)

  datatype AssetResponse = AssetResponse(request: AssetRequest, node: Node)

  /** `Assets::get`: the task's node, or an error; a rejection answers
      its cause, and NotFound when it has none. */
  function Get(o: Outcome<Node, AssetRequest, Error>): (r: Result<Node, Error>)
    ensures o.Ok? <==> r.Ok?
    ensures o.Ok? ==> r.value == o.value
    ensures o.Fail? ==> r.error == (match Source(o.error) case Some(e) => e case None => NotFound)
  {
    match o
    case Ok(node) => Ok(node)
    case Fail(rej) =>
      match rej
      case Err(e) => Fail(e)
      case Reject(_, cause) => if cause.Some? then Fail(cause.value) else Fail(NotFound)
  }

  /** `Assets` as a task: every failure of `get` becomes a hard error. */
  function Run(o: Outcome<Node, AssetRequest, Error>): (r: Outcome<Node, AssetRequest, Error>)
    ensures r.Fail? ==> r.error.Err?
    ensures r.Ok? <==> o.Ok?
    ensures r.Ok? ==> r.value == o.value
  {
    match Get(o)
    case Ok(node) => Ok(node)
    case Fail(e) => Fail(Err(e))
  }

  /** `Assets` never rejects, and a rejection without cause becomes a hard
      NotFound: nothing tried after it sees the request. */
  lemma RunNeverRejects(req: AssetRequest, o: Outcome<Node, AssetRequest, Error>)
    ensures Run(Fail(Reject(req, None))) == Fail(Err(NotFound))
    ensures Run(o).Fail? ==> Run(o) == Fail(Err(Get(o).error))
  {
  }

  /** A cache, given by what its operations answer in a state of type S:
      `get` of a key, and `set` (here `store`), which takes the file by mutable reference
      and answers the next state with the file as it leaves it, or an
      error. */
  datatype CacheOps<!S> = CacheOps(get: (S, string) -> Option<Vinyl.File>,
                                   store: (S, string, Vinyl.File) -> Result<(S, Vinyl.File), Error>)

  /** A cache that answers `get` with what the last successful `set` of
      the key left. */
  ghost predicate Keeps<S(!new)>(c: CacheOps<S>) {
    forall st: S, k: string, f: Vinyl.File | c.store(st, k, f).Ok? ::
      c.get(c.store(st, k, f).value.0, k) == Some(c.store(st, k, f).value.1)
  }

  /** `NullCache` (tasks-assets/src/cache.rs), the cache `Assets::new`
      builds with: it stores nothing and finds nothing. */
  function NullCache(): (c: CacheOps<()>)
    ensures forall k: string :: c.get((), k).None?
    ensures forall k: string, f: Vinyl.File :: c.store((), k, f) == Ok(((), f))
  {
    CacheOps((st: (), k: string) => None, (st: (), k: string, f: Vinyl.File) => Ok((st, f)))
  }

  /** A cache over a map from keys to files, which keeps what it stores. */
  function MapCache(): (c: CacheOps<map<string, Vinyl.File>>)
    ensures forall m: map<string, Vinyl.File>, k: string :: c.get(m, k) == (if k in m then Some(m[k]) else None)
  {
    CacheOps((m: map<string, Vinyl.File>, k: string) => if k in m then Some(m[k]) else None,
             (m: map<string, Vinyl.File>, k: string, f: Vinyl.File) => Ok((m[k := f], f)))
  }

  lemma MapCacheKeeps()
    ensures Keeps(MapCache())
  {
    var c := MapCache();
    forall m: map<string, Vinyl.File>, k: string, f: Vinyl.File | c.store(m, k, f).Ok?
      ensures c.get(c.store(m, k, f).value.0, k) == Some(c.store(m, k, f).value.1)
    {
      assert c.store(m, k, f) == Ok((m[k := f], f));
    }
  }

  /** `NullCache` does not keep a stored file. */
  lemma NullCacheForgets(f: Vinyl.File)
    ensures !Keeps(NullCache())
  {
    assert NullCache().store((), "", f).Ok?;
  }

  /** The `entry_point` middleware around the asset task, given the
      cache and its state, the task, and the request. The key is unwrapped,
      so a request without one panics. A cached file is answered without
      running the task; otherwise the task runs, a failure of it passes
      through, a file it produces is set under the key (a failed set is a
      hard error) and answered as `set` leaves it, and a directory is
      answered without being stored. The cache's state after the call is
      returned alongside. */
  function EntryPoint<S>(c: CacheOps<S>, st: S,
                             task: AssetRequest -> Outcome<AssetResponse, AssetRequest, Error>, req: AssetRequest)
    : (r: Run<(Outcome<Node, AssetRequest, Error>, S)>)
    ensures r.Panic? <==> req.key.None?
    ensures req.key.Some? && c.get(st, req.key.value).Some? ==> r == Done((Ok(File(c.get(st, req.key.value).value)), st))
    ensures r.Done? && r.value.1 != st ==>
              c.get(st, req.key.value).None? && task(req).Ok? && task(req).value.node.File?
              && c.store(st, req.key.value, task(req).value.node.file).Ok?
              && r.value == (Ok(File(c.store(st, req.key.value, task(req).value.node.file).value.1)),
                             c.store(st, req.key.value, task(req).value.node.file).value.0)
    ensures r.Done? && r.value.0.Ok? ==> r.value.0.value.File? || (task(req).Ok? && r.value.0.value == task(req).value.node)
    ensures r.Done? && r.value.0.Fail? ==> (task(req).Fail? && r.value.0 == Fail(task(req).error)) || r.value.0.error.Err?
  {
    match req.key
    case None => Panic("called `Option::unwrap()` on a `None` value")
    case Some(key) =>
      match c.get(st, key)
      case Some(f) => Done((Ok(File(f)), st))
      case None =>
        match task(req)
        case Fail(rej) => Done((Fail(rej), st))
        case Ok(resp) =>
          match resp.node
          case Dir(_, _) => Done((Ok(resp.node), st))
          case File(f) =>
            match c.store(st, key, f)
            case Fail(e) => Done((Fail(Err(e)), st))
            case Ok((next, g)) => Done((Ok(File(g)), next))
  }

  /** A cache hit does not depend on the task: any two tasks answer the
      same. */
  lemma HitSkipsTask<S>(c: CacheOps<S>, st: S,
                            t1: AssetRequest -> Outcome<AssetResponse, AssetRequest, Error>,
                            t2: AssetRequest -> Outcome<AssetResponse, AssetRequest, Error>, req: AssetRequest)
    requires req.key.Some? && c.get(st, req.key.value).Some?
    ensures EntryPoint(c, st, t1, req) == EntryPoint(c, st, t2, req)
  {
  }

  /** With a cache that keeps what it stores, a file answered once is what
      the same key answers next time, whatever the task then does. */
  lemma StoredFileIsServedNext<S(!new)>(c: CacheOps<S>, st: S,
                                      t1: AssetRequest -> Outcome<AssetResponse, AssetRequest, Error>,
                                      t2: AssetRequest -> Outcome<AssetResponse, AssetRequest, Error>, req: AssetRequest)
    requires Keeps(c) && req.key.Some?
    requires EntryPoint(c, st, t1, req).Done?
    requires EntryPoint(c, st, t1, req).value.0.Ok? && EntryPoint(c, st, t1, req).value.0.value.File?
    ensures var first := EntryPoint(c, st, t1, req).value;
            EntryPoint(c, first.1, t2, req) == Done((first.0, first.1))
  {
    var key := req.key.value;
    if c.get(st, key).None? {
      var f := t1(req).value.node.file;
      assert c.store(st, key, f).Ok?;
      assert c.get(c.store(st, key, f).value.0, key) == Some(c.store(st, key, f).value.1);
    }
  }

  /** Behind `NullCache`, the cache of `Assets::new`, every request runs
      the task: the answer is the task's, its node unwrapped. */
  lemma NullCacheRunsTask(task: AssetRequest -> Outcome<AssetResponse, AssetRequest, Error>, req: AssetRequest)
    requires req.key.Some?
    ensures EntryPoint(NullCache(), (), task, req) ==
              Done((match task(req) case Ok(resp) => Ok(resp.node) case Fail(rej) => Fail(rej), ()))
  {
  }

  /** A directory is never stored. */
  lemma DirNotCached<S>(c: CacheOps<S>, st: S,
                            task: AssetRequest -> Outcome<AssetResponse, AssetRequest, Error>, req: AssetRequest)
    requires req.key.Some? && c.get(st, req.key.value).None?
    requires task(req).Ok? && task(req).value.node.Dir?
    ensures EntryPoint(c, st, task, req) == Done((Ok(task(req).value.node), st))
  {
  }

  /** The state of a `TransformFuture`: running the asset task, running
      the vinyl task on its file with the request kept aside, turning the
      vinyl reply into a file, or done. */
  datatype Stage<X> = TaskStage(req: AssetRequest) | TransformStage(file: Vinyl.File, saved: AssetRequest)
                    | FileStage(reply: X, saved: AssetRequest) | DoneStage

  type Answer = Outcome<AssetResponse, AssetRequest, Error>

  /** The stages of one `Transform`: the asset task, the vinyl task, and
      `into_file` of the vinyl reply. */
  datatype Parts<!X> = Parts(task: AssetRequest -> Answer,
                             transform: Vinyl.File -> Outcome<X, Vinyl.File, Vinyl.Error>,
                             intoFile: X -> Option<Vinyl.File>)

  function Rank<X>(s: Stage<X>): nat {
    match s
    case TaskStage(_) => 3
    case TransformStage(_, _) => 2
    case FileStage(_, _) => 1
    case DoneStage => 0
  }

  /** One turn of the loop in `TransformFuture::poll`, once the stage's
      inner future is ready: the next stage, and the answer if the poll
      returns. A directory is answered as it is; a file goes to the
      transform; the task's failure is answered as it is and the stage is
      left in place; a transform error is a hard error; a transform
      rejection rejects the saved request, its cause converted, and drops
      the file; a reply that is no file rejects the saved request with
      Unknown. Polling a finished future panics. */
  function Step<X>(p: Parts<X>, s: Stage<X>): (r: Run<(Stage<X>, Option<Answer>)>)
    ensures r.Panic? <==> s.DoneStage?
    ensures r.Done? && r.value.1.None? ==> Rank(r.value.0) < Rank(s) && !r.value.0.DoneStage?
    ensures r.Done? && r.value.1.Some? ==> r.value.0.DoneStage? || (s.TaskStage? && r.value.0 == s)
  {
    match s
    case TaskStage(req) =>
      (match p.task(req)
      case Fail(rej) => Done((s, Some(Fail(rej))))
      case Ok(resp) =>
        if resp.node.Dir? then Done((DoneStage, Some(Ok(AssetResponse(resp.request, resp.node)))))
        else Done((TransformStage(resp.node.file, resp.request), None)))
    case TransformStage(f, saved) =>
      (match p.transform(f)
       case Ok(x) => Done((FileStage(x, saved), None))
       case Fail(rej) =>
         if rej.Err? then Done((DoneStage, Some(Fail(Err(VinylError(rej.error))))))
         else
           var converted := if rej.cause.Some? then Some(VinylError(rej.cause.value)) else None;
           Done((DoneStage, Some(Fail(Reject(saved, converted))))))
    case FileStage(x, saved) =>
      (match p.intoFile(x)
       case Some(g) => Done((DoneStage, Some(Ok(AssetResponse(saved, File(g))))))
       case None => Done((DoneStage, Some(Fail(Reject(saved, Some(Unknown)))))))
    case DoneStage => Panic("poll after done")
  }

  /** `TransformFuture::poll` with every inner future ready: turns of the
      loop until one returns. */
  function Poll<X>(p: Parts<X>, s: Stage<X>): (r: Run<(Stage<X>, Answer)>)
    ensures r.Panic? <==> s.DoneStage?
    decreases Rank(s)
  {
    match Step(p, s)
    case Panic(m) => Panic(m)
    case Done((next, answer)) =>
      match answer
      case Some(a) => Done((next, a))
      case None => Poll(p, next)
  }

  /** What a `Transform` answers, read directly from the three stages. */
  function TransformAnswer<X>(p: Parts<X>, req: AssetRequest): (r: Answer)
    ensures p.task(req).Fail? ==> r == p.task(req)
    ensures p.task(req).Ok? && p.task(req).value.node.Dir? ==> r == p.task(req)
    ensures r.Ok? ==> p.task(req).Ok? && r.value.request == p.task(req).value.request
    ensures r.Fail? && r.error.Reject? && p.task(req).Ok? ==> r.error.request == p.task(req).value.request
    ensures r.Fail? && r.error.Err? && p.task(req).Ok? ==> r.error.error.VinylError?
  {
    match p.task(req)
    case Fail(rej) => Fail(rej)
    case Ok(resp) =>
      if resp.node.Dir? then Ok(resp)
      else
        match p.transform(resp.node.file)
        case Fail(Err(e)) => Fail(Err(VinylError(e)))
        case Fail(Reject(_, None)) => Fail(Reject(resp.request, None))
        case Fail(Reject(_, Some(e))) => Fail(Reject(resp.request, Some(VinylError(e))))
        case Ok(x) =>
          match p.intoFile(x)
          case Some(g) => Ok(AssetResponse(resp.request, File(g)))
          case None => Fail(Reject(resp.request, Some(Unknown)))
  }

  /** The state machine answers what the stages compose to. The future is
      then done, so polling it again panics, except after a failure of the
      asset task, which leaves the first stage in place. */
  lemma PollAnswersTransform<X>(p: Parts<X>, req: AssetRequest)
    ensures Poll(p, TaskStage(req)).Done?
    ensures Poll(p, TaskStage(req)).value.1 == TransformAnswer(p, req)
    ensures p.task(req).Ok? ==> Poll(p, TaskStage(req)).value.0 == DoneStage
    ensures p.task(req).Ok? ==> Poll(p, Poll(p, TaskStage(req)).value.0).Panic?
    ensures p.task(req).Fail? ==> Poll(p, TaskStage(req)).value.0 == TaskStage(req)
  {
    match p.task(req)
    case Fail(_) =>
    case Ok(resp) =>
      if resp.node.File? {
        var s1 := TransformStage(resp.node.file, resp.request);
        assert Step(p, TaskStage(req)) == Done((s1, None));
        match p.transform(resp.node.file)
        case Fail(_) =>
        case Ok(x) =>
          var s2 := FileStage(x, resp.request);
          assert Step(p, s1) == Done((s2, None));
          assert Poll(p, TaskStage(req)) == Poll(p, s1) == Poll(p, s2);
          assert Step(p, s2).value.0 == DoneStage;
      }
  }

  /** Whatever the stages do, a `Transform` never answers with the
      vinyl task's file in a rejection: a rejection always carries the
      request, the saved one once the asset task has answered. */
  lemma TransformRejectsWithRequest<X>(p: Parts<X>, req: AssetRequest)
    requires TransformAnswer(p, req).Fail? && TransformAnswer(p, req).error.Reject?
    ensures p.task(req).Ok? ==> TransformAnswer(p, req).error.request == p.task(req).value.request
    ensures p.task(req).Fail? ==> TransformAnswer(p, req).error == p.task(req).error
  {
  }
}
