/** The earlier worker pool (old/workerutils.js): no initialising state and
    no completed counts, but a pending job callback per worker.  `assign`
    returns a promise whose resolve function becomes the worker's job
    callback; the first job of a worker is its start-up job, whose callback
    is the caller's `onInit` handler.

    A promise's resolve function has no effect on the pool when called:
    whatever was chained on the promise runs later.  The `onInit` handler
    runs at once, and is handed the assignment function of its worker; the
    job it assigns right away, if any, is a parameter (`reaction`).  Job
    payloads are opaque, hence the type parameter `D`.
 */
module OldPool {
  import opened Results
  import Decimal

  /** `"working" | "idle"`. */
  datatype Status = Working | Idle

  /** A job callback: the `onInit` handler, or the resolve function of the
      promise numbered `token`. */
  datatype Callback = InitHandler | Resolve(token: nat)

  /** The `info` record of a worker: its status, the callbacks of its
      pending job (a rejection callback only for promises) and the job's
      data. */
  datatype Info<D> = Info(status: Status, callback: Option<Callback>, reject: Option<nat>, jobData: Option<D>)

  /** A message from a worker: its tag and its data. */
  datatype Msg<D> = Msg(tag: string, data: Option<D>)

  /** A job posted to the worker at position `to`. */
  datatype Post<D> = Post(to: nat, data: D)

  /** A callback run: a job callback, `onIdle` (handed the worker's
      assignment function) or `onMsg`. */
  datatype Call<D> =
    | Invoked(worker: nat, callback: Callback, msgData: Option<D>, jobData: Option<D>)
    | IdleCall(worker: nat)
    | MsgCall(worker: nat, msgData: Option<D>, jobData: Option<D>)

  /** The options of `initWorkers`; a missing handler is `false`. */
  datatype Opts<D> = Opts(initData: Option<D>, onInit: bool, onIdle: bool, onMsg: bool)

  /** The pool, the jobs posted, the callbacks run, and the number of
      promises `assign` has made so far. */
  datatype Pool<D> = Pool(workers: seq<Info<D>>, outbox: seq<Post<D>>, calls: seq<Call<D>>, promises: nat)

  const NoOs := "os is not defined"

  /** `initWorkers(workerpath, n, opts)`: `n` workers, all working on their
      start-up job with `onInit` as its callback and `initData` as its data.
      Without a count the source asks the processor count of an `os` module
      it never imports, and throws. */
  function InitWorkers<D>(p: Pool<D>, n: Option<int>, opts: Option<Opts<D>>): (r: Result<Pool<D>>)
    ensures r.Fail? <==> n.None? || n.value == 0
    ensures r.Fail? ==> r.message == NoOs
    ensures r.Ok? ==>
              |r.value.workers| == |p.workers| + (if n.value > 0 then n.value else 0)
              && r.value.workers[..|p.workers|] == p.workers
              && r.value.outbox == p.outbox && r.value.calls == p.calls
              && r.value.promises == p.promises
    ensures r.Ok? ==>
              forall i :: |p.workers| <= i < |r.value.workers| ==>
                r.value.workers[i].status == Working && r.value.workers[i].reject.None?
                && (r.value.workers[i].callback == Some(InitHandler) <==> opts.Some? && opts.value.onInit)
                && (r.value.workers[i].callback.None? <==> opts.None? || !opts.value.onInit)
                && r.value.workers[i].jobData == (if opts.Some? then opts.value.initData else None)
  {
    if n.None? || n.value == 0 then Fail(NoOs)
    else
      var count := if n.value > 0 then n.value else 0;
      var cb := if opts.Some? && opts.value.onInit then Some(InitHandler) else None;
      var data := if opts.Some? then opts.value.initData else None;
      var added := seq(count, i requires 0 <= i < count => Info(Working, cb, None, data));
      assert (p.workers + added)[..|p.workers|] == p.workers;
      Ok(p.(workers := p.workers + added))
  }

  /** `assign(workerState, data)`: the worker works on `data`, the new
      promise's resolve and reject functions are its pending callbacks, and
      it is sent the job.  The promise's number is returned with the pool. */
  function Assign<D>(p: Pool<D>, w: nat, data: D): (r: (Pool<D>, nat))
    requires w < |p.workers|
    ensures r.1 == p.promises && r.0.promises == p.promises + 1
    ensures |r.0.workers| == |p.workers|
    ensures r.0.workers[w] == Info(Working, Some(Resolve(r.1)), Some(r.1), Some(data))
    ensures forall j :: 0 <= j < |p.workers| && j != w ==> r.0.workers[j] == p.workers[j]
    ensures r.0.outbox == p.outbox + [Post(w, data)] && r.0.calls == p.calls
  {
    var t := p.promises;
    (Pool(p.workers[w := Info(Working, Some(Resolve(t)), Some(t), Some(data))],
          p.outbox + [Post(w, data)], p.calls, t + 1), t)
  }

  function TagError(tag: string, id: nat): string {
    "unexpected message tag '" + tag + "' from worker " + Decimal.Show(id)
  }

  /** The job callback of a `finished` message runs: it is recorded, and an
      `onInit` handler's immediate assignment takes effect. */
  function RunCallback<D>(p: Pool<D>, id: nat, cb: Callback, msg: Msg<D>, jobData: Option<D>,
                          reaction: Option<D>): (r: Pool<D>)
    requires id < |p.workers|
    ensures |r.workers| == |p.workers|
    ensures forall j :: 0 <= j < |p.workers| && j != id ==> r.workers[j] == p.workers[j]
    ensures r.calls == p.calls + [Invoked(id, cb, msg.data, jobData)]
    ensures r.promises == p.promises + (if cb.InitHandler? && reaction.Some? then 1 else 0)
    ensures cb.Resolve? || reaction.None? ==> r.workers == p.workers && r.outbox == p.outbox
    ensures cb.InitHandler? && reaction.Some? ==>
              r.workers[id] == Info(Working, Some(Resolve(p.promises)), Some(p.promises), reaction)
              && r.outbox == p.outbox + [Post(id, reaction.value)]
  {
    var q := p.(calls := p.calls + [Invoked(id, cb, msg.data, jobData)]);
    if cb.InitHandler? && reaction.Some? then Assign(q, id, reaction.value).0 else q
  }

  /** The worker's pending job is forgotten. */
  function Clear<D>(p: Pool<D>, id: nat): (r: Pool<D>)
    requires id < |p.workers|
    ensures |r.workers| == |p.workers|
    ensures r.workers[id] == p.workers[id].(callback := None, reject := None, jobData := None)
    ensures forall j :: 0 <= j < |p.workers| && j != id ==> r.workers[j] == p.workers[j]
    ensures r.outbox == p.outbox && r.calls == p.calls && r.promises == p.promises
  {
    p.(workers := p.workers[id := p.workers[id].(callback := None, reject := None, jobData := None)])
  }

  /** `onIdle` is offered the worker only while it is idle. */
  function OfferIdle<D>(p: Pool<D>, id: nat, opts: Option<Opts<D>>): (r: Pool<D>)
    requires id < |p.workers|
    ensures r.workers == p.workers && r.outbox == p.outbox && r.promises == p.promises
    ensures r.calls == p.calls
              + (if opts.Some? && opts.value.onIdle && p.workers[id].status == Idle
                 then [IdleCall(id)] else [])
  {
    if opts.Some? && opts.value.onIdle && p.workers[id].status == Idle
    then p.(calls := p.calls + [IdleCall(id)]) else p
  }

  /** `receiver(id, opts, msg)` as written: on `finished` the worker is
      idle, its job callback runs, then its pending job is forgotten, and
      `onIdle` is called if the worker is still idle; `data` goes to
      `onMsg`; any other tag throws. */
  function Receive<D>(p: Pool<D>, id: nat, opts: Option<Opts<D>>, msg: Msg<D>, reaction: Option<D>)
    : (r: Result<Pool<D>>)
    requires id < |p.workers|
    ensures r.Fail? <==> msg.tag != "finished" && msg.tag != "data"
    ensures r.Fail? ==> r.message == TagError(msg.tag, id)
    ensures r.Ok? ==> |r.value.workers| == |p.workers|
    ensures r.Ok? ==> forall j :: 0 <= j < |p.workers| && j != id ==> r.value.workers[j] == p.workers[j]
    ensures r.Ok? && msg.tag == "data" ==>
              r.value.workers == p.workers && r.value.outbox == p.outbox
    ensures r.Ok? && msg.tag == "finished" ==>
              r.value.workers[id].callback.None? && r.value.workers[id].jobData.None?
  {
    var info := p.workers[id];
    if msg.tag == "finished" then
      var p1 := p.(workers := p.workers[id := info.(status := Idle)]);
      var p2 := if info.callback.Some?
                then RunCallback(p1, id, info.callback.value, msg, info.jobData, reaction) else p1;
      Ok(OfferIdle(Clear(p2, id), id, opts))
    else if msg.tag == "data" then
      Ok(if opts.Some? && opts.value.onMsg
         then p.(calls := p.calls + [MsgCall(id, msg.data, info.jobData)]) else p)
    else Fail(TagError(msg.tag, id))
  }

  /** `receiver` as evidently meant: the pending job is taken off the worker
      before its callback runs, so a job the callback assigns at once keeps
      its own callbacks and data. */
  function ReceiveIntended<D>(p: Pool<D>, id: nat, opts: Option<Opts<D>>, msg: Msg<D>, reaction: Option<D>)
    : (r: Result<Pool<D>>)
    requires id < |p.workers|
    ensures r.Fail? <==> msg.tag != "finished" && msg.tag != "data"
    ensures r.Fail? ==> r.message == TagError(msg.tag, id)
    ensures r.Ok? ==> |r.value.workers| == |p.workers|
    ensures r.Ok? ==> forall j :: 0 <= j < |p.workers| && j != id ==> r.value.workers[j] == p.workers[j]
    ensures r.Ok? && msg.tag == "data" ==>
              r.value.workers == p.workers && r.value.outbox == p.outbox
    ensures r.Ok? && msg.tag == "finished" ==>
              (r.value.workers[id].status == Idle <==> r.value.workers[id].callback.None?)
  {
    var info := p.workers[id];
    if msg.tag == "finished" then
      var p1 := Clear(p.(workers := p.workers[id := info.(status := Idle)]), id);
      var p2 := if info.callback.Some?
                then RunCallback(p1, id, info.callback.value, msg, info.jobData, reaction) else p1;
      Ok(OfferIdle(p2, id, opts))
    else if msg.tag == "data" then
      Ok(if opts.Some? && opts.value.onMsg
         then p.(calls := p.calls + [MsgCall(id, msg.data, info.jobData)]) else p)
    else Fail(TagError(msg.tag, id))
  }

  /** As written, a job that the `onInit` handler assigns at once is sent to
      the worker, but its promise callbacks and data are wiped straight
      after: the worker works on a job whose promise can never settle.  As
      meant, the job keeps them. */
  lemma InitAssignmentLost<D>(p: Pool<D>, id: nat, opts: Option<Opts<D>>, msg: Msg<D>, job: D)
    requires id < |p.workers| && p.workers[id].callback == Some(InitHandler) && msg.tag == "finished"
    ensures var r := Receive(p, id, opts, msg, Some(job)).value;
            r.workers[id].status == Working && r.workers[id].callback.None?
            && r.workers[id].jobData.None? && Post(id, job) in r.outbox
    ensures var r := ReceiveIntended(p, id, opts, msg, Some(job)).value;
            r.workers[id] == Info(Working, Some(Resolve(p.promises)), Some(p.promises), Some(job))
            && Post(id, job) in r.outbox
  {
    var info := p.workers[id];
    var p1 := p.(workers := p.workers[id := info.(status := Idle)]);
    var p2 := RunCallback(p1, id, InitHandler, msg, info.jobData, Some(job));
    assert p2.outbox[|p2.outbox| - 1] == Post(id, job);
    var q1 := Clear(p1, id);
    var q2 := RunCallback(q1, id, InitHandler, msg, info.jobData, Some(job));
    assert q2.outbox[|q2.outbox| - 1] == Post(id, job);
  }

  /** A worker that is idle has no pending job; a working worker's pending
      promise, if any, is one `assign` made. */
  predicate WorkerSettled<D>(w: Info<D>, promises: nat) {
    (w.status == Idle ==> w.callback.None? && w.reject.None?)
    && (w.callback.Some? && w.callback.value.Resolve? ==> w.callback.value.token < promises)
  }

  predicate Settled<D>(p: Pool<D>) {
    forall i :: 0 <= i < |p.workers| ==> WorkerSettled(p.workers[i], p.promises)
  }

  /** `initWorkers` establishes the invariant: a new worker is working on
      its start-up job, whose callback, if any, is the `onInit` handler. */
  lemma InitSettled<D>(p: Pool<D>, n: Option<int>, opts: Option<Opts<D>>)
    requires Settled(p)
    ensures InitWorkers(p, n, opts).Ok? ==> Settled(InitWorkers(p, n, opts).value)
  {
    var r := InitWorkers(p, n, opts);
    if r.Ok? {
      forall i | 0 <= i < |r.value.workers| ensures WorkerSettled(r.value.workers[i], r.value.promises) {
        if i < |p.workers| {
          assert r.value.workers[i] == r.value.workers[..|p.workers|][i] == p.workers[i];
        }
      }
    }
  }

  /** Both receivers and `assignIdleWorker` keep the pool settled: a
      `finished` message always leaves an idle worker without a pending
      job. */
  lemma SettledKept<D>(p: Pool<D>, id: nat, opts: Option<Opts<D>>, msg: Msg<D>, reaction: Option<D>, data: D)
    requires id < |p.workers| && Settled(p)
    ensures var r := Receive(p, id, opts, msg, reaction); r.Ok? ==> Settled(r.value)
    ensures var r := ReceiveIntended(p, id, opts, msg, reaction); r.Ok? ==> Settled(r.value)
    ensures var r := AssignIdleWorker(p, data); r.Ok? ==> Settled(r.value.0)
  {
    if msg.tag == "finished" {
      ReceiveSettled(p, id, opts, msg, reaction);
      ReceiveIntendedSettled(p, id, opts, msg, reaction);
    }
    var a := AssignIdleWorker(p, data);
    if a.Ok? {
      var i :| 0 <= i < |p.workers| && a.value == Assign(p, i, data);
      AssignSettled(p, i, data);
    }
  }

  lemma AssignSettled<D>(p: Pool<D>, i: nat, data: D)
    requires i < |p.workers| && Settled(p)
    ensures Settled(Assign(p, i, data).0)
  {
    var q := Assign(p, i, data).0;
    assert q.workers[i] == Info(Working, Some(Resolve(p.promises)), Some(p.promises), Some(data));
    assert WorkerSettled(q.workers[i], q.promises);
    SettledUpdate(p, q, i);
  }

  lemma ReceiveSettled<D>(p: Pool<D>, id: nat, opts: Option<Opts<D>>, msg: Msg<D>, reaction: Option<D>)
    requires id < |p.workers| && Settled(p) && msg.tag == "finished"
    ensures Settled(Receive(p, id, opts, msg, reaction).value)
  {
    var info := p.workers[id];
    var p1 := p.(workers := p.workers[id := info.(status := Idle)]);
    var p2 := if info.callback.Some?
              then RunCallback(p1, id, info.callback.value, msg, info.jobData, reaction) else p1;
    var c := Clear(p2, id);
    var r := OfferIdle(c, id, opts);
    assert Receive(p, id, opts, msg, reaction) == Ok(r);
    assert p.promises <= p2.promises;
    assert r.workers[id].callback.None? && r.workers[id].reject.None?;
    SettledUpdate(p, r, id);
  }

  lemma ReceiveIntendedSettled<D>(p: Pool<D>, id: nat, opts: Option<Opts<D>>, msg: Msg<D>, reaction: Option<D>)
    requires id < |p.workers| && Settled(p) && msg.tag == "finished"
    ensures Settled(ReceiveIntended(p, id, opts, msg, reaction).value)
  {
    var info := p.workers[id];
    var q1 := Clear(p.(workers := p.workers[id := info.(status := Idle)]), id);
    assert q1.workers[id] == Info(Idle, None, None, None);
    var q2 := if info.callback.Some?
              then RunCallback(q1, id, info.callback.value, msg, info.jobData, reaction) else q1;
    var r := OfferIdle(q2, id, opts);
    assert ReceiveIntended(p, id, opts, msg, reaction) == Ok(r);
    assert WorkerSettled(r.workers[id], r.promises);
    SettledUpdate(p, r, id);
  }

  /** Changing one worker, with the promise count not going back, keeps the
      pool settled as long as that worker is. */
  lemma SettledUpdate<D>(p: Pool<D>, q: Pool<D>, id: nat)
    requires Settled(p) && id < |p.workers| == |q.workers| && p.promises <= q.promises
    requires forall j :: 0 <= j < |p.workers| && j != id ==> q.workers[j] == p.workers[j]
    requires WorkerSettled(q.workers[id], q.promises)
    ensures Settled(q)
  {
    forall j | 0 <= j < |q.workers| ensures WorkerSettled(q.workers[j], q.promises) {
      if j != id {
        assert WorkerSettled(p.workers[j], p.promises);
      }
    }
  }

  /** `hasIdleWorker()`: whether some worker is idle. */
  method HasIdleWorker<D>(p: Pool<D>) returns (b: bool)
    ensures b <==> exists i :: 0 <= i < |p.workers| && p.workers[i].status == Idle
  {
    for i := 0 to |p.workers|
      invariant forall j :: 0 <= j < i ==> p.workers[j].status != Idle
    {
      if p.workers[i].status == Idle {
        return true;
      }
    }
    return false;
  }

  /** `hasRunningWorker()`: whether some worker is working. */
  method HasRunningWorker<D>(p: Pool<D>) returns (b: bool)
    ensures b <==> exists i :: 0 <= i < |p.workers| && p.workers[i].status == Working
  {
    for i := 0 to |p.workers|
      invariant forall j :: 0 <= j < i ==> p.workers[j].status != Working
    {
      if p.workers[i].status == Working {
        return true;
      }
    }
    return false;
  }

  /** The first idle worker at or after `from`. */
  function FirstIdle<D>(ws: seq<Info<D>>, from: nat): (r: Option<nat>)
    requires from <= |ws|
    ensures r.Some? ==>
              from <= r.value < |ws| && ws[r.value].status == Idle
              && forall j :: from <= j < r.value ==> ws[j].status != Idle
    ensures r.None? ==> forall j :: from <= j < |ws| ==> ws[j].status != Idle
    decreases |ws| - from
  {
    if from == |ws| then None
    else if ws[from].status == Idle then Some(from)
    else FirstIdle(ws, from + 1)
  }

  const NoIdle := "no idle workers"

  /** `assignIdleWorker(data)`: the first idle worker gets the job and the
      promise is returned; with none idle the promise is rejected. */
  function AssignIdleWorker<D>(p: Pool<D>, data: D): (r: Result<(Pool<D>, nat)>)
    ensures r.Fail? <==> forall j :: 0 <= j < |p.workers| ==> p.workers[j].status != Idle
    ensures r.Fail? ==> r.message == NoIdle
    ensures r.Ok? ==>
              exists i :: 0 <= i < |p.workers| && p.workers[i].status == Idle
                && (forall j :: 0 <= j < i ==> p.workers[j].status != Idle)
                && r.value == Assign(p, i, data)
  {
    match FirstIdle(p.workers, 0)
    case None => Fail(NoIdle)
    case Some(i) => Ok(Assign(p, i, data))
  }
}
