/** The coordinator side of the worker pool (workerutils.js): a table with
    one record per worker thread, driven by the tagged messages the workers
    send.  What the coordinator posts to the workers is collected in an
    outbox, and the handlers it calls on the caller's options in a call log;
    a handler's own effects are the caller's business.  Job payloads are
    opaque to the pool, hence the type parameter `D`.
 */
module Pool {
  import opened Results
  import Decimal

  /** `"initalising" | "working" | "idle"`. */
  datatype Status = Initialising | Working | Idle

  /** The `info` record of a worker: its number, its status, the jobs it
      completed, and the data of its current or last job. */
  datatype Info<D> = Info(id: nat, status: Status, nCompleted: nat, jobData: Option<D>)

  /** A message posted to a worker. */
  datatype Out<D> = Job(data: D) | Reply(data: D) | AskMsg

  /** A message and the position in the pool of the worker it goes to. */
  datatype Post<D> = Post(to: nat, msg: Out<D>)

  /** A message from a worker: its tag and its data. */
  datatype Msg<D> = Msg(tag: string, data: Option<D>)

  /** A handler call on the options: `onInit`, `onIdle` (which is handed the
      assignment function bound to `worker`), `onData` and `onReply`. */
  datatype Call<D> =
    | InitCall(msgData: Option<D>, initData: Option<D>)
    | IdleCall(worker: nat, msgData: Option<D>, jobData: Option<D>, isInit: bool)
    | DataCall(msgData: Option<D>, jobData: Option<D>, isInit: bool)
    | ReplyCall(msgData: Option<D>, jobData: Option<D>, isInit: bool)

  /** `onAsk({msgData, jobData, isInit})`: the data of the reply. */
  type Asker<!D> = (Option<D>, Option<D>, bool) -> D

  /** The options object of `initWorkers`; a missing handler is `false`
      (`None` for `onAsk`). */
  datatype Opts<!D> = Opts(
    nWorkers: Option<int>,
    initData: Option<D>,
    onInit: bool,
    onIdle: bool,
    onData: bool,
    onAsk: Option<Asker<D>>,
    onReply: bool)

  /** The pool, what was posted to the workers, and the handler calls. */
  datatype Pool<D> = Pool(workers: seq<Info<D>>, outbox: seq<Post<D>>, calls: seq<Call<D>>)

  /** Every record's number is a position in the pool (`pool[id]` exists). */
  predicate IdsInRange<D>(ws: seq<Info<D>>) {
    forall i :: 0 <= i < |ws| ==> ws[i].id < |ws|
  }

  /** Every record sits at the position of its number. */
  predicate Indexed<D>(ws: seq<Info<D>>) {
    forall i :: 0 <= i < |ws| ==> ws[i].id == i
  }

  /** The number of workers started: `opts?.nWorkers || cpus - 1`, where an
      absent or zero count falls back to one less than the processor count,
      and a count below one starts none. */
  function WorkerCount<D>(opts: Option<Opts<D>>, cpus: nat): (n: nat)
    ensures opts.Some? && opts.value.nWorkers.Some? && opts.value.nWorkers.value > 0
            ==> n == opts.value.nWorkers.value
    ensures opts.Some? && opts.value.nWorkers.Some? && opts.value.nWorkers.value < 0 ==> n == 0
    ensures opts.None? || opts.value.nWorkers.None? || opts.value.nWorkers.value == 0
            ==> n == if cpus > 0 then cpus - 1 else 0
  {
    var asked := if opts.Some? && opts.value.nWorkers.Some? then opts.value.nWorkers.value else 0;
    var count := if asked != 0 then asked else cpus - 1;
    if count > 0 then count else 0
  }

  /** `initWorkers`: one record per new worker, numbered from 0, still
      initialising and with nothing completed, appended to the pool. */
  function InitWorkers<D>(p: Pool<D>, opts: Option<Opts<D>>, cpus: nat): (r: Pool<D>)
    ensures |r.workers| == |p.workers| + WorkerCount(opts, cpus)
    ensures r.workers[..|p.workers|] == p.workers
    ensures forall i :: |p.workers| <= i < |r.workers| ==>
              r.workers[i] == Info(i - |p.workers|, Initialising, 0, None)
    ensures r.outbox == p.outbox && r.calls == p.calls
  {
    var n := WorkerCount(opts, cpus);
    var added := seq(n, i requires 0 <= i < n => Info(i, Initialising, 0, None));
    assert (p.workers + added)[..|p.workers|] == p.workers;
    p.(workers := p.workers + added)
  }

  /** Started on an empty pool, every worker sits at its own number. */
  lemma InitIndexed<D>(opts: Option<Opts<D>>, cpus: nat)
    ensures Indexed(InitWorkers(Pool([], [], []), opts, cpus).workers)
  {
    var r := InitWorkers(Pool([], [], []), opts, cpus);
    forall i | 0 <= i < |r.workers| ensures r.workers[i].id == i {
      assert r.workers[i] == Info(i - 0, Initialising, 0, None);
    }
  }

  /** `assign(id, data)`: the worker at `id` is working on `data` and is sent
      the job; no other worker changes. */
  function Assign<D>(p: Pool<D>, id: nat, data: D): (r: Pool<D>)
    requires id < |p.workers|
    ensures |r.workers| == |p.workers|
    ensures r.workers[id] == p.workers[id].(status := Working, jobData := Some(data))
    ensures forall j :: 0 <= j < |p.workers| && j != id ==> r.workers[j] == p.workers[j]
    ensures r.outbox == p.outbox + [Post(id, Job(data))] && r.calls == p.calls
  {
    var w := p.workers[id];
    Pool(p.workers[id := w.(status := Working, jobData := Some(data))],
         p.outbox + [Post(id, Job(data))], p.calls)
  }

  /** The tags the receiver knows. */
  predicate KnownTag(tag: string) {
    tag == "finished" || tag == "data" || tag == "ask" || tag == "reply"
  }

  const NoOpts := "Cannot read properties of undefined (reading 'onInit')"
  const NoOnInit := "opts.onInit is not a function"

  function AskError(id: nat): string {
    "worker " + Decimal.Show(id) + " sent an ask but there is no onAsk handler specified"
  }

  function TagError(tag: string, id: nat): string {
    "unexpected message tag '" + tag + "' from worker " + Decimal.Show(id)
  }

  /** Whether the receiver fails on `msg` from worker `id`: an initialising
      worker's first `finished` needs `onInit`, an `ask` needs `onAsk`, and
      the tag must be known. */
  predicate Rejects<D>(p: Pool<D>, id: nat, opts: Option<Opts<D>>, msg: Msg<D>)
    requires id < |p.workers|
  {
    || !KnownTag(msg.tag)
    || (msg.tag == "finished" && p.workers[id].status == Initialising
        && (opts.None? || !opts.value.onInit))
    || (msg.tag == "ask" && (opts.None? || opts.value.onAsk.None?))
  }

  /** The `finished` branch: the worker is idle; its first finish calls
      `onInit`, every later one counts a completed job; `onIdle` is then
      offered the worker. */
  function Finished<D>(p: Pool<D>, id: nat, opts: Option<Opts<D>>, msg: Msg<D>): (r: Result<Pool<D>>)
    requires id < |p.workers|
    requires msg.tag == "finished"
  {
    var info := p.workers[id];
    var isInit := info.status == Initialising;
    var initCalls :-
      if !isInit then Ok([])
      else if opts.None? then Fail(NoOpts)
      else if !opts.value.onInit then Fail(NoOnInit)
      else Ok([InitCall(msg.data, opts.value.initData)]);
    var done := if isInit then info.nCompleted else info.nCompleted + 1;
    var idleCalls := if opts.Some? && opts.value.onIdle
                     then [IdleCall(id, msg.data, info.jobData, isInit)] else [];
    Ok(p.(workers := p.workers[id := info.(status := Idle, nCompleted := done)],
          calls := p.calls + initCalls + idleCalls))
  }

  /** `receiver(id, opts, msg)`. */
  function Receive<D>(p: Pool<D>, id: nat, opts: Option<Opts<D>>, msg: Msg<D>): (r: Result<Pool<D>>)
    requires id < |p.workers|
    ensures r.Fail? <==> Rejects(p, id, opts, msg)
    ensures !KnownTag(msg.tag) ==> r == Fail(TagError(msg.tag, id))
    ensures KnownTag(msg.tag) && msg.tag == "ask" && r.Fail? ==> r.message == AskError(id)
    ensures r.Ok? ==> |r.value.workers| == |p.workers|
    ensures r.Ok? ==> forall j :: 0 <= j < |p.workers| && j != id ==> r.value.workers[j] == p.workers[j]
    ensures r.Ok? && msg.tag == "finished" ==>
              var info := p.workers[id];
              r.value.workers[id]
              == info.(status := Idle,
                       nCompleted := if info.status == Initialising then info.nCompleted
                                     else info.nCompleted + 1)
    ensures r.Ok? && msg.tag != "finished" ==> r.value.workers == p.workers
    ensures r.Ok? && msg.tag != "ask" ==> r.value.outbox == p.outbox
    ensures r.Ok? && msg.tag == "ask" ==>
              |r.value.outbox| == |p.outbox| + 1 && r.value.outbox[..|p.outbox|] == p.outbox
              && r.value.outbox[|p.outbox|].to == id && r.value.outbox[|p.outbox|].msg.Reply?
  {
    var info := p.workers[id];
    var isInit := info.status == Initialising;
    var on := opts.Some?;
    if msg.tag == "finished" then Finished(p, id, opts, msg)
    else if msg.tag == "data" then
      Ok(Notify(p, on && opts.value.onData, DataCall(msg.data, info.jobData, isInit)))
    else if msg.tag == "ask" then
      if on && opts.value.onAsk.Some? then
        Ok(Answer(p, id, opts.value.onAsk.value(msg.data, info.jobData, isInit)))
      else Fail(AskError(id))
    else if msg.tag == "reply" then
      Ok(Notify(p, on && opts.value.onReply, ReplyCall(msg.data, info.jobData, isInit)))
    else Fail(TagError(msg.tag, id))
  }

  /** What the other messages call: `data` and `reply` call their handler
      when it is given, and `ask` posts back the value `onAsk` returns. */
  lemma ReceiveHandlers<D>(p: Pool<D>, id: nat, opts: Option<Opts<D>>, msg: Msg<D>)
    requires id < |p.workers|
    ensures var r := Receive(p, id, opts, msg);
            (r.Ok? && msg.tag == "ask" ==>
              opts.Some? && opts.value.onAsk.Some? && r.value.calls == p.calls
              && r.value.outbox[|p.outbox|].msg
                 == Reply(opts.value.onAsk.value(msg.data, p.workers[id].jobData,
                                                 p.workers[id].status == Initialising)))
            && (r.Ok? && msg.tag == "data" ==>
              r.value.calls == p.calls + (if opts.Some? && opts.value.onData
                                          then [DataCall(msg.data, p.workers[id].jobData,
                                                         p.workers[id].status == Initialising)]
                                          else []))
            && (r.Ok? && msg.tag == "reply" ==>
              r.value.calls == p.calls + (if opts.Some? && opts.value.onReply
                                          then [ReplyCall(msg.data, p.workers[id].jobData,
                                                          p.workers[id].status == Initialising)]
                                          else []))
  {
  }

  /** A handler that only gets called: recorded when it is given, and
      nothing else changes. */
  function Notify<D>(p: Pool<D>, given: bool, call: Call<D>): (r: Pool<D>)
    ensures r.workers == p.workers && r.outbox == p.outbox
    ensures r.calls == p.calls + (if given then [call] else [])
  {
    if given then p.(calls := p.calls + [call]) else p
  }

  /** The reply an `ask` posts back to worker `id`, carrying `onAsk`'s value. */
  function Answer<D>(p: Pool<D>, id: nat, reply: D): (r: Pool<D>)
    ensures r.workers == p.workers && r.calls == p.calls
    ensures |r.outbox| == |p.outbox| + 1 && r.outbox[..|p.outbox|] == p.outbox
    ensures r.outbox[|p.outbox|] == Post(id, Reply(reply))
  {
    var r := p.(outbox := p.outbox + [Post(id, Reply(reply))]);
    assert r.outbox[..|p.outbox|] == p.outbox;
    r
  }

  /** Handler calls of one `finished` message: `onInit` exactly when the
      worker was initialising, `onIdle` exactly when it is given, in that
      order, and nothing else. */
  lemma FinishedCalls<D>(p: Pool<D>, id: nat, opts: Option<Opts<D>>, msg: Msg<D>)
    requires id < |p.workers| && msg.tag == "finished"
    requires Receive(p, id, opts, msg).Ok?
    ensures var r := Receive(p, id, opts, msg).value;
            var info := p.workers[id];
            var isInit := info.status == Initialising;
            r.calls
            == p.calls
               + (if isInit then [InitCall(msg.data, opts.value.initData)] else [])
               + (if opts.Some? && opts.value.onIdle
                  then [IdleCall(id, msg.data, info.jobData, isInit)] else [])
  {
  }

  /** `askRunningWorkers()`: an `ask` to every working worker, in pool
      order, and to no other. */
  method AskRunningWorkers<D>(p: Pool<D>) returns (r: Pool<D>)
    ensures r.workers == p.workers && r.calls == p.calls
    ensures |p.outbox| <= |r.outbox| && r.outbox[..|p.outbox|] == p.outbox
    ensures forall j :: |p.outbox| <= j < |r.outbox| ==>
              r.outbox[j].msg == AskMsg && r.outbox[j].to < |p.workers|
              && p.workers[r.outbox[j].to].status == Working
    ensures forall i :: 0 <= i < |p.workers| && p.workers[i].status == Working ==>
              Post(i, AskMsg) in r.outbox[|p.outbox|..]
    ensures forall j, k :: |p.outbox| <= j < k < |r.outbox| ==> r.outbox[j].to < r.outbox[k].to
  {
    r := p;
    var i := 0;
    while i < |p.workers|
      invariant 0 <= i <= |p.workers|
      invariant r.workers == p.workers && r.calls == p.calls
      invariant |p.outbox| <= |r.outbox| && r.outbox[..|p.outbox|] == p.outbox
      invariant forall j :: |p.outbox| <= j < |r.outbox| ==>
                  r.outbox[j].msg == AskMsg && r.outbox[j].to < i
                  && p.workers[r.outbox[j].to].status == Working
      invariant forall k :: 0 <= k < i && p.workers[k].status == Working ==>
                  Post(k, AskMsg) in r.outbox[|p.outbox|..]
      invariant forall j, k :: |p.outbox| <= j < k < |r.outbox| ==> r.outbox[j].to < r.outbox[k].to
    {
      if p.workers[i].status == Working {
        var before := r.outbox;
        r := r.(outbox := r.outbox + [Post(i, AskMsg)]);
        assert r.outbox[..|p.outbox|] == before[..|p.outbox|];
        assert r.outbox[|p.outbox|..] == before[|p.outbox|..] + [Post(i, AskMsg)];
      }
      i := i + 1;
    }
  }

  /** `workerStats()`: the status and completed count of every worker, in
      pool order. */
  function WorkerStats<D>(p: Pool<D>): (r: seq<(Status, nat)>)
    ensures |r| == |p.workers|
    ensures forall i :: 0 <= i < |r| ==> r[i] == (p.workers[i].status, p.workers[i].nCompleted)
  {
    seq(|p.workers|, i requires 0 <= i < |p.workers| => (p.workers[i].status, p.workers[i].nCompleted))
  }

  /** The first idle worker at or after `from`.  The same search as the
      older pool's, restated here because the two pools keep different
      worker records. */
  function FirstIdle<D>(ws: seq<Info<D>>, from: nat): (r: Option<nat>)
    requires from <= |ws|
    ensures r.Some? ==>
              from <= r.value < |ws| && ws[r.value].status == Idle
              && forall j :: from <= j < r.value ==> ws[j].status != Idle
    ensures r.None? ==> forall j :: from <= j < |ws| ==> ws[j].status != Idle
    decreases |ws| - from
  {
    if from == |ws| then None
    else if ws[from].status == Idle then Some(from)
    else FirstIdle(ws, from + 1)
  }

  const NoIdle := "no idle workers"

  /** `assignIdleWorker(data)`: the first idle worker in pool order gets
      the job, through the number it carries; with none idle it throws. */
  function AssignIdleWorker<D>(p: Pool<D>, data: D): (r: Result<Pool<D>>)
    requires IdsInRange(p.workers)
    ensures r.Fail? <==> forall j :: 0 <= j < |p.workers| ==> p.workers[j].status != Idle
    ensures r.Fail? ==> r.message == NoIdle
  {
    match FirstIdle(p.workers, 0)
    case None => Fail(NoIdle)
    case Some(i) => Ok(Assign(p, p.workers[i].id, data))
  }

  /** When every worker sits at its own number, the job goes to the idle
      worker of lowest position, and every other worker is unchanged. */
  lemma AssignIdleLowest<D>(p: Pool<D>, data: D)
    requires Indexed(p.workers)
    ensures var r := AssignIdleWorker(p, data);
            r.Ok? ==>
              exists i :: 0 <= i < |p.workers| && p.workers[i].status == Idle
                && (forall j :: 0 <= j < i ==> p.workers[j].status != Idle)
                && r.value.workers[i] == p.workers[i].(status := Working, jobData := Some(data))
                && r.value.outbox == p.outbox + [Post(i, Job(data))]
                && (forall j :: 0 <= j < |p.workers| && j != i ==> r.value.workers[j] == p.workers[j])
  {
    var f := FirstIdle(p.workers, 0);
    if f.Some? {
      var i := f.value;
      assert p.workers[i].id == i;
    }
  }

  /** An event of the pool's life: a message from a worker, a job handed
      to `assignIdleWorker`, or a job handed to the assignment function
      bound to `worker` that `onIdle` was given. */
  datatype Event<D> = Deliver(worker: nat, msg: Msg<D>) | AssignIdle(data: D) | AssignTo(worker: nat, data: D)

  /** Every message comes from, and every bound assignment goes to, a
      worker of the pool. */
  predicate FromPool<D>(evs: seq<Event<D>>, n: nat) {
    forall j :: 0 <= j < |evs| ==> !evs[j].AssignIdle? ==> evs[j].worker < n
  }

  /** A bound assignment function reaches the caller only through `onIdle`,
      which a `finished` message of that worker triggers: every `AssignTo`
      follows a `finished` of its worker. */
  predicate BoundAfterFinish<D>(evs: seq<Event<D>>) {
    forall j :: 0 <= j < |evs| ==> evs[j].AssignTo? ==> Finishes(evs[..j], evs[j].worker) > 0
  }

  /** The pool after the events in order, or the first exception. */
  function Run<D>(p: Pool<D>, opts: Option<Opts<D>>, evs: seq<Event<D>>): (r: Result<Pool<D>>)
    requires IdsInRange(p.workers) && FromPool(evs, |p.workers|)
    ensures r.Ok? ==> |r.value.workers| == |p.workers| && IdsInRange(r.value.workers)
    ensures r.Ok? ==> forall i :: 0 <= i < |p.workers| ==> r.value.workers[i].id == p.workers[i].id
    decreases |evs|
  {
    if |evs| == 0 then Ok(p)
    else
      var q :- Run(p, opts, evs[..|evs| - 1]);
      match evs[|evs| - 1]
      case Deliver(id, msg) => Receive(q, id, opts, msg)
      case AssignIdle(data) => AssignIdleWorker(q, data)
      case AssignTo(id, data) => Ok(Assign(q, id, data))
  }

  /** How many `finished` messages worker `i` sent among `evs`. */
  function Finishes<D>(evs: seq<Event<D>>, i: nat): nat
    decreases |evs|
  {
    if |evs| == 0 then 0
    else
      var e := evs[|evs| - 1];
      Finishes(evs[..|evs| - 1], i) + (if e.Deliver? && e.worker == i && e.msg.tag == "finished" then 1 else 0)
  }

  /** In a pool whose workers sit at their own numbers, a worker started by
      `initWorkers` stays initialising until its first `finished`, which is
      not counted as a job; every later `finished` counts exactly one
      completed job, whoever assigned the jobs. */
  lemma {:induction false} RunCompleted<D>(p: Pool<D>, opts: Option<Opts<D>>, evs: seq<Event<D>>, i: nat)
    requires IdsInRange(p.workers) && Indexed(p.workers) && FromPool(evs, |p.workers|)
    requires BoundAfterFinish(evs)
    requires i < |p.workers| && p.workers[i].status == Initialising && p.workers[i].nCompleted == 0
    requires Run(p, opts, evs).Ok?
    ensures var w := Run(p, opts, evs).value.workers[i];
            (w.status == Initialising <==> Finishes(evs, i) == 0)
            && w.nCompleted == if Finishes(evs, i) == 0 then 0 else Finishes(evs, i) - 1
    decreases |evs|
  {
    if |evs| > 0 {
      var pre := evs[..|evs| - 1];
      assert FromPool(pre, |p.workers|);
      PrefixBound(evs);
      RunCompleted(p, opts, pre, i);
      var q := Run(p, opts, pre).value;
      match evs[|evs| - 1]
      case Deliver(id, msg) => {
      }
      case AssignTo(id, data) => {
        assert evs[..|evs| - 1] == pre;
      }
      case AssignIdle(data) => {
        var f := FirstIdle(q.workers, 0);
        if f.Some? {
          assert q.workers[f.value].id == p.workers[f.value].id == f.value;
        }
      }
    }
  }

  /** The guard is needed: a job assigned to a worker still starting up
      makes its first `finished` count as a completed job. */
  lemma UnguardedAssignCounts<D>(opts: Opts<D>, d: D)
    requires opts.onInit
    ensures var p := Pool([Info(0, Initialising, 0, None)], [], []);
            var evs := [AssignTo(0, d), Deliver(0, Msg("finished", None))];
            !BoundAfterFinish(evs) && Finishes(evs, 0) == 1
            && Run(p, Some(opts), evs).Ok? && Run(p, Some(opts), evs).value.workers[0].nCompleted == 1
  {
    var evs: seq<Event<D>> := [AssignTo(0, d), Deliver(0, Msg("finished", None))];
    assert evs[..0] == [];
    assert evs[..1] == [AssignTo(0, d)];
    var p := Pool([Info(0, Initialising, 0, None)], [], []);
    var q := Assign(p, 0, d);
    assert Run(p, Some(opts), evs[..0]) == Ok(p);
    assert Run(p, Some(opts), evs[..1]) == Ok(q) by {
      assert evs[..1][..0] == [];
    }
    assert q.workers[0].status == Working;
    var r := Receive(q, 0, Some(opts), Msg("finished", None));
    assert r.Ok? && r.value.workers[0].nCompleted == 1;
    assert evs[..|evs| - 1] == evs[..1];
  }

  /** The guard holds of every prefix of a run that keeps it. */
  lemma PrefixBound<D>(evs: seq<Event<D>>)
    requires |evs| > 0 && BoundAfterFinish(evs)
    ensures BoundAfterFinish(evs[..|evs| - 1])
  {
    var pre := evs[..|evs| - 1];
    forall j | 0 <= j < |pre| && pre[j].AssignTo? ensures Finishes(pre[..j], pre[j].worker) > 0 {
      assert pre[..j] == evs[..j];
    }
  }

  /** No operation lowers a completed count. */
  lemma CompletedNeverDecreases<D>(p: Pool<D>, opts: Option<Opts<D>>, evs: seq<Event<D>>)
    requires IdsInRange(p.workers) && FromPool(evs, |p.workers|)
    requires Run(p, opts, evs).Ok?
    ensures forall i :: 0 <= i < |p.workers| ==>
              WorkerStats(p)[i].1 <= WorkerStats(Run(p, opts, evs).value)[i].1
  {
    forall i | 0 <= i < |p.workers|
      ensures p.workers[i].nCompleted <= Run(p, opts, evs).value.workers[i].nCompleted
    {
      RunMonotone(p, opts, evs, i);
    }
  }

  lemma {:induction false} RunMonotone<D>(p: Pool<D>, opts: Option<Opts<D>>, evs: seq<Event<D>>, i: nat)
    requires IdsInRange(p.workers) && FromPool(evs, |p.workers|)
    requires i < |p.workers| && Run(p, opts, evs).Ok?
    ensures p.workers[i].nCompleted <= Run(p, opts, evs).value.workers[i].nCompleted
    decreases |evs|
  {
    if |evs| > 0 {
      var pre := evs[..|evs| - 1];
      assert FromPool(pre, |p.workers|);
      RunMonotone(p, opts, pre, i);
    }
  }
}
