/** The queue feeding of the earlier API generator (`pickNext`, `onInit` and
    `onMsg` in old/gen.js), driving the earlier worker pool.  Its frontier
    has the same shape as the later one: a seen set, the libraries found by
    the start-up jobs and the links reported by the workers.

    Two slips are modelled as written and next to their corrections: a link
    taken from the links still to follow can be displaced by a library, and
    the links a worker reports are assigned to that same, busy, worker.
 */
module OldCrawl {
  import opened Results
  import opened StdFrontier
  import OldPool

  /** `{thisHash, rootName}`: the job a worker is given. */
  datatype Job = Job(hash: string, root: string)

  /** What `pickNext` does after choosing: hand out a job through the
      assignment function it was given, stop the workers, or nothing. */
  datatype Action = AssignJob(job: Job) | Stop | Wait

  datatype Picked = Picked(frontier: Frontier, action: Action)

  /** `pickNext(assign)` as written: the links are tried from the end; then
      the libraries are tried whenever no link is left, even if a link was
      just chosen, and a library chosen there replaces it.  With nothing
      chosen the workers are stopped unless one is still running. */
  function PickNext(f: Frontier, running: bool): (r: Picked)
    ensures f.seen <= r.frontier.seen
    ensures r.action.AssignJob? ==>
              r.action.job.hash != "" && r.action.job.hash !in f.seen
              && r.action.job.hash in r.frontier.seen
    ensures |r.frontier.toFollow| <= |f.toFollow|
            && r.frontier.toFollow == f.toFollow[..|r.frontier.toFollow|]
    ensures |r.frontier.libs| <= |f.libs| && r.frontier.libs == f.libs[..|r.frontier.libs|]
    ensures r.frontier.libs != f.libs ==> r.frontier.toFollow == []
    ensures forall i :: |r.frontier.toFollow| <= i < |f.toFollow| ==> f.toFollow[i].hash in r.frontier.seen
    ensures forall i :: |r.frontier.libs| <= i < |f.libs| ==> f.libs[i].hash in r.frontier.seen
    ensures !r.action.AssignJob? ==> (r.action.Stop? <==> !running)
    ensures r.action.AssignJob? && r.frontier.libs == f.libs ==>
              |r.frontier.toFollow| < |f.toFollow|
              && r.action.job == JobOf(f.toFollow[|r.frontier.toFollow|])
              && forall i :: |r.frontier.toFollow| < i < |f.toFollow| ==> f.toFollow[i].hash in f.seen
    ensures r.action.AssignJob? && r.frontier.libs != f.libs ==>
              (|r.frontier.libs| < |f.libs| && r.action.job == JobOf(f.libs[|r.frontier.libs|]))
              || (r.frontier.libs == [] && |f.toFollow| > 0 && r.action.job == JobOf(f.toFollow[0]))
    ensures r.frontier.seen <= f.seen + Keys(f.toFollow[|r.frontier.toFollow|..])
                                      + Keys(f.libs[|r.frontier.libs|..])
  {
    var a := PopUnseen(f.seen, f.toFollow);
    var b := if a.rest == [] then PopUnseen(a.seen, f.libs) else Popped(a.seen, f.libs, None);
    var pick := if b.picked.Some? then b.picked else a.picked;
    var g := Frontier(b.seen, b.rest, a.rest);
    SeenByPick(f, a, b);
    if pick.Some? && pick.value.hash != "" then Picked(g, AssignJob(Job(pick.value.hash, pick.value.parent)))
    else if !running then Picked(g, Stop)
    else Picked(g, Wait)
  }

  /** The job for a queued entry. */
  function JobOf(e: Entry): Job {
    Job(e.hash, e.parent)
  }

  /** The keys of the entries of a queue. */
  function Keys(q: seq<Entry>): set<string> {
    set i | 0 <= i < |q| :: q[i].hash
  }

  /** Both queue loops of `pickNext` together mark only popped keys. */
  lemma SeenByPick(f: Frontier, a: Popped, b: Popped)
    requires a == PopUnseen(f.seen, f.toFollow)
    requires b == if a.rest == [] then PopUnseen(a.seen, f.libs) else Popped(a.seen, f.libs, None)
    ensures b.seen <= f.seen + Keys(f.toFollow[|a.rest|..]) + Keys(f.libs[|b.rest|..])
  {
    PoppedKeys(f.seen, f.toFollow, a, true);
    PoppedKeys(a.seen, f.libs, b, a.rest == []);
  }

  /** One queue loop, if it runs, marks only the keys it popped as seen. */
  lemma PoppedKeys(seen: set<string>, q: seq<Entry>, p: Popped, runs: bool)
    requires p == if runs then PopUnseen(seen, q) else Popped(seen, q, None)
    ensures p.seen <= seen + Keys(q[|p.rest|..])
  {
    if runs && p.picked.Some? {
      assert q[|p.rest|..][0] == p.picked.value;
    }
  }

  /** With non-empty keys, nothing is handed out exactly when every queued
      key was seen. */
  lemma PickNextExhausts(f: Frontier, running: bool)
    requires KeyedQueues(f)
    ensures !PickNext(f, running).action.AssignJob? <==>
              (forall i :: 0 <= i < |f.toFollow| ==> f.toFollow[i].hash in f.seen)
              && (forall i :: 0 <= i < |f.libs| ==> f.libs[i].hash in f.seen)
  {
    var a := PopUnseen(f.seen, f.toFollow);
    if a.picked.None? {
      var b := PopUnseen(a.seen, f.libs);
      if b.picked.Some? {
        assert b.picked.value in f.libs;
      }
    } else {
      assert a.picked.value in f.toFollow;
    }
  }

  /** The displaced link: with one unseen link left to follow and one unseen
      library, `pickNext` hands out the library, and the link is marked seen
      without ever being handed out, now or later.  The later selection
      (`startNextRender`) takes the link. */
  lemma PickNextDropsLink(f: Frontier, running: bool)
    requires |f.toFollow| == 1 && |f.libs| == 1
    requires f.toFollow[0].hash != "" && f.toFollow[0].hash !in f.seen
    requires f.libs[0].hash != "" && f.libs[0].hash !in f.seen
    requires f.toFollow[0].hash != f.libs[0].hash
    ensures var r := PickNext(f, running);
            r.action == AssignJob(Job(f.libs[0].hash, f.libs[0].parent))
            && f.toFollow[0].hash in r.frontier.seen && r.frontier.toFollow == []
    ensures var r := PickNext(f, running);
            forall g: Frontier, run: bool :: r.frontier.seen <= g.seen ==>
              PickNext(g, run).action != AssignJob(Job(f.toFollow[0].hash, f.toFollow[0].parent))
    ensures StartNextRender(f).next == Some(f.toFollow[0])
  {
    var e := f.toFollow[0];
    var a := PopUnseen(f.seen, f.toFollow);
    assert f.toFollow[..0] == [];
    assert a.picked == Some(e) && a.rest == [];
    var b := PopUnseen(a.seen, f.libs);
    assert f.libs[..0] == [];
    assert b.picked == Some(f.libs[0]);
  }

  /** `onInit`: the libraries a start-up job found are queued after those
      already known, so the last found is tried first. */
  function OnInit(f: Frontier, found: seq<Entry>): (r: Frontier)
    ensures r.seen == f.seen && r.toFollow == f.toFollow
    ensures |r.libs| == |f.libs| + |found|
    ensures r.libs[..|f.libs|] == f.libs && r.libs[|f.libs|..] == found
  {
    var libs := f.libs + found;
    assert libs[..|f.libs|] == f.libs && libs[|f.libs|..] == found;
    f.(libs := libs)
  }

  /** The crawl: the frontier, the pool and whether the workers were
      stopped. */
  datatype Crawl = Crawl(frontier: Frontier, pool: OldPool.Pool<Job>, stopped: bool)

  predicate AnyIdle(p: OldPool.Pool<Job>) {
    exists i :: 0 <= i < |p.workers| && p.workers[i].status == OldPool.Idle
  }

  predicate AnyWorking(p: OldPool.Pool<Job>) {
    exists i :: 0 <= i < |p.workers| && p.workers[i].status == OldPool.Working
  }

  /** Worker `w` was offered the next job: the frontier is the one
      `pickNext` leaves; a job it hands out goes to `w` alone, under a new
      promise; otherwise the pool is untouched and the workers are stopped
      exactly when `pickNext` stops them. */
  predicate OfferedTo(c: Crawl, w: nat, r: Crawl)
    requires w < |c.pool.workers|
  {
    var pk := PickNext(c.frontier, AnyWorking(c.pool));
    && r.frontier == pk.frontier
    && |r.pool.workers| == |c.pool.workers|
    && (forall j :: 0 <= j < |c.pool.workers| && j != w ==> r.pool.workers[j] == c.pool.workers[j])
    && (pk.action.AssignJob? ==>
          r.pool.workers[w]
          == OldPool.Info(OldPool.Working, Some(OldPool.Resolve(c.pool.promises)), Some(c.pool.promises),
                          Some(pk.action.job))
          && r.pool.outbox == c.pool.outbox + [OldPool.Post(w, pk.action.job)]
          && r.stopped == c.stopped)
    && (!pk.action.AssignJob? ==> r.pool == c.pool && (r.stopped <==> c.stopped || pk.action.Stop?))
  }

  /** `pickNext(assign)` with the assignment function of worker `w`. */
  function Pick(c: Crawl, w: nat): (r: Crawl)
    requires w < |c.pool.workers|
    ensures |r.pool.workers| == |c.pool.workers|
    ensures forall j :: 0 <= j < |c.pool.workers| && j != w ==> r.pool.workers[j] == c.pool.workers[j]
    ensures OfferedTo(c, w, r)
  {
    var pk := PickNext(c.frontier, AnyWorking(c.pool));
    match pk.action
    case AssignJob(j) => Crawl(pk.frontier, OldPool.Assign(c.pool, w, j).0, c.stopped)
    case Stop => Crawl(pk.frontier, c.pool, true)
    case Wait => Crawl(pk.frontier, c.pool, c.stopped)
  }

  /** `onIdle`: the worker that fell idle is offered the next job. */
  function OnIdle(c: Crawl, w: nat): (r: Crawl)
    requires w < |c.pool.workers|
    ensures |r.pool.workers| == |c.pool.workers|
    ensures forall j :: 0 <= j < |c.pool.workers| && j != w ==> r.pool.workers[j] == c.pool.workers[j]
    ensures OfferedTo(c, w, r)
  {
    Pick(c, w)
  }

  /** An entry is accounted for: still queued to follow, or its key seen. */
  predicate Kept(f: Frontier, e: Entry) {
    e in f.toFollow || e.hash in f.seen
  }

  /** `onMsg` as written: each reported link is queued and, while some
      worker is idle, `pickNext` runs with the assignment function of the
      worker that reported it. */
  function OnMsg(c: Crawl, sender: nat, items: seq<Entry>): (r: Crawl)
    requires sender < |c.pool.workers|
    ensures |r.pool.workers| == |c.pool.workers|
    ensures c.frontier.seen <= r.frontier.seen
    ensures forall j :: 0 <= j < |c.pool.workers| && j != sender ==> r.pool.workers[j] == c.pool.workers[j]
    ensures !AnyIdle(c.pool) ==>
              r.pool == c.pool && r.stopped == c.stopped && r.frontier.seen == c.frontier.seen
              && r.frontier.libs == c.frontier.libs && r.frontier.toFollow == c.frontier.toFollow + items
    decreases |items|
  {
    if |items| == 0 then
      assert c.frontier.toFollow + items == c.frontier.toFollow;
      c
    else
      var c1 := c.(frontier := c.frontier.(toFollow := c.frontier.toFollow + [items[0]]));
      var c2 := if AnyIdle(c1.pool) then Pick(c1, sender) else c1;
      assert c1.frontier.toFollow + items[1..] == c.frontier.toFollow + items;
      OnMsg(c2, sender, items[1..])
  }

  /** Nothing reported or queued is dropped without its key being seen. */
  lemma {:induction false} OnMsgKeeps(c: Crawl, sender: nat, items: seq<Entry>)
    requires sender < |c.pool.workers|
    ensures var r := OnMsg(c, sender, items);
            (forall e :: e in c.frontier.toFollow ==> Kept(r.frontier, e))
            && forall i :: 0 <= i < |items| ==> Kept(r.frontier, items[i])
    decreases |items|
  {
    if |items| > 0 {
      var c1 := c.(frontier := c.frontier.(toFollow := c.frontier.toFollow + [items[0]]));
      var c2 := if AnyIdle(c1.pool) then Pick(c1, sender) else c1;
      forall e | e in c1.frontier.toFollow ensures Kept(c2.frontier, e) {
        PickKeeps(c1.frontier, AnyWorking(c1.pool), e);
      }
      OnMsgKeeps(c2, sender, items[1..]);
      var r := OnMsg(c2, sender, items[1..]);
      assert r == OnMsg(c, sender, items);
      forall e | Kept(c2.frontier, e) ensures Kept(r.frontier, e) {
        KeptGrows(c2, sender, items[1..], e);
      }
      assert items[0] in c1.frontier.toFollow;
      forall i | 1 <= i < |items| ensures Kept(r.frontier, items[i]) {
        assert items[i] == items[1..][i - 1];
      }
    }
  }

  /** One selection keeps every queued entry accounted for. */
  lemma PickKeeps(f: Frontier, running: bool, e: Entry)
    requires e in f.toFollow
    ensures Kept(PickNext(f, running).frontier, e)
  {
    var r := PickNext(f, running);
    var i :| 0 <= i < |f.toFollow| && f.toFollow[i] == e;
    if i < |r.frontier.toFollow| {
      assert r.frontier.toFollow[i] == e;
    }
  }

  /** An entry accounted for stays accounted for. */
  lemma {:induction false} KeptGrows(c: Crawl, sender: nat, items: seq<Entry>, e: Entry)
    requires sender < |c.pool.workers| && Kept(c.frontier, e)
    ensures Kept(OnMsg(c, sender, items).frontier, e)
    decreases |items|
  {
    if |items| > 0 {
      var c1 := c.(frontier := c.frontier.(toFollow := c.frontier.toFollow + [items[0]]));
      if e in c.frontier.toFollow {
        assert e in c1.frontier.toFollow;
      }
      var c2 := if AnyIdle(c1.pool) then Pick(c1, sender) else c1;
      if AnyIdle(c1.pool) && e in c1.frontier.toFollow {
        PickKeeps(c1.frontier, AnyWorking(c1.pool), e);
      }
      KeptGrows(c2, sender, items[1..], e);
    }
  }

  /** The busy sender: a worker reporting a link mid-job is handed that link
      as a new job while another worker sits idle.  The callbacks and data of
      its pending job are replaced by the new job's, and the idle worker
      stays idle. */
  lemma OnMsgAssignsSender(c: Crawl, sender: nat, idle: nat, e: Entry)
    requires sender < |c.pool.workers| && idle < |c.pool.workers|
    requires c.pool.workers[sender].status == OldPool.Working
    requires c.pool.workers[idle].status == OldPool.Idle
    requires c.frontier.toFollow == [] && c.frontier.libs == []
    requires e.hash != "" && e.hash !in c.frontier.seen
    ensures var r := OnMsg(c, sender, [e]);
            r.pool.workers[sender].jobData == Some(Job(e.hash, e.parent))
            && r.pool.workers[sender].callback == Some(OldPool.Resolve(c.pool.promises))
            && r.pool.workers[idle] == c.pool.workers[idle]
  {
    var c1 := c.(frontier := c.frontier.(toFollow := [e]));
    assert c.frontier.toFollow + [e] == [e];
    assert AnyIdle(c1.pool);
    var a := PopUnseen(c1.frontier.seen, [e]);
    assert [e][..0] == [];
    assert a.picked == Some(e) && a.rest == [];
    assert OnMsg(c, sender, [e]) == OnMsg(Pick(c1, sender), sender, []);
  }

  /** `pickNext` as meant: the later selection (`startNextRender`), whose
      chosen link is never displaced, with the job going to an idle worker
      through `assignIdleWorker`.  It runs only while a worker is idle. */
  function PickIntended(c: Crawl): (r: Crawl)
    requires AnyIdle(c.pool)
    ensures |r.pool.workers| == |c.pool.workers|
    ensures forall j :: 0 <= j < |c.pool.workers| && c.pool.workers[j].status == OldPool.Working ==>
              r.pool.workers[j] == c.pool.workers[j]
  {
    var s := StartNextRender(c.frontier);
    if s.next.Some? then
      var e := s.next.value;
      var a := OldPool.AssignIdleWorker(c.pool, Job(e.hash, e.parent));
      assert a.Ok?;
      Crawl(s.frontier, a.value.0, c.stopped)
    else Crawl(s.frontier, c.pool, c.stopped || !AnyWorking(c.pool))
  }

  /** `onMsg` as meant: each reported link is queued and, while a worker is
      idle, handed to an idle worker. */
  function OnMsgIntended(c: Crawl, items: seq<Entry>): (r: Crawl)
    ensures |r.pool.workers| == |c.pool.workers|
    ensures forall j :: 0 <= j < |c.pool.workers| && c.pool.workers[j].status == OldPool.Working ==>
              r.pool.workers[j] == c.pool.workers[j]
    decreases |items|
  {
    if |items| == 0 then c
    else
      var c1 := c.(frontier := c.frontier.(toFollow := c.frontier.toFollow + [items[0]]));
      var c2 := if AnyIdle(c1.pool) then PickIntended(c1) else c1;
      OnMsgIntended(c2, items[1..])
  }

  /** As meant, the same report goes to the idle worker and the sender keeps
      its job. */
  lemma OnMsgIntendedSparesSender(c: Crawl, sender: nat, idle: nat, e: Entry)
    requires sender < |c.pool.workers| && idle < |c.pool.workers|
    requires c.pool.workers[sender].status == OldPool.Working
    requires c.pool.workers[idle].status == OldPool.Idle
    requires c.frontier.toFollow == [] && c.frontier.libs == []
    requires e.hash != "" && e.hash !in c.frontier.seen
    ensures var r := OnMsgIntended(c, [e]);
            r.pool.workers[sender] == c.pool.workers[sender]
            && exists k :: 0 <= k < |c.pool.workers| && c.pool.workers[k].status == OldPool.Idle
                 && r.pool.workers[k].jobData == Some(Job(e.hash, e.parent))
  {
    var c1 := c.(frontier := c.frontier.(toFollow := [e]));
    assert c.frontier.toFollow + [e] == [e];
    assert AnyIdle(c1.pool);
    var a := PopUnseen(c1.frontier.seen, [e]);
    assert [e][..0] == [];
    assert a.picked == Some(e);
    var s := StartNextRender(c1.frontier);
    assert s.next == Some(e);
    assert OnMsgIntended(c, [e]) == OnMsgIntended(PickIntended(c1), []);
  }
}
