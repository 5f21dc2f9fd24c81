/** Every step of the coordinator keeps the invariant. */
module CoordinatorSteps {
  import opened Coordinators
  import opened Options
  import opened Schedulers
  import opened StoreModel
  import opened Terms

  // -- Dispatch -----------------------------------------------------------------------------------

  /** The state in which the highest-ranked task has gone to the first idle worker. */
  function AssignFirst(c: Coordinator): Coordinator
    requires c.idle != [] && c.scheduler.Pop().Some? && c.idle[0] in c.workers
  {
    var (popped, rest) := c.scheduler.Pop().value;
    c.(scheduler := rest, idle := c.idle[1..]).Assign(c.idle[0], popped.data)
  }

  /** Task `task`, queued and in no other place, has moved from the queue to worker `w`, which had none. */
  ghost predicate Moves(c: Coordinator, after: Coordinator, w: nat, task: Task) {
    && w in c.workers && w in c.monitored && w !in c.inFlight
    && after == c.(scheduler := after.scheduler, idle := after.idle).Assign(w, task)
    && task.id in c.scheduler.tasks && after.scheduler.tasks == c.scheduler.tasks - {task.id}
    && c.IsPending(task.id) && !c.InFlight(task.id) && !c.Undelivered(task.id)
  }

  ghost predicate Assigns(c: Coordinator, after: Coordinator, w: nat, task: Task) {
    && c.Core() && c.RunningOk() && Moves(c, after, w, task) && c.TaskOk(task) && after.scheduler.Inv()
    && c.idle != [] && w == c.idle[0] && after.idle == c.idle[1..]
  }

  lemma AssignFirstAssigns(c: Coordinator)
    requires c.Core() && c.RunningOk() && c.idle != [] && c.scheduler.queue != []
    ensures c.scheduler.Pop().Some? && c.idle[0] in c.workers
    ensures Assigns(c, AssignFirst(c), c.idle[0], c.scheduler.Pop().value.0.data)
    ensures c.Dispatch() == AssignFirst(c).Dispatch()
  {
    c.scheduler.PopInv();
    assert c.idle[0] in c.idle;
    var id := c.scheduler.queue[|c.scheduler.queue| - 1].1;
    assert c.QueuedOk(id) && c.Located(id);
  }

  lemma AssignInFlight(c: Coordinator, after: Coordinator, w: nat, task: Task, id: nat)
    requires Moves(c, after, w, task)
    ensures after.InFlight(id) <==> c.InFlight(id) || id == task.id
  {
    if c.InFlight(id) {
      var v :| v in c.inFlight && c.inFlight[v].id == id;
      assert v in after.inFlight && after.inFlight[v].id == id;
    }
    assert w in after.inFlight && after.inFlight[w].id == task.id;
  }

  lemma AssignedWorker(c: Coordinator, after: Coordinator, w: nat, task: Task)
    requires Moves(c, after, w, task) && c.WorkerOk(w) && c.TaskOk(task)
    ensures after.WorkerOk(w)
  {
    assert c.HoldsNothing(c.workers[w], true);
    assert after.HoldsTask(after.workers[w], task, true);
  }

  lemma OtherWorker(c: Coordinator, after: Coordinator, w: nat, task: Task, v: nat)
    requires Moves(c, after, w, task) && v in c.workers && v != w && c.WorkerOk(v)
    ensures after.WorkerOk(v)
  {
    assert after.workers[v] == c.workers[v] && (v in after.inFlight <==> v in c.inFlight);
  }

  lemma AssignWorker(c: Coordinator, after: Coordinator, w: nat, task: Task, v: nat)
    requires Moves(c, after, w, task) && v in c.workers && c.WorkerOk(v) && c.TaskOk(task)
    ensures v in after.workers && after.WorkerOk(v)
  {
    if v == w { AssignedWorker(c, after, w, task); } else { OtherWorker(c, after, w, task, v); }
  }

  lemma AssignFlight(c: Coordinator, after: Coordinator, w: nat, task: Task)
    requires Assigns(c, after, w, task)
    ensures after.FlightOk()
  {
    forall v | v in after.workers ensures after.WorkerOk(v) {
      assert c.WorkerOk(v);
      AssignWorker(c, after, w, task, v);
    }
  }

  /** The stored directories and the counters are not touched, and nothing leaves the set in flight. */
  lemma AssignCore(c: Coordinator, after: Coordinator, w: nat, task: Task)
    requires Assigns(c, after, w, task)
    ensures after.Core()
  {
    AssignFlight(c, after, w, task);
    forall id | 0 <= id < |c.store.records| ensures after.MatchesOracle(id) { assert c.MatchesOracle(id); }
    c.SumSame(after, c.merged, |c.store.records|);
    forall id: nat | after.IsPublished(id) ensures after.Accounted(id) {
      assert c.IsPublished(id) && c.Accounted(id);
      AssignInFlight(c, after, w, task, id);
    }
    forall id | id in c.merged || id in c.lost ensures after.IsPublished(id) { assert c.IsPublished(id); }
  }

  lemma ParentIsPublished(c: Coordinator, id: nat)
    requires c.StoreOk() && 0 < id < |c.store.records|
    ensures c.store.records[id].parent < id && c.store.records[c.store.records[id].parent].state == Published
  {
    assert c.store.Linked(id) && c.store.ValidRecord(c.store.records[id].parent);
  }

  lemma AssignLocated(c: Coordinator, after: Coordinator, w: nat, task: Task, id: nat)
    requires Moves(c, after, w, task) && id < |c.store.records| && c.Located(id)
    requires id > 0 ==> c.store.records[id].parent < id && c.store.records[c.store.records[id].parent].state == Published
    ensures after.Located(id)
  {
    AssignInFlight(c, after, w, task, id);
    if id > 0 { AssignInFlight(c, after, w, task, c.store.records[id].parent); }
  }

  lemma AssignPool(c: Coordinator, after: Coordinator, w: nat, task: Task)
    requires Assigns(c, after, w, task)
    ensures after.PoolOk()
  {
    assert forall v :: v in c.idle <==> v == w || v in c.idle[1..];
  }

  lemma AssignRunning(c: Coordinator, after: Coordinator, w: nat, task: Task)
    requires Assigns(c, after, w, task)
    ensures after.RunningOk()
  {
    AssignPool(c, after, w, task);
    forall id | id in after.scheduler.tasks ensures after.QueuedOk(id) { assert c.QueuedOk(id); }
    forall id | 0 <= id < |c.store.records| ensures after.Located(id) {
      assert c.Located(id);
      if id > 0 { ParentIsPublished(c, id); }
      AssignLocated(c, after, w, task, id);
    }
  }

  lemma AssignLosses(c: Coordinator, after: Coordinator, w: nat, task: Task)
    requires Assigns(c, after, w, task) && c.LossesInFlight()
    ensures after.LossesInFlight()
  {
    forall id | id in after.lost ensures after.InFlight(id) { AssignInFlight(c, after, w, task, id); }
  }

  ghost predicate NothingToAssign(c: Coordinator) {
    c.idle == [] || c.scheduler.tasks == map[]
  }

  lemma QueueIsEmpty(c: Coordinator)
    requires c.RunningOk()
    ensures c.scheduler.queue == [] <==> c.scheduler.tasks == map[]
    ensures c.scheduler.queue == [] || c.idle == [] ==> c.Dispatch() == c
  {
    c.scheduler.PopInv();
  }

  lemma {:induction false} DispatchKeeps(c: Coordinator)
    requires c.Core() && c.RunningOk()
    ensures var after := c.Dispatch();
            && after.Core() && after.RunningOk() && after.mode == c.mode && NothingToAssign(after)
            && (c.LossesInFlight() ==> after.LossesInFlight())
    decreases |c.idle|
  {
    QueueIsEmpty(c);
    if c.idle != [] && c.scheduler.queue != [] {
      AssignFirstAssigns(c);
      var after, w, task := AssignFirst(c), c.idle[0], c.scheduler.Pop().value.0.data;
      AssignCore(c, after, w, task);
      AssignRunning(c, after, w, task);
      if c.LossesInFlight() { AssignLosses(c, after, w, task); }
      DispatchKeeps(after);
    }
  }

  lemma NothingLeft(c: Coordinator)
    requires c.RunningOk() && c.inFlight == map[] && c.scheduler.tasks == map[]
    ensures c.NoPending()
  {
    forall id: nat ensures !c.IsPending(id) {
      if id < |c.store.records| { assert c.Located(id); }
    }
  }

  /** A pool with neither an idle nor a busy worker would be empty. */
  lemma SomeoneWorks(c: Coordinator)
    requires c.PoolOk() && c.idle == []
    ensures c.inFlight != map[]
  {
    var w :| w in c.monitored;
    assert w in c.inFlight;
  }

  lemma DispatchAndFinishInv(c: Coordinator)
    requires c.Core() && c.RunningOk() && c.mode.Running? && c.LossesInFlight()
    ensures c.DispatchAndFinish().Inv()
  {
    DispatchKeeps(c);
    var s := c.Dispatch();
    if s.inFlight == map[] && s.scheduler.tasks == map[] {
      NothingLeft(s);
      s.SameCore(s.Stop(Completed));
      assert forall id: nat :: s.Stop(Completed).IsPending(id) == s.IsPending(id);
      assert s.lost == {} by { forall id ensures id !in s.lost { assert !s.InFlight(id); } }
    } else if s.idle == [] {
      SomeoneWorks(s);
    }
  }

  // -- Results --------------------------------------------------------------------------------------

  /** The worker whose result has been taken is idle again. */
  function Freed(c: Coordinator, w: nat): Coordinator
    requires c.CanDeliver(w)
  {
    c.Taken(w).(idle := [w] + c.idle)
  }

  predicate HasResult(c: Coordinator, w: nat) {
    c.CanDeliver(w) && c.workers[w].mail[0].Reported?
  }

  lemma FreedPool(c: Coordinator, w: nat, after: Coordinator)
    requires c.FlightOk() && c.PoolOk() && c.CanDeliver(w) && w in c.inFlight
    requires after.idle == [w] + c.idle && after.inFlight == c.inFlight - {w} && after.monitored == c.monitored
    ensures after.PoolOk()
  {
    assert c.WorkerOk(w);
    assert forall v :: v in after.idle <==> v == w || v in c.idle;
  }

  lemma SettleCore(c: Coordinator, w: nat, memory: bool)
    requires c.Core() && HasResult(c, w)
    ensures w in c.inFlight && c.Taken(w).SettleResult(c.inFlight[w], c.workers[w].mail[0].result, memory).Core()
  {
    if c.workers[w].mail[0].result.Scanned? { c.SettleScanned(w, memory); } else { c.SettleError(w, memory); }
  }

  /** A running coordinator counts a result just as a stopping one does. */
  lemma HandleIsSettle(c: Coordinator, task: Task, result: WorkerResult, memory: bool)
    requires c.monitored != {}
    ensures var handled, settled := c.HandleResult(task, result, memory), c.SettleResult(task, result, memory);
            handled == settled.(scheduler := handled.scheduler, idle := handled.idle, mode := handled.mode)
  {
  }

  lemma SettleIgnoresIdle(c: Coordinator, idle: seq<nat>, task: Task, result: WorkerResult, memory: bool)
    ensures c.(idle := idle).SettleResult(task, result, memory) == c.SettleResult(task, result, memory).(idle := idle)
  {
  }

  lemma HandleCore(c: Coordinator, w: nat, memory: bool)
    requires c.Core() && HasResult(c, w) && c.monitored != {}
    ensures w in c.inFlight && Freed(c, w).HandleResult(c.inFlight[w], c.workers[w].mail[0].result, memory).Core()
  {
    SettleCore(c, w, memory);
    var task, result := c.inFlight[w], c.workers[w].mail[0].result;
    HandleIsSettle(Freed(c, w), task, result, memory);
    SettleIgnoresIdle(c.Taken(w), [w] + c.idle, task, result, memory);
    c.Taken(w).SettleResult(task, result, memory).SameCore(Freed(c, w).HandleResult(task, result, memory));
  }

  lemma HandleScannedRunning(c: Coordinator, w: nat, memory: bool)
    requires c.Core() && c.RunningOk() && c.mode.Running? && HasResult(c, w) && c.workers[w].mail[0].result.Scanned?
    requires w in c.inFlight
    requires Freed(c, w).HandleResult(c.inFlight[w], c.workers[w].mail[0].result, memory).mode.Running?
    ensures Freed(c, w).HandleResult(c.inFlight[w], c.workers[w].mail[0].result, memory).RunningOk()
  {
    var after := Freed(c, w).HandleResult(c.inFlight[w], c.workers[w].mail[0].result, memory);
    c.ScannedLocations(w, after);
    c.ScannedQueue(w, after);
    FreedPool(c, w, after);
  }

  /** A failed scan that leaves the run going has been recorded. */
  lemma HandledError(c: Coordinator, task: Task, reason: nat, memory: bool)
    requires c.HandleResult(task, DirectoryError(reason), memory).mode.Running?
    ensures var after := c.HandleResult(task, DirectoryError(reason), memory);
            && c.mode.Running? && c.store.FailStatus(task.id, true) == Done
            && after == c.(store := c.store.Fail(task.id, reason, true), counters := after.counters)
  {
  }

  lemma HandleErrorRunning(c: Coordinator, w: nat, memory: bool)
    requires c.Core() && c.RunningOk() && c.mode.Running? && HasResult(c, w) && c.workers[w].mail[0].result.DirectoryError?
    requires w in c.inFlight
    requires Freed(c, w).HandleResult(c.inFlight[w], c.workers[w].mail[0].result, memory).mode.Running?
    ensures Freed(c, w).HandleResult(c.inFlight[w], c.workers[w].mail[0].result, memory).RunningOk()
  {
    c.MailShape(w);
    var task, reason := c.inFlight[w], c.workers[w].mail[0].result.reason;
    var after := Freed(c, w).HandleResult(task, DirectoryError(reason), memory);
    HandledError(Freed(c, w), task, reason, memory);
    FailedRunning(c, w, task, reason, after);
  }

  lemma FailedRunning(c: Coordinator, w: nat, task: Task, reason: nat, after: Coordinator)
    requires c.Core() && c.RunningOk() && HasResult(c, w) && w in c.inFlight && task == c.inFlight[w]
    requires c.TaskOk(task) && c.IsPending(task.id) && At(c.config.root, task.path) == Some(Unreadable(reason))
    requires c.store.FailStatus(task.id, true) == Done
    requires after == Freed(c, w).(store := c.store.Fail(task.id, reason, true), counters := after.counters)
    ensures after.RunningOk()
  {
    c.FailedMatches(task, reason);
    c.FailedLocations(w, after);
    FreedPool(c, w, after);
  }

  /** A task whose result arrives was not lost. */
  lemma FreedLosses(c: Coordinator, w: nat, after: Coordinator)
    requires c.Core() && c.LossesInFlight() && HasResult(c, w)
    requires w in c.inFlight && after.inFlight == c.inFlight - {w} && after.lost == c.lost
    ensures after.LossesInFlight()
  {
    c.MailShape(w);
    if c.IsPending(c.inFlight[w].id) { c.NotPublishedWhilePending(c.inFlight[w].id); }
    forall id | id in after.lost ensures after.InFlight(id) { c.FreedInFlight(w, after, id); }
  }

  function Handled(c: Coordinator, w: nat, memory: bool): (after: Coordinator)
    requires HasResult(c, w) && w in c.inFlight
    ensures after.config == c.config
  {
    Freed(c, w).HandleResult(c.inFlight[w], c.workers[w].mail[0].result, memory)
  }

  lemma DeliveredResult(c: Coordinator, w: nat, memory: bool)
    requires c.Core() && c.mode.Running? && HasResult(c, w)
    ensures w in c.inFlight
    ensures c.Deliver(w, memory)
            == Freed(c, w).HandleResult(c.inFlight[w], c.workers[w].mail[0].result, memory).DispatchAndFinish()
  {
    c.MailShape(w);
  }

  lemma HandleRunning(c: Coordinator, w: nat, memory: bool)
    requires c.Core() && c.RunningOk() && c.mode.Running? && HasResult(c, w) && w in c.inFlight
    requires Freed(c, w).HandleResult(c.inFlight[w], c.workers[w].mail[0].result, memory).mode.Running?
    ensures Freed(c, w).HandleResult(c.inFlight[w], c.workers[w].mail[0].result, memory).RunningOk()
  {
    if c.workers[w].mail[0].result.Scanned? { HandleScannedRunning(c, w, memory); } else { HandleErrorRunning(c, w, memory); }
  }

  lemma HandledFields(c: Coordinator, task: Task, result: WorkerResult, memory: bool)
    requires c.monitored != {} && c.mode.Running?
    ensures var after := c.HandleResult(task, result, memory);
            && after.lost == c.lost && after.monitored == c.monitored && after.inFlight == c.inFlight
            && (after.mode.Running? || after.mode == Stopping(Aborted))
  {
  }

  lemma ReportedInv(c: Coordinator, w: nat, memory: bool)
    requires c.Inv() && c.mode.Running? && HasResult(c, w)
    ensures c.Deliver(w, memory).Inv()
  {
    DeliveredResult(c, w, memory);
    HandleCore(c, w, memory);
    var result := c.workers[w].mail[0].result;
    var handled := Freed(c, w).HandleResult(c.inFlight[w], result, memory);
    HandledFields(Freed(c, w), c.inFlight[w], result, memory);
    if handled.mode.Running? {
      HandleRunning(c, w, memory);
      FreedLosses(c, w, handled);
      DispatchAndFinishInv(handled);
    }
  }

  // -- Workers going down -----------------------------------------------------------------------------

  /** A dead worker leaves nothing behind that is not pending, counted or lost. */
  lemma DownCore(c: Coordinator, w: nat)
    requires c.Core() && c.CanDeliver(w) && c.workers[w].mail[0].Down?
    ensures c.Received(w).(monitored := c.monitored - {w}).Core()
  {
    c.MailShape(w);
    var after := c.Received(w).(monitored := c.monitored - {w});
    forall v | v in c.workers ensures after.WorkerOk(v) { assert c.WorkerOk(v); }
    forall id | 0 <= id < |c.store.records| ensures after.MatchesOracle(id) { assert c.MatchesOracle(id); }
    c.SumSame(after, c.merged, |c.store.records|);
    forall id: nat | after.IsPublished(id) ensures after.Accounted(id) {
      assert c.IsPublished(id) && c.Accounted(id) && after.InFlight(id) == c.InFlight(id);
    }
    forall id | id in c.merged || id in c.lost ensures after.IsPublished(id) { assert c.IsPublished(id); }
  }

  lemma UnwatchedTask(c: Coordinator, w: nat)
    requires c.Core() && w in c.inFlight && w !in c.monitored
    ensures c.HoldsNothing(c.workers[w], false)
    ensures c.IsPublished(c.inFlight[w].id) ==> c.inFlight[w].id in c.lost
  {
    assert c.WorkerOk(w);
    if c.IsPending(c.inFlight[w].id) { c.NotPublishedWhilePending(c.inFlight[w].id); }
  }

  /** Forgetting the tasks of workers that are gone. */
  lemma ForgetCore(c: Coordinator, gone: set<nat>)
    requires c.Core() && gone !! c.monitored
    ensures c.(inFlight := c.inFlight - gone).Core()
  {
    var after := c.(inFlight := c.inFlight - gone);
    forall w | w in c.workers ensures after.WorkerOk(w) {
      assert c.WorkerOk(w);
      if w in c.inFlight && w in gone { UnwatchedTask(c, w); }
    }
    forall id | 0 <= id < |c.store.records| ensures after.MatchesOracle(id) { assert c.MatchesOracle(id); }
    c.SumSame(after, c.merged, |c.store.records|);
    forall id: nat | after.IsPublished(id) ensures after.Accounted(id) {
      assert c.IsPublished(id) && c.Accounted(id);
      if c.InFlight(id) {
        var w :| w in c.inFlight && c.inFlight[w].id == id;
        if w in gone { UnwatchedTask(c, w); } else { assert w in after.inFlight && after.inFlight[w].id == id; }
      }
    }
    forall id | id in c.merged || id in c.lost ensures after.IsPublished(id) { assert c.IsPublished(id); }
  }

  /** An abort waits for the workers that are left; with none it is the end. */
  lemma AbortInv(c: Coordinator)
    requires c.Core()
    ensures c.Stop(Aborted).Inv()
  {
    if c.monitored == {} {
      ForgetCore(c, c.inFlight.Keys);
      var empty := c.(inFlight := map[]);
      assert c.inFlight - c.inFlight.Keys == map[];
      empty.SameCore(empty.(idle := [], mode := Finished(Aborted)));
    } else {
      c.SameCore(c.Stop(Aborted));
    }
  }

  lemma DeliveredDown(c: Coordinator, w: nat, memory: bool)
    requires c.mode.Running? && c.CanDeliver(w) && c.workers[w].mail[0].Down? && w in c.monitored
    ensures c.Deliver(w, memory)
            == c.Received(w).(monitored := c.monitored - {w}, idle := Coordinator.Without(c.idle, w), inFlight := c.inFlight - {w})
                .Stop(Aborted)
  {
  }

  lemma DownWhileRunning(c: Coordinator, w: nat, memory: bool)
    requires c.Inv() && c.mode.Running? && c.CanDeliver(w) && c.workers[w].mail[0].Down?
    ensures c.Deliver(w, memory).Inv()
  {
    c.MailShape(w);
    DeliveredDown(c, w, memory);
    DownCore(c, w);
    var s := c.Received(w).(monitored := c.monitored - {w});
    ForgetCore(s, {w});
    var forgot := s.(inFlight := s.inFlight - {w});
    var rest := forgot.(idle := Coordinator.Without(c.idle, w));
    forgot.SameCore(rest);
    AbortInv(rest);
  }

  lemma SameStorePending(c: Coordinator, after: Coordinator)
    requires c.NoPending() && after.store == c.store
    ensures after.NoPending()
  {
    forall id: nat ensures !after.IsPending(id) { assert !c.IsPending(id); }
  }

  lemma DownWhileStopping(c: Coordinator, w: nat, memory: bool)
    requires c.Inv() && c.mode.Stopping? && c.CanDeliver(w) && c.workers[w].mail[0].Down?
    ensures c.Deliver(w, memory).Inv()
  {
    DownCore(c, w);
    var s, after := c.Received(w).(monitored := c.monitored - {w}), c.Deliver(w, memory);
    if s.monitored == {} {
      ForgetCore(s, s.inFlight.Keys);
      assert s.inFlight - s.inFlight.Keys == map[];
      s.(inFlight := map[]).SameCore(after);
    }
    if c.mode == Stopping(Completed) { SameStorePending(c, after); }
  }

  lemma DeliverInv(c: Coordinator, w: nat, memory: bool)
    requires c.Inv() && c.CanDeliver(w)
    ensures c.Deliver(w, memory).Inv()
  {
    c.MailShape(w);
    match c.mode
    case Running =>
      if c.workers[w].mail[0].Reported? { ReportedInv(c, w, memory); } else { DownWhileRunning(c, w, memory); }
    case Stopping(ending) =>
      if c.workers[w].mail[0].Reported? { SettleCore(c, w, memory); } else { DownWhileStopping(c, w, memory); }
    case Finished(_) => assert false;
  }

  // -- Live rank changes ------------------------------------------------------------------------------

  /** Reranking moves no task: every queued directory stays queued, with its payload. */
  lemma PutRankDataInv(c: Coordinator, values: map<Term, Term>)
    requires c.Inv()
    ensures c.PutRankData(values).Inv()
  {
    if c.mode.Running? {
      c.scheduler.PutDataRecomputes(values);
      match c.scheduler.PutData(values)
      case Ok(next) =>
        var after := c.(scheduler := next);
        c.SameCore(after);
        RerankMovesNothing(c, after);
        DispatchAndFinishInv(after);
      case RankError =>
    }
  }

  lemma RerankMovesNothing(c: Coordinator, after: Coordinator)
    requires c.StoreOk() && c.LocationOk() && c.SchedulerOk() && after == c.(scheduler := after.scheduler)
    requires after.scheduler.tasks.Keys == c.scheduler.tasks.Keys
    requires forall id :: id in c.scheduler.tasks ==> after.scheduler.tasks[id].data == c.scheduler.tasks[id].data
    ensures after.LocationOk() && forall id :: id in after.scheduler.tasks ==> after.QueuedOk(id)
  {
    assert forall id :: after.InFlight(id) == c.InFlight(id);
    forall id | 0 <= id < |c.store.records| ensures after.Located(id) { assert c.Located(id); }
    forall id | id in after.scheduler.tasks ensures after.QueuedOk(id) { assert c.QueuedOk(id); }
  }
}
