/** Whole runs of the coordinator: from the start state through any interleaving of its steps. */
module CoordinatorRuns {
  import opened Coordinators
  import opened CoordinatorSteps
  import opened Counts
  import opened Options
  import opened Scan
  import opened StoreModel
  import opened Terms
  import Schedulers

  // -- Start ------------------------------------------------------------------------------------------

  type Ranker = (Task, map<Term, Term>) -> Schedulers.Evaluation<Term>

  const ROOT_TASK: Task := Task(ROOT, [])

  const NEW_WORKER: Worker := Worker([], None, true, [])

  /** Worker `n - 1` was started last and is first in the idle list. */
  function NewPool(n: nat): (workers: map<nat, Worker>)
    ensures forall w: nat :: w in workers <==> w < n
    ensures forall w :: w in workers ==> workers[w] == NEW_WORKER
  {
    if n == 0 then map[] else NewPool(n - 1)[n - 1 := NEW_WORKER]
  }

  function IdleWorkers(n: nat): (idle: seq<nat>)
    ensures |idle| == n && forall i :: 0 <= i < n ==> idle[i] == n - 1 - i
  {
    if n == 0 then [] else [n - 1] + IdleWorkers(n - 1)
  }

  /** The store with its root, the root task in the queue, and `n` fresh workers. */
  function Prepared(config: Config, scheduler: RankScheduler, n: nat): Coordinator {
    var pool := NewPool(n);
    Coordinator(config, Store.New(), scheduler, pool, pool.Keys, IdleWorkers(n), map[], ZERO, Running, {}, {})
  }

  /** A root that cannot be ranked is reported before any worker starts. */
  function Start(config: Config, ranker: Ranker, rankData: map<Term, Term>, n: nat): Schedulers.Result<Coordinator> {
    match Schedulers.Scheduler<nat, Task, Term, Term>.New(ranker, rankData).PutTask(ROOT, ROOT_TASK)
    case Ok(scheduler) => Schedulers.Ok(Prepared(config, scheduler, n).DispatchAndFinish())
    case RankError => Schedulers.RankError
  }

  lemma NewStoreOk(c: Coordinator)
    requires OnlyPendingRoot(c.store)
    ensures c.StoreOk()
  {
    assert c.MatchesOracle(ROOT);
  }

  lemma NewRootPath(store: Store<seq<Entry>>)
    requires store == Store.New()
    ensures OnlyPendingRoot(store)
  {
    store.NewInv();
  }

  lemma NoCountersOk(c: Coordinator)
    requires c.counters == ZERO && c.merged == {} && |c.store.records| == 1 && c.store.failed == 0
    ensures c.CountersOk()
  {
    assert c.SumOver({}, 1) == c.SumOver({}, 0);
  }

  lemma PreparedFlight(config: Config, scheduler: RankScheduler, n: nat)
    ensures Prepared(config, scheduler, n).FlightOk() && Prepared(config, scheduler, n).PartitionOk()
  {
    var c := Prepared(config, scheduler, n);
    assert forall id: nat :: !c.IsPublished(id);
  }

  lemma PreparedPool(config: Config, scheduler: RankScheduler, n: nat)
    requires n > 0
    ensures Prepared(config, scheduler, n).PoolOk()
  {
    var c := Prepared(config, scheduler, n);
    forall w ensures w in c.monitored <==> w in c.idle || w in c.inFlight {
      if w in c.monitored { assert c.idle[n - 1 - w] == w; }
    }
    assert 0 in c.monitored;
  }

  ghost predicate OnlyPendingRoot(store: Store<seq<Entry>>) {
    && store.Inv() && store.Path(ROOT) == [] && |store.records| == 1
    && store.records[ROOT].state == Pending && store.records[ROOT].stored.None?
  }

  lemma OnlyRootQueued(c: Coordinator)
    requires OnlyPendingRoot(c.store) && c.inFlight == map[]
    requires c.scheduler.Inv() && c.scheduler.tasks.Keys == {ROOT} && c.scheduler.tasks[ROOT].data == ROOT_TASK
    ensures c.SchedulerOk() && c.LocationOk()
  {
    assert c.QueuedOk(ROOT);
    assert c.Located(ROOT);
  }

  lemma OnlyRootInv(c: Coordinator)
    requires OnlyPendingRoot(c.store) && c.inFlight == map[] && c.merged == {} && c.lost == {} && c.counters == ZERO
    requires c.scheduler.Inv() && c.scheduler.tasks.Keys == {ROOT} && c.scheduler.tasks[ROOT].data == ROOT_TASK
    requires c.store.failed == 0 && c.FlightOk() && c.PartitionOk() && c.PoolOk()
    ensures c.Core() && c.RunningOk() && c.LossesInFlight()
  {
    NewStoreOk(c);
    NoCountersOk(c);
    OnlyRootQueued(c);
  }

  lemma PreparedInv(config: Config, scheduler: RankScheduler, n: nat)
    requires n > 0 && scheduler.Inv() && scheduler.tasks.Keys == {ROOT} && scheduler.tasks[ROOT].data == ROOT_TASK
    ensures var c := Prepared(config, scheduler, n); c.Core() && c.RunningOk() && c.LossesInFlight()
  {
    NewRootPath(Store.New());
    PreparedFlight(config, scheduler, n);
    PreparedPool(config, scheduler, n);
    OnlyRootInv(Prepared(config, scheduler, n));
  }

  lemma StartInv(config: Config, ranker: Ranker, rankData: map<Term, Term>, n: nat)
    requires n > 0 && Schedulers.Tracked(ranker) && Start(config, ranker, rankData, n).Ok?
    ensures Start(config, ranker, rankData, n).value.Inv()
  {
    var empty := Schedulers.Scheduler<nat, Task, Term, Term>.New(ranker, rankData);
    empty.NewInv();
    var evaluation := ranker(ROOT_TASK, rankData);
    empty.PutEvaluatedTaskInv(ROOT, ROOT_TASK, evaluation.rank, evaluation.keys);
    var scheduler := empty.PutTask(ROOT, ROOT_TASK).value;
    PreparedInv(config, scheduler, n);
    DispatchAndFinishInv(Prepared(config, scheduler, n));
  }

  // -- Steps ------------------------------------------------------------------------------------------

  datatype Event =
    | Runs(w: nat, memory: bool)
    | Sends(w: nat)
    | Dies(w: nat)
    | Stops(w: nat)
    | Delivers(w: nat, memory: bool)
    | ChangesRanks(values: map<Term, Term>)

  predicate Enabled(c: Coordinator, event: Event) {
    match event
    case Runs(w, _) => c.CanRun(w)
    case Sends(w) => c.CanSend(w)
    case Dies(w) => c.CanDie(w)
    case Stops(w) => c.CanStop(w)
    case Delivers(w, _) => c.CanDeliver(w)
    case ChangesRanks(_) => true
  }

  /** An event that cannot happen now leaves the state as it is, so every sequence of events is a run. */
  ghost function Next(c: Coordinator, event: Event): Coordinator {
    if !Enabled(c, event) then c
    else match event
      case Runs(w, memory) => c.WorkerRuns(w, memory)
      case Sends(w) => c.WorkerSends(w)
      case Dies(w) => c.WorkerDies(w)
      case Stops(w) => c.WorkerStops(w)
      case Delivers(w, memory) => c.Deliver(w, memory)
      case ChangesRanks(values) => c.PutRankData(values)
  }

  ghost function Run(c: Coordinator, events: seq<Event>): Coordinator
    decreases |events|
  {
    if events == [] then c else Run(Next(c, events[0]), events[1..])
  }

  lemma NextInv(c: Coordinator, event: Event)
    requires c.Inv()
    ensures Next(c, event).Inv()
  {
    if Enabled(c, event) {
      match event
      case Runs(w, memory) => c.WorkerRunsInv(w, memory);
      case Sends(w) => c.WorkerSendsInv(w);
      case Dies(w) => c.WorkerDiesInv(w);
      case Stops(w) => c.WorkerStopsInv(w);
      case Delivers(w, memory) => DeliverInv(c, w, memory);
      case ChangesRanks(values) => PutRankDataInv(c, values);
    }
  }

  /** Whatever ranks, interleaving, deaths and rank changes: the invariant holds in every reachable state. */
  lemma {:induction false} EveryReachableStateInv(c: Coordinator, events: seq<Event>)
    requires c.Inv()
    ensures Run(c, events).Inv()
    decreases |events|
  {
    if events != [] {
      NextInv(c, events[0]);
      EveryReachableStateInv(Next(c, events[0]), events[1..]);
    }
  }

  lemma {:induction false} ConfigIsFixed(c: Coordinator, events: seq<Event>)
    ensures Run(c, events).config == c.config
    decreases |events|
  {
    if events != [] {
      NextConfig(c, events[0]);
      ConfigIsFixed(Next(c, events[0]), events[1..]);
    }
  }

  lemma {:induction false} DispatchConfig(c: Coordinator)
    ensures c.Dispatch().config == c.config
    decreases |c.idle|
  {
    if c.idle != [] && c.scheduler.Pop().Some? && c.idle[0] in c.workers { DispatchConfig(AssignFirst(c)); }
  }

  lemma DeliverConfig(c: Coordinator, w: nat, memory: bool)
    requires c.CanDeliver(w)
    ensures c.Deliver(w, memory).config == c.config
  {
    if c.mode.Running? && HasResult(c, w) && w in c.inFlight {
      DispatchConfig(Handled(c, w, memory));
      ResultConfig(c, w, memory);
    }
  }

  lemma ResultConfig(c: Coordinator, w: nat, memory: bool)
    requires c.mode.Running? && HasResult(c, w) && w in c.inFlight
    ensures c.Deliver(w, memory) == Handled(c, w, memory).DispatchAndFinish() || c.Deliver(w, memory) == Freed(c, w).Stop(Aborted)
  {
  }

  lemma NextConfig(c: Coordinator, event: Event)
    ensures Next(c, event).config == c.config
  {
    if Enabled(c, event) {
      match event
      case Delivers(w, memory) => DeliverConfig(c, w, memory);
      case ChangesRanks(values) => RanksKeepConfig(c, values);
      case _ =>
    }
  }

  lemma RanksKeepConfig(c: Coordinator, values: map<Term, Term>)
    ensures c.PutRankData(values).config == c.config
  {
    var put := c.scheduler.PutData(values);
    if put.Ok? { DispatchConfig(c.(scheduler := put.value)); }
  }

  /** No state is stuck: until it has finished, some worker or the coordinator can move on its own. */
  lemma NeverStuck(c: Coordinator)
    requires c.Inv() && !c.mode.Finished?
    ensures exists w :: c.CanRun(w) || c.CanSend(w) || c.CanStop(w) || c.CanDeliver(w)
  {
    if c.mode.Running? {
      var w :| w in c.inFlight;
      assert c.WorkerOk(w);
      assert c.CanRun(w) || c.CanSend(w) || c.CanDeliver(w);
    } else {
      var w :| w in c.monitored;
      assert c.WorkerOk(w);
      assert c.CanRun(w) || c.CanSend(w) || c.CanStop(w) || c.CanDeliver(w);
    }
  }

  // -- One place for every directory ------------------------------------------------------------------

  /** The tasks in flight whose directory is not published yet. */
  predicate Busy(c: Coordinator, id: nat) {
    c.InFlight(id) && c.IsPending(id)
  }

  /** While running, a pending directory is in exactly one of: queue, unpublished in flight, published parent's undelivered result. */
  lemma PendingIsInOnePlace(c: Coordinator, events: seq<Event>, id: nat)
    requires c.Inv() && Run(c, events).mode.Running? && Run(c, events).IsPending(id)
    ensures var s := Run(c, events);
            var queued, busy, reserved := id in s.scheduler.tasks, Busy(s, id), s.Undelivered(id);
            && (queued || busy || reserved)
            && !(queued && busy) && !(queued && reserved) && !(busy && reserved)
    ensures var s := Run(c, events);
            s.Undelivered(id) ==> s.IsPublished(s.store.records[id].parent)
    ensures var s := Run(c, events);
            forall v, w :: v in s.inFlight && w in s.inFlight && s.inFlight[v].id == s.inFlight[w].id ==> v == w
  {
    EveryReachableStateInv(c, events);
    var s := Run(c, events);
    assert s.Located(id);
    if id > 0 { assert s.store.Linked(id) && s.store.ValidRecord(s.store.records[id].parent); }
  }

  /** A directory that left the pending state never gets back, so none is scanned into the store twice. */
  lemma {:induction false} TerminalNeverChanges(c: Coordinator, events: seq<Event>, id: nat)
    requires c.Inv() && c.store.Terminal(id)
    ensures id < |Run(c, events).store.records| && Run(c, events).store.records[id] == c.store.records[id]
    decreases |events|
  {
    if events != [] {
      NextKeepsTerminal(c, events[0]);
      NextInv(c, events[0]);
      TerminalNeverChanges(Next(c, events[0]), events[1..], id);
    }
  }

  lemma RunsKeepsTerminal(c: Coordinator, w: nat, memory: bool)
    requires c.CanRun(w)
    ensures KeepsTerminal(c.store, c.WorkerRuns(w, memory).store)
  {
  }

  lemma NextKeepsTerminal(c: Coordinator, event: Event)
    ensures KeepsTerminal(c.store, Next(c, event).store)
  {
    if Enabled(c, event) {
      match event
      case Runs(w, memory) => RunsKeepsTerminal(c, w, memory);
      case Delivers(w, memory) => DeliverKeepsTerminal(c, w, memory);
      case ChangesRanks(values) => RanksKeepStore(c, values);
      case _ =>
    }
  }

  lemma RanksKeepStore(c: Coordinator, values: map<Term, Term>)
    ensures c.PutRankData(values).store == c.store
  {
    var put := c.scheduler.PutData(values);
    if put.Ok? { DispatchStore(c.(scheduler := put.value)); }
  }

  lemma {:induction false} DispatchStore(c: Coordinator)
    ensures c.Dispatch().store == c.store
    decreases |c.idle|
  {
    if c.idle != [] && c.scheduler.Pop().Some? && c.idle[0] in c.workers { DispatchStore(AssignFirst(c)); }
  }

  ghost predicate KeepsTerminal(before: Store<seq<Entry>>, after: Store<seq<Entry>>) {
    forall id: nat {:trigger before.Terminal(id)} ::
      before.Terminal(id) ==> after.Terminal(id) && after.records[id] == before.records[id]
  }

  lemma HandledKeepsTerminal(c: Coordinator, task: Task, result: WorkerResult, memory: bool)
    ensures KeepsTerminal(c.store, c.HandleResult(task, result, memory).store)
    ensures KeepsTerminal(c.store, c.SettleResult(task, result, memory).store)
  {
  }

  /** Delivering a message leaves the store alone, unless the message is a result that is handled or settled. */
  lemma DeliverStore(c: Coordinator, w: nat, memory: bool)
    requires c.CanDeliver(w)
    ensures || c.Deliver(w, memory).store == c.store
            || (HasResult(c, w) && w in c.inFlight
                && var task, result := c.inFlight[w], c.workers[w].mail[0].result;
                   c.Deliver(w, memory).store in {Freed(c, w).HandleResult(task, result, memory).store,
                                                  c.Taken(w).SettleResult(task, result, memory).store})
  {
    if HasResult(c, w) && w in c.inFlight && c.mode.Running? && c.inFlight[w].id == c.workers[w].mail[0].id {
      var handled := Freed(c, w).HandleResult(c.inFlight[w], c.workers[w].mail[0].result, memory);
      DispatchStore(handled);
      assert c.Deliver(w, memory) == handled.DispatchAndFinish();
    }
  }

  lemma DeliverKeepsTerminal(c: Coordinator, w: nat, memory: bool)
    requires c.CanDeliver(w)
    ensures KeepsTerminal(c.store, c.Deliver(w, memory).store)
  {
    DeliverStore(c, w, memory);
    if HasResult(c, w) && w in c.inFlight {
      var task, result := c.inFlight[w], c.workers[w].mail[0].result;
      HandledKeepsTerminal(Freed(c, w), task, result, memory);
      HandledKeepsTerminal(c.Taken(w), task, result, memory);
    }
  }

  // -- The end of a run -------------------------------------------------------------------------------

  /** A finished coordinator stays finished and its store is never written again: no worker is left to write. */
  lemma FinishedNeverWrites(c: Coordinator, event: Event)
    requires c.Inv() && c.mode.Finished?
    ensures Next(c, event).store == c.store && Next(c, event).mode == c.mode
  {
    match event
    case Runs(w, _) => NobodyActs(c, w);
    case Delivers(w, _) => NobodyActs(c, w);
    case _ =>
  }

  lemma NobodyActs(c: Coordinator, w: nat)
    requires c.Inv() && c.mode.Finished?
    ensures !c.CanRun(w) && !c.CanDeliver(w)
  {
    if w in c.workers { assert c.WorkerOk(w); }
  }

  lemma {:induction false} FinishedIsFinal(c: Coordinator, events: seq<Event>)
    requires c.Inv() && c.mode.Finished?
    ensures Run(c, events).store == c.store && Run(c, events).mode == c.mode
    decreases |events|
  {
    if events != [] {
      FinishedNeverWrites(c, events[0]);
      NextInv(c, events[0]);
      FinishedIsFinal(Next(c, events[0]), events[1..]);
    }
  }
}
